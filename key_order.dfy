/** The order QStringList::sort puts keys in: lexicographic, character by character,
    a proper prefix first. Also the reference listing of a key set: its elements in
    strictly ascending order, which is what Settings::allKeys is specified against. */
module KeyOrder {

  /** `a` sorts strictly before `b`. */
  predicate Less(a: string, b: string)
    decreases |a|
  {
    if |a| == 0 then |b| > 0
    else if |b| == 0 then false
    else if a[0] != b[0] then a[0] < b[0]
    else Less(a[1..], b[1..])
  }

  predicate LessOrEqual(a: string, b: string) {
    a == b || Less(a, b)
  }

  /** Every pair of positions is in order; duplicates allowed. */
  predicate Ascending(s: seq<string>) {
    forall i, j :: 0 <= i < j < |s| ==> LessOrEqual(s[i], s[j])
  }

  /** Every pair of positions is strictly in order, hence no duplicates. */
  predicate StrictlyAscending(s: seq<string>) {
    forall i, j :: 0 <= i < j < |s| ==> Less(s[i], s[j])
  }

  /** The set of keys a list holds. */
  function Elements(s: seq<string>): set<string> {
    set x | x in s
  }

  lemma {:induction false} LessIrreflexive(a: string)
    ensures !Less(a, a)
    decreases |a|
  {
    if a != [] {
      LessIrreflexive(a[1..]);
    }
  }

  lemma {:induction false} LessTransitive(a: string, b: string, c: string)
    requires Less(a, b) && Less(b, c)
    ensures Less(a, c)
    decreases |a|
  {
    if a != [] && a[0] == b[0] && b[0] == c[0] {
      LessTransitive(a[1..], b[1..], c[1..]);
    }
  }

  lemma {:induction false} LessTotal(a: string, b: string)
    ensures a == b || Less(a, b) || Less(b, a)
    decreases |a|
  {
    if a != [] && b != [] && a[0] == b[0] {
      LessTotal(a[1..], b[1..]);
      if a[1..] == b[1..] {
        assert a == [a[0]] + a[1..] && b == [b[0]] + b[1..];
      }
    }
  }

  lemma LessAsymmetric(a: string, b: string)
    requires Less(a, b)
    ensures !Less(b, a)
  {
    if Less(b, a) {
      LessTransitive(a, b, a);
      LessIrreflexive(a);
      assert false;
    }
  }

  lemma LessOrEqualTransitive(a: string, b: string, c: string)
    requires LessOrEqual(a, b) && LessOrEqual(b, c)
    ensures LessOrEqual(a, c)
  {
    if a != b && b != c {
      LessTransitive(a, b, c);
    }
  }

  /** `m` is the smallest element of `s`. */
  ghost predicate IsLeast(m: string, s: set<string>) {
    m in s && forall x :: x in s ==> LessOrEqual(m, x)
  }

  /** Every non-empty finite key set has a smallest element. */
  lemma {:induction false} LeastExists(s: set<string>)
    requires s != {}
    ensures exists m :: IsLeast(m, s)
    decreases |s|
  {
    var y :| y in s;
    var rest := s - {y};
    if rest == {} {
      assert s == {y};
      assert IsLeast(y, s);
    } else {
      LeastExists(rest);
      var m :| IsLeast(m, rest);
      LessTotal(y, m);
      if Less(m, y) {
        assert IsLeast(m, s);
      } else {
        forall x | x in s
          ensures LessOrEqual(y, x)
        {
          if x != y {
            LessOrEqualTransitive(y, m, x);
          }
        }
        assert IsLeast(y, s);
      }
    }
  }

  ghost function Least(s: set<string>): (m: string)
    requires s != {}
    ensures IsLeast(m, s)
  {
    LeastExists(s);
    var m :| IsLeast(m, s);
    m
  }

  /** The reference listing of a key set: each key once, in strictly ascending order. */
  ghost function Ordered(s: set<string>): (r: seq<string>)
    ensures StrictlyAscending(r)
    ensures forall x :: x in r <==> x in s
    ensures |r| == |s|
    decreases |s|
  {
    if s == {} then []
    else
      var m := Least(s);
      var tail := Ordered(s - {m});
      assert forall x :: x in tail ==> Less(m, x);
      [m] + tail
  }

  lemma HeadIsElement(s: seq<string>)
    requires s != []
    ensures s[0] in s
  {
  }

  /** A strictly ascending list is determined by the keys it holds. */
  lemma {:induction false} AscendingUnique(p: seq<string>, q: seq<string>)
    requires StrictlyAscending(p) && StrictlyAscending(q)
    requires forall x :: x in p <==> x in q
    ensures p == q
    decreases |p|
  {
    if p == [] {
      if q != [] {
        HeadIsElement(q);
        assert false;
      }
    } else {
      assert q != [] by {
        assert p[0] in p;
      }
      assert p[0] == q[0] by {
        assert p[0] in p && q[0] in q;
        var i :| 0 <= i < |q| && q[i] == p[0];
        var j :| 0 <= j < |p| && p[j] == q[0];
        assert LessOrEqual(q[0], p[0]);
        assert LessOrEqual(p[0], q[0]);
        if p[0] != q[0] {
          LessAsymmetric(p[0], q[0]);
          assert false;
        }
      }
      forall x
        ensures x in p[1..] <==> x in q[1..]
      {
        if x in p[1..] {
          var k :| 1 <= k < |p| && p[k] == x;
          LessIrreflexive(x);
          assert x in q;
        }
        if x in q[1..] {
          var k :| 1 <= k < |q| && q[k] == x;
          LessIrreflexive(x);
          assert x in p;
        }
      }
      AscendingUnique(p[1..], q[1..]);
      assert p == [p[0]] + p[1..] && q == [q[0]] + q[1..];
    }
  }

  /** Ordered lists of the same key set are the same list. */
  lemma OrderedOfElements(p: seq<string>)
    requires StrictlyAscending(p)
    ensures Ordered(Elements(p)) == p
  {
    AscendingUnique(Ordered(Elements(p)), p);
  }
}
