/** Settings::fixupKeys: the backend's raw key list becomes the public one by
    sorting it, removing duplicates and converting every key to its external form.
    The library steps it calls (QStringList::sort, std::unique,
    QStringList::removeDuplicates) are modelled here with the behaviour they document. */
module KeyList {
  import opened Keys
  import opened KeyOrder

  /** Inserts `x` into a list that is already in order (one step of the sort). */
  function Insert(x: string, s: seq<string>): seq<string> {
    if s == [] then [x]
    else if LessOrEqual(x, s[0]) then [x] + s
    else [s[0]] + Insert(x, s[1..])
  }

  /** QStringList::sort, as an insertion sort on the same order. */
  function Sort(s: seq<string>): seq<string> {
    if s == [] then [] else Insert(s[0], Sort(s[1..]))
  }

  lemma {:induction false} InsertPermutes(x: string, s: seq<string>)
    ensures multiset(Insert(x, s)) == multiset(s) + multiset{x}
  {
    if s != [] && !LessOrEqual(x, s[0]) {
      InsertPermutes(x, s[1..]);
      assert s == [s[0]] + s[1..];
    }
  }

  lemma {:induction false} InsertAscending(x: string, s: seq<string>)
    requires Ascending(s)
    ensures Ascending(Insert(x, s))
  {
    if s == [] {
    } else if LessOrEqual(x, s[0]) {
      var r := [x] + s;
      forall i, j | 0 <= i < j < |r|
        ensures LessOrEqual(r[i], r[j])
      {
        if i == 0 && j > 1 {
          LessOrEqualTransitive(x, s[0], s[j - 1]);
        }
      }
    } else {
      var t := Insert(x, s[1..]);
      InsertAscending(x, s[1..]);
      InsertPermutes(x, s[1..]);
      LessTotal(x, s[0]);
      var r := [s[0]] + t;
      forall i, j | 0 <= i < j < |r|
        ensures LessOrEqual(r[i], r[j])
      {
        if i == 0 {
          assert r[j] in multiset(t);
          assert r[j] == x || r[j] in multiset(s[1..]);
          if r[j] != x {
            var k :| 0 <= k < |s[1..]| && s[1..][k] == r[j];
            assert s[k + 1] == r[j];
          }
        }
      }
    }
  }

  /** The sorted list is in order. */
  lemma {:induction false} SortAscending(s: seq<string>)
    ensures Ascending(Sort(s))
  {
    if s != [] {
      SortAscending(s[1..]);
      InsertAscending(s[0], Sort(s[1..]));
    }
  }

  /** The sorted list holds the same keys, each as often as before. */
  lemma {:induction false} SortPermutes(s: seq<string>)
    ensures multiset(Sort(s)) == multiset(s)
  {
    if s != [] {
      SortPermutes(s[1..]);
      InsertPermutes(s[0], Sort(s[1..]));
      assert s == [s[0]] + s[1..];
    }
  }

  /** No key occurs twice. */
  predicate Distinct(s: seq<string>) {
    forall i, j :: 0 <= i < j < |s| ==> s[i] != s[j]
  }

  /** A key larger than the last of a strictly ascending list extends it. */
  lemma AppendLarger(prefix: seq<string>, next: string)
    requires prefix != [] && StrictlyAscending(prefix)
    requires Less(prefix[|prefix| - 1], next)
    ensures StrictlyAscending(prefix + [next])
  {
    var r := prefix + [next];
    forall i, j | 0 <= i < j < |r|
      ensures Less(r[i], r[j])
    {
      if j == |prefix| && i < |prefix| - 1 {
        LessTransitive(prefix[i], prefix[|prefix| - 1], next);
      }
    }
  }

  /** std::unique on a sorted array: moves one copy of each run of equal keys to the
      front and returns where that prefix ends. The positions from there on keep what
      they held (the element type is copied). */
  method StdUnique(a: array<string>) returns (end: nat)
    requires Ascending(a[..])
    modifies a
    ensures end <= a.Length
    ensures StrictlyAscending(a[..end])
    ensures forall x :: x in a[..end] <==> x in old(a[..])
    ensures a[end..] == old(a[end..])
  {
    if a.Length == 0 {
      return 0;
    }
    ghost var orig := a[..];
    var dest := 0;
    var i := 1;
    while i < a.Length
      invariant 1 <= i <= a.Length
      invariant 0 <= dest < i
      invariant StrictlyAscending(a[..dest + 1])
      invariant a[dest] == orig[i - 1]
      invariant forall x :: x in a[..dest + 1] <==> x in orig[..i]
      invariant forall j :: dest < j < a.Length ==> a[j] == orig[j]
    {
      assert orig[..i + 1] == orig[..i] + [orig[i]];
      if a[dest] != a[i] {
        assert LessOrEqual(orig[i - 1], orig[i]);
        ghost var prefix := a[..dest + 1];
        var next := a[i];
        AppendLarger(prefix, next);
        dest := dest + 1;
        a[dest] := next;
        assert a[..dest + 1] == prefix + [next];
      }
      i := i + 1;
    }
    end := dest + 1;
    assert orig[..a.Length] == orig;
  }

  /** Where `x` first occurs in `s`. */
  function FirstIndex(s: seq<string>, x: string): (r: nat)
    requires x in s
    ensures r < |s| && s[r] == x
    ensures forall k :: 0 <= k < r ==> s[k] != x
  {
    if s[0] == x then 0 else 1 + FirstIndex(s[1..], x)
  }

  /** Appending a key does not move where an earlier key first occurs. */
  lemma FirstIndexOfPrefix(init: seq<string>, last: string, x: string)
    requires x in init
    ensures FirstIndex(init + [last], x) == FirstIndex(init, x)
  {
    var a, b := FirstIndex(init, x), FirstIndex(init + [last], x);
    assert (init + [last])[a] == x;
    assert b <= a;
    assert init[b] == x;
  }

  /** `r` takes keys of `s` in the order of their first occurrence in `s`. */
  predicate InFirstOccurrenceOrder(r: seq<string>, s: seq<string>) {
    (forall x :: x in r ==> x in s) &&
    (forall i, j :: 0 <= i < j < |r| ==> FirstIndex(s, r[i]) < FirstIndex(s, r[j]))
  }

  /** One step of removeDuplicates keeps the first-occurrence order. */
  lemma FirstOccurrenceOrderStep(init: seq<string>, last: string, kept: seq<string>)
    requires InFirstOccurrenceOrder(kept, init)
    ensures InFirstOccurrenceOrder(kept, init + [last])
    ensures last !in init ==> InFirstOccurrenceOrder(kept + [last], init + [last])
  {
    var s := init + [last];
    forall x | x in kept
      ensures FirstIndex(s, x) == FirstIndex(init, x)
    {
      FirstIndexOfPrefix(init, last, x);
    }
    if last !in init {
      var r := kept + [last];
      assert FirstIndex(s, last) == |init|;
      forall i, j | 0 <= i < j < |r|
        ensures FirstIndex(s, r[i]) < FirstIndex(s, r[j])
      {
        assert r[i] in kept;
        if j < |kept| {
          assert r[j] in kept;
        }
      }
    }
  }

  /** QStringList::removeDuplicates: keeps the first occurrence of every key, in the
      order those first occurrences have in the input. */
  function RemoveDuplicates(s: seq<string>): (r: seq<string>)
    ensures Distinct(r)
    ensures forall x :: x in r <==> x in s
    ensures InFirstOccurrenceOrder(r, s)
  {
    if s == [] then []
    else
      var init := s[..|s| - 1];
      var last := s[|s| - 1];
      assert s == init + [last];
      var kept := RemoveDuplicates(init);
      FirstOccurrenceOrderStep(init, last, kept);
      if last in init then kept else kept + [last]
  }

  /** A list without duplicates is left as it is. */
  lemma {:induction false} RemoveDuplicatesOfDistinct(p: seq<string>)
    requires Distinct(p)
    ensures RemoveDuplicates(p) == p
  {
    if p != [] {
      var init := p[..|p| - 1];
      RemoveDuplicatesOfDistinct(init);
      assert p == init + [p[|p| - 1]];
    }
  }

  /** Keys that repeat keys of a duplicate-free prefix are all dropped: this is why
      the tail std::unique leaves behind does not reach the result. */
  lemma {:induction false} RemoveDuplicatesDropsRepeats(p: seq<string>, t: seq<string>)
    requires Distinct(p)
    requires forall x :: x in t ==> x in p
    ensures RemoveDuplicates(p + t) == p
    decreases |t|
  {
    if t == [] {
      assert p + t == p;
      RemoveDuplicatesOfDistinct(p);
    } else {
      var s := p + t;
      var t' := t[..|t| - 1];
      assert s[..|s| - 1] == p + t';
      assert s[|s| - 1] == t[|t| - 1];
      assert t[|t| - 1] in p;
      RemoveDuplicatesDropsRepeats(p, t');
    }
  }

  /** The loop of fixupKeys that rewrites each key in place to its external form. */
  method ConvertToExternal(a: array<string>)
    modifies a
    ensures a[..] == MapExternal(old(a[..]))
  {
    var i := 0;
    while i < a.Length
      invariant 0 <= i <= a.Length
      invariant forall j :: 0 <= j < i ==> a[j] == External(old(a[j]))
      invariant forall j :: i <= j < a.Length ==> a[j] == old(a[j])
    {
      a[i] := External(a[i]);
      i := i + 1;
    }
  }

  /** What std::unique leaves behind, passed through removeDuplicates, is the
      ordered listing of the original keys. */
  lemma UniqueThenRemoveDuplicates(keys: seq<string>, sorted: seq<string>, u: seq<string>, end: nat)
    requires multiset(sorted) == multiset(keys)
    requires end <= |u| == |sorted|
    requires StrictlyAscending(u[..end])
    requires forall x :: x in u[..end] <==> x in sorted
    requires u[end..] == sorted[end..]
    ensures RemoveDuplicates(u) == Ordered(Elements(keys))
  {
    var prefix := u[..end];
    assert u == prefix + u[end..];
    forall x | x in u[end..]
      ensures x in prefix
    {
      assert x in sorted[end..];
    }
    forall i, j | 0 <= i < j < |prefix|
      ensures prefix[i] != prefix[j]
    {
      LessIrreflexive(prefix[i]);
    }
    RemoveDuplicatesDropsRepeats(prefix, u[end..]);
    forall x
      ensures x in prefix <==> x in Elements(keys)
    {
      assert x in multiset(sorted) <==> x in multiset(keys);
    }
    AscendingUnique(prefix, Ordered(Elements(keys)));
  }

  /** A fresh array holding the list (the QStringList being worked on in place). */
  method ToArray(s: seq<string>) returns (a: array<string>)
    ensures fresh(a) && a[..] == s
  {
    a := new string[|s|](i requires 0 <= i < |s| => s[i]);
  }

  /** Settings::fixupKeys: the result lists every distinct key of the input once, in
      ascending order of the backend (slash) form, each converted to the dotted form. */
  method FixupKeys(keys: seq<string>) returns (fixed: seq<string>)
    ensures fixed == MapExternal(Ordered(Elements(keys)))
  {
    var sorted := Sort(keys);
    assert Ascending(sorted) by {
      SortAscending(keys);
    }
    var a := ToArray(sorted);
    // The source discards the end position std::unique returns.
    ghost var end := StdUnique(a);
    var deduped := RemoveDuplicates(a[..]);
    assert deduped == Ordered(Elements(keys)) by {
      SortPermutes(keys);
      UniqueThenRemoveDuplicates(keys, sorted, a[..], end);
    }
    var b := ToArray(deduped);
    ConvertToExternal(b);
    fixed := b[..];
  }

  /** Without '.' in the backend keys, the external form keeps their order,
      because '.' and '/' are adjacent characters. */
  lemma {:induction false} ExternalPreservesOrder(a: string, b: string)
    requires '.' !in a && '.' !in b
    requires Less(a, b)
    ensures Less(External(a), External(b))
    decreases |a|
  {
    if a != [] {
      var ea, eb := External(a), External(b);
      assert ea == [ToExternalChar(a[0])] + External(a[1..]);
      assert eb == [ToExternalChar(b[0])] + External(b[1..]);
      assert ea[1..] == External(a[1..]) && eb[1..] == External(b[1..]);
      if a[0] == b[0] {
        assert a[1..] == a[1..] && '.' !in a[1..] && '.' !in b[1..];
        ExternalPreservesOrder(a[1..], b[1..]);
      }
    }
  }

  /** If no backend key contains '.', the listing Settings::allKeys returns is itself
      strictly ascending and free of duplicates. */
  lemma ExternalListingAscending(s: set<string>)
    requires forall k :: k in s ==> '.' !in k
    ensures StrictlyAscending(MapExternal(Ordered(s)))
  {
    var o := Ordered(s);
    forall i, j | 0 <= i < j < |o|
      ensures Less(External(o[i]), External(o[j]))
    {
      assert o[i] in s && o[j] in s;
      ExternalPreservesOrder(o[i], o[j]);
    }
  }

  /** The listing has one entry per backend key, and every backend key appears in it
      in its external form. */
  lemma ListingCoversKeys(s: set<string>)
    ensures |MapExternal(Ordered(s))| == |s|
    ensures forall k :: k in s ==> External(k) in MapExternal(Ordered(s))
  {
    var o := Ordered(s);
    forall k | k in s
      ensures External(k) in MapExternal(o)
    {
      var i :| 0 <= i < |o| && o[i] == k;
      assert MapExternal(o)[i] == External(k);
    }
  }

  /** With a '.' inside a backend key the guarantee is lost: "a.b" and "a/b" are
      distinct backend keys and both are listed as "a.b". */
  lemma DottedBackendKeyIsListedTwice()
    ensures MapExternal(Ordered({"a.b", "a/b"})) == ["a.b", "a.b"]
  {
    var p := ["a.b", "a/b"];
    assert Less(".b", "/b");
    assert Less("a.b", "a/b") by {
      assert "a.b"[1..] == ".b" && "a/b"[1..] == "/b";
    }
    assert Elements(p) == {"a.b", "a/b"};
    OrderedOfElements(p);
    assert External("a/b") == "a.b" by {
      assert External("b") == "b";
      assert "a/b"[1..] == "/b" && "/b"[1..] == "b";
    }
    assert External("a.b") == "a.b" by {
      assert External("b") == "b";
      assert "a.b"[1..] == ".b" && ".b"[1..] == "b";
    }
  }
}
