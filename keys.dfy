/** Key translation between the user-facing dotted form ("profiles.qt.baseProfile")
    and the backend's slash-separated form ("profiles/qt/baseProfile").
    Both directions are a plain character substitution; nothing is validated. */
module Keys {

  /** The character map applied by `Internal`: every '.' becomes '/'. */
  function ToInternalChar(c: char): char {
    if c == '.' then '/' else c
  }

  /** The character map applied by `External`: every '/' becomes '.'. */
  function ToExternalChar(c: char): char {
    if c == '/' then '.' else c
  }

  /** Settings::internalRepresentation: the key as the backend stores it. */
  function Internal(externalKey: string): (r: string)
    ensures |r| == |externalKey|
    ensures '.' !in r
  {
    if externalKey == [] then []
    else [ToInternalChar(externalKey[0])] + Internal(externalKey[1..])
  }

  /** Settings::externalRepresentation: the key as users see it. */
  function External(internalKey: string): (r: string)
    ensures |r| == |internalKey|
    ensures '/' !in r
  {
    if internalKey == [] then []
    else [ToExternalChar(internalKey[0])] + External(internalKey[1..])
  }

  /** Converts every key of a list to its external form, keeping the order. */
  function MapExternal(keys: seq<string>): seq<string> {
    seq(|keys|, i requires 0 <= i < |keys| => External(keys[i]))
  }

  /** `Internal` changes a '.' into '/' and leaves every other character where it was. */
  lemma {:induction false} InternalPointwise(k: string)
    ensures forall i :: 0 <= i < |k| ==> Internal(k)[i] == ToInternalChar(k[i])
  {
    if k != [] {
      InternalPointwise(k[1..]);
      assert Internal(k) == [ToInternalChar(k[0])] + Internal(k[1..]);
    }
  }

  /** `External` changes a '/' into '.' and leaves every other character where it was. */
  lemma {:induction false} ExternalPointwise(k: string)
    ensures forall i :: 0 <= i < |k| ==> External(k)[i] == ToExternalChar(k[i])
  {
    if k != [] {
      ExternalPointwise(k[1..]);
      assert External(k) == [ToExternalChar(k[0])] + External(k[1..]);
    }
  }

  /** A well-formed dotted key survives the trip to the backend and back. */
  lemma {:induction false} ExternalOfInternal(k: string)
    requires '/' !in k
    ensures External(Internal(k)) == k
  {
    if k != [] {
      ExternalOfInternal(k[1..]);
      var i := Internal(k);
      assert i[1..] == Internal(k[1..]);
      assert External(i) == [ToExternalChar(i[0])] + External(i[1..]);
      assert k == [k[0]] + k[1..];
    }
  }

  /** A well-formed slash key survives the trip to the user and back. */
  lemma {:induction false} InternalOfExternal(k: string)
    requires '.' !in k
    ensures Internal(External(k)) == k
  {
    if k != [] {
      InternalOfExternal(k[1..]);
      var e := External(k);
      assert e[1..] == External(k[1..]);
      assert Internal(e) == [ToInternalChar(e[0])] + Internal(e[1..]);
      assert k == [k[0]] + k[1..];
    }
  }

  /** A key without any '.' is its own internal form (so "profile" is stored as "profile"). */
  lemma {:induction false} InternalOfPlainKey(k: string)
    requires '.' !in k
    ensures Internal(k) == k
  {
    if k != [] {
      InternalOfPlainKey(k[1..]);
      assert k == [k[0]] + k[1..];
    }
  }
}
