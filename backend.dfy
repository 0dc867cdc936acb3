/** The key-value backend the settings store wraps (QSettings), reduced to the
    behaviour the store relies on: a map from slash-separated keys to values, a
    group cursor that prefixes every key, removal of a key with everything nested
    under it, and a status read after a flush. The flush outcome is an oracle. */
module KeyValueBackend {

  /** QVariant, opaque except for its string conversion. */
  datatype Variant = Invalid | Str(s: string) | Other(typeName: string, text: string)

  /** QVariant::toString: an invalid (absent) value converts to "". */
  function ToString(v: Variant): string {
    match v
    case Invalid => ""
    case Str(s) => s
    case Other(_, text) => text
  }

  /** QSettings::Status. */
  datatype Status = NoError | AccessError | FormatError

  /** QSettings::group(): the open group names joined by '/', empty names skipped. */
  function GroupPath(groups: seq<string>): string {
    if groups == [] then ""
    else
      var outer := GroupPath(groups[..|groups| - 1]);
      var g := groups[|groups| - 1];
      if g == "" then outer
      else if outer == "" then g
      else outer + "/" + g
  }

  /** What the open groups put in front of every key. */
  function GroupPrefix(groups: seq<string>): string {
    var path := GroupPath(groups);
    if path == "" then "" else path + "/"
  }

  /** The keys of `store` that lie under `prefix`, with the prefix taken off. */
  function KeysUnder(store: map<string, Variant>, prefix: string): set<string> {
    set k | k in store && prefix <= k :: k[|prefix|..]
  }

  /** Removing `target` removes it and every key nested under it; an empty target
      removes everything. */
  predicate Covers(target: string, k: string) {
    target == "" || k == target || target + "/" <= k
  }

  function Erase(store: map<string, Variant>, target: string): map<string, Variant> {
    map k | k in store && !Covers(target, k) :: store[k]
  }

  /** With no group open every stored key is listed as it is. */
  lemma KeysUnderRoot(store: map<string, Variant>)
    ensures KeysUnder(store, "") == store.Keys
  {
    forall k | k in store
      ensures k in KeysUnder(store, "")
    {
      assert k[|""|..] == k;
    }
  }

  /** One open handle of the backend (a QSettings object). */
  class Backend {
    var store: map<string, Variant>
    var groups: seq<string>
    var status: Status
    const fileName: string

    /** Opens the store whose persisted contents are `persisted`. */
    constructor (persisted: map<string, Variant>, fileName: string)
      ensures store == persisted && groups == [] && status == NoError
      ensures this.fileName == fileName
    {
      store := persisted;
      groups := [];
      status := NoError;
      this.fileName := fileName;
    }

    function Prefix(): string
      reads this
    {
      GroupPrefix(groups)
    }

    /** QSettings::value: the value under the key in the current group, or the default. */
    function Value(key: string, defaultValue: Variant): (r: Variant)
      reads this
      ensures Prefix() + key in store ==> r == store[Prefix() + key]
      ensures Prefix() + key !in store ==> r == defaultValue
    {
      var full := Prefix() + key;
      if full in store then store[full] else defaultValue
    }

    /** QSettings::allKeys: the keys of the current group, relative to it, each once,
        in an order the backend chooses. */
    method AllKeys() returns (keys: seq<string>)
      ensures forall k :: k in keys <==> k in KeysUnder(store, Prefix())
      ensures forall i, j :: 0 <= i < j < |keys| ==> keys[i] != keys[j]
      ensures |keys| == |KeysUnder(store, Prefix())|
    {
      var rest := KeysUnder(store, Prefix());
      keys := [];
      while rest != {}
        invariant forall k :: k in keys ==> k !in rest
        invariant forall k :: k in KeysUnder(store, Prefix()) <==> k in keys || k in rest
        invariant forall i, j :: 0 <= i < j < |keys| ==> keys[i] != keys[j]
        invariant |keys| + |rest| == |KeysUnder(store, Prefix())|
        decreases |rest|
      {
        var k :| k in rest;
        keys := keys + [k];
        rest := rest - {k};
      }
    }

    /** QSettings::beginGroup. */
    method BeginGroup(prefix: string)
      modifies this`groups
      ensures groups == old(groups) + [prefix]
    {
      groups := groups + [prefix];
    }

    /** QSettings::endGroup; without an open group it does nothing. */
    method EndGroup()
      modifies this`groups
      ensures groups == if old(groups) == [] then [] else old(groups)[..|old(groups)| - 1]
    {
      if groups != [] {
        groups := groups[..|groups| - 1];
      }
    }

    /** QSettings::setValue. */
    method SetValue(key: string, value: Variant)
      modifies this`store
      ensures store == old(store)[Prefix() + key := value]
    {
      store := store[Prefix() + key := value];
    }

    /** QSettings::remove: an empty key means the current group itself. */
    method Remove(key: string)
      modifies this`store
      ensures store == Erase(old(store), if key == "" then GroupPath(groups) else Prefix() + key)
    {
      var target := if key == "" then GroupPath(groups) else Prefix() + key;
      store := Erase(store, target);
    }

    /** QSettings::sync followed by the status it leaves; the outcome of writing the
        file is not modelled and is passed in. */
    method Sync(outcome: Status)
      modifies this`status
      ensures status == outcome
    {
      status := outcome;
    }
  }
}
