/** qbs::Settings: the persistent settings store of the build tool. Users name keys
    with dots; the backend stores them with slashes. Writes are flushed and their
    status checked at once; the first store opened on an empty backend imports the
    settings written under the legacy "Nokia" organisation. */
module SettingsStore {
  import opened Keys
  import opened KeyOrder
  import opened KeyList
  import opened KeyValueBackend

  /** The two failures a flush can report. */
  datatype ErrorKind = Inaccessible | Malformed

  /** qbs::Error as thrown by the status check: its kind and the backing file. */
  datatype SettingsError = SettingsError(kind: ErrorKind, file: string)

  /** Returning normally, or the error the source throws. */
  datatype Outcome = Pass | Fail(error: SettingsError)

  /** The text of the error (untranslated). */
  function Message(e: SettingsError): string {
    match e.kind
    case Inaccessible => e.file + " is not accessible."
    case Malformed => "Format error in " + e.file + "."
  }

  /** `part` occurs somewhere in `text`. */
  predicate Mentions(text: string, part: string) {
    part <= text || (text != [] && Mentions(text[1..], part))
  }

  lemma {:induction false} MentionsInside(before: string, part: string, after: string)
    ensures Mentions(before + part + after, part)
  {
    if before != [] {
      MentionsInside(before[1..], part, after);
      assert (before + part + after)[1..] == before[1..] + part + after;
    } else {
      assert before + part + after == part + after;
    }
  }

  /** Every error message names the backing file. */
  lemma MessageNamesFile(e: SettingsError)
    ensures Mentions(Message(e), e.file)
  {
    match e.kind
    case Inaccessible =>
      MentionsInside("", e.file, " is not accessible.");
    case Malformed =>
      MentionsInside("Format error in ", e.file, ".");
  }

  /** What the status check makes of the status the flush left. */
  predicate Reports(r: Outcome, status: Status, file: string) {
    match status
    case NoError => r == Pass
    case AccessError => r == Fail(SettingsError(Inaccessible, file))
    case FormatError => r == Fail(SettingsError(Malformed, file))
  }

  /** The loop of the constructor that copies every legacy key, verbatim, into the
      empty current store; the legacy handle is only read. */
  method ImportLegacy(oldSettings: Backend, current: Backend)
    requires oldSettings != current
    requires oldSettings.groups == [] && current.groups == []
    requires current.store == map[]
    modifies current`store
    ensures current.store == oldSettings.store
  {
    var legacyKeys := oldSettings.AllKeys();
    KeysUnderRoot(oldSettings.store);
    var i := 0;
    while i < |legacyKeys|
      invariant 0 <= i <= |legacyKeys|
      invariant forall k :: k in current.store <==> k in legacyKeys[..i]
      invariant forall k :: k in current.store ==> k in oldSettings.store && current.store[k] == oldSettings.store[k]
    {
      var key := legacyKeys[i];
      assert current.Prefix() + key == key;
      current.SetValue(key, oldSettings.Value(key, Invalid));
      assert legacyKeys[..i + 1] == legacyKeys[..i] + [key];
      i := i + 1;
    }
    assert legacyKeys[..i] == legacyKeys;
    assert current.store.Keys == oldSettings.store.Keys;
  }

  class Settings {
    /** m_settings: the handle this store owns for its whole lifetime. */
    const backend: Backend

    /** Between calls no group of the backend is open. */
    ghost predicate Valid()
      reads this, backend
    {
      backend.groups == []
    }

    /** Opens the store and, only if it holds no key at all, copies every key of the
        legacy store into it verbatim (no key translation). `persisted` and `legacy`
        are what the two backing files hold. */
    constructor (persisted: map<string, Variant>, fileName: string,
                 legacy: map<string, Variant>, legacyFileName: string)
      ensures Valid() && fresh(backend)
      ensures backend.store == if persisted == map[] then legacy else persisted
      ensures backend.fileName == fileName && backend.status == NoError
    {
      var current := new Backend(persisted, fileName);
      var existing := current.AllKeys();
      KeysUnderRoot(persisted);
      assert existing == [] <==> persisted == map[] by {
        if persisted.Keys == {} {
          assert persisted == map[];
        }
      }
      if existing == [] {
        var oldSettings := new Backend(legacy, legacyFileName);
        ImportLegacy(oldSettings, current);
      }
      backend := current;
    }

    /** Settings::value: what is stored under the key's backend form, or the default. */
    function Value(key: string, defaultValue: Variant): (r: Variant)
      requires Valid()
      reads this, backend
      ensures Internal(key) in backend.store ==> r == backend.store[Internal(key)]
      ensures Internal(key) !in backend.store ==> r == defaultValue
    {
      assert backend.Prefix() + Internal(key) == Internal(key);
      backend.Value(Internal(key), defaultValue)
    }

    /** Settings::allKeys: every stored key once, in ascending order of its backend
        form, converted to the dotted form. */
    method AllKeys() returns (keys: seq<string>)
      requires Valid()
      ensures keys == MapExternal(Ordered(backend.store.Keys))
    {
      var raw := backend.AllKeys();
      KeysUnderRoot(backend.store);
      keys := FixupKeys(raw);
      assert Elements(raw) == backend.store.Keys;
    }

    /** Settings::allKeysWithPrefix: the same listing for the keys under `group`,
        relative to the group; the group opened for the query is closed again. */
    method AllKeysWithPrefix(group: string) returns (keys: seq<string>)
      requires Valid()
      modifies backend`groups
      ensures Valid()
      ensures keys == MapExternal(Ordered(KeysUnder(backend.store, GroupPrefix([Internal(group)]))))
    {
      backend.BeginGroup(Internal(group));
      var raw := backend.AllKeys();
      backend.EndGroup();
      keys := FixupKeys(raw);
      assert Elements(raw) == KeysUnder(backend.store, GroupPrefix([Internal(group)]));
    }

    /** Settings::checkStatus: flushes, then turns the backend's status into an outcome. */
    method CheckStatus(syncOutcome: Status) returns (r: Outcome)
      modifies backend`status
      ensures backend.status == syncOutcome
      ensures Reports(r, syncOutcome, backend.fileName)
    {
      backend.Sync(syncOutcome);
      match backend.status
      case NoError =>
        r := Pass;
      case AccessError =>
        r := Fail(SettingsError(Inaccessible, backend.fileName));
      case FormatError =>
        r := Fail(SettingsError(Malformed, backend.fileName));
    }

    /** Settings::setValue: the write is made before the status check, so it stands
        whatever the check reports. */
    method SetValue(key: string, value: Variant, syncOutcome: Status) returns (r: Outcome)
      requires Valid()
      modifies backend`store, backend`status
      ensures Valid()
      ensures backend.store == old(backend.store)[Internal(key) := value]
      ensures backend.status == syncOutcome
      ensures Reports(r, syncOutcome, backend.fileName)
      ensures forall d :: Value(key, d) == value
      ensures forall k, d :: Internal(k) != Internal(key) ==> Value(k, d) == old(Value(k, d))
    {
      assert backend.Prefix() + Internal(key) == Internal(key);
      backend.SetValue(Internal(key), value);
      r := CheckStatus(syncOutcome);
    }

    /** Settings::remove: removes the key and every key nested under it, then checks
        the status; the removal stands whatever the check reports. */
    method Remove(key: string, syncOutcome: Status) returns (r: Outcome)
      requires Valid()
      modifies backend`store, backend`status
      ensures Valid()
      ensures backend.store == Erase(old(backend.store), Internal(key))
      ensures backend.status == syncOutcome
      ensures Reports(r, syncOutcome, backend.fileName)
      ensures forall d :: Value(key, d) == d
      ensures forall k :: k in old(backend.store) && !Covers(Internal(key), k) ==>
                k in backend.store && backend.store[k] == old(backend.store)[k]
      ensures forall k :: k in backend.store ==> k in old(backend.store) && !Covers(Internal(key), k)
    {
      assert backend.Prefix() + Internal(key) == Internal(key);
      backend.Remove(Internal(key));
      r := CheckStatus(syncOutcome);
    }

    /** Settings::defaultProfile: the "profile" value as a string, "" when unset. */
    function DefaultProfile(): (r: string)
      requires Valid()
      reads this, backend
      ensures "profile" !in backend.store ==> r == ""
      ensures "profile" in backend.store ==> r == ToString(backend.store["profile"])
    {
      InternalOfPlainKey("profile");
      ToString(Value("profile", Invalid))
    }
  }
}
