# qbs settings store, modelled in Dafny

This project models `qbs::Settings`, the persistent settings store of the Qt Build
Suite (src/lib/tools/settings.cpp). The store wraps one `QSettings` handle. Users
name keys with dots (`profiles.qt.baseProfile`) and the backend stores them with
slashes (`profiles/qt/baseProfile`). Writes and removals are flushed at once and
the backend's status is turned into an error carrying the backing file's name.
When the store is opened on an empty backend, it first imports every key of the
legacy "Nokia" store verbatim.

Files:

- `keys.dfy` (module `Keys`): `internalRepresentation` and `externalRepresentation`
  as pure functions, with their character-level behaviour and both round trips.
- `key_order.dfy` (module `KeyOrder`): the order `QStringList::sort` uses
  (lexicographic by character, a proper prefix first) and `Ordered(s)`, the
  reference listing of a key set: each key once, strictly ascending. Two strictly
  ascending lists that hold the same keys are equal (`AscendingUnique`).
- `key_list.dfy` (module `KeyList`): `fixupKeys`. The sort is a function proved to be
  sorted and a permutation. `std::unique` is an in-place array method. Its return
  value is discarded, as in the source. `removeDuplicates` is a function. The
  conversion loop rewrites an array in place. `FixupKeys` is proved to return
  `MapExternal(Ordered(Elements(keys)))`: the ordered listing of the set of input keys, converted.
- `backend.dfy` (module `KeyValueBackend`): the assumed behaviour of `QSettings`
  as a class `Backend`. It holds a map of keys to values, a stack of open groups,
  the status, and the file name.
- `settings.dfy` (module `SettingsStore`): the class `Settings`, its constructor with
  the migration, the status check, and the error type.

Assumptions about the backend. None of these is in the qbs sources; they are
documented `QSettings` behaviour and the model states each one explicitly:

- `beginGroup(g)` pushes `g` and `endGroup()` pops it. `endGroup()` with no open
  group does nothing. Every key is prefixed with the open groups joined by `/`.
- Inside a group, `allKeys()` returns the keys under the group's prefix with that
  prefix removed. It lists each key once, in an order the backend chooses.
- `remove(k)` deletes `k` and every key under `k/`. An empty key means the current
  group, and at the root that means every key.
- `sync()` leaves one of three statuses: NoError, AccessError or FormatError. The
  model does not decide which one: each mutating operation takes the outcome as
  the parameter `syncOutcome`.
- A value (`QVariant`) is opaque except for `toString`. An absent value converts to "".

Behaviours of the code a reader may not expect:

- `allKeysWithPrefix` returns the keys relative to the group, not the full keys.
  This is because it calls `allKeys()` while the group is open
  (settings.cpp:76-78).
- The format-error message ends in a full stop: "Format error in <file>." (settings.cpp:130).
- The copies made during migration are not followed by a status check
  (settings.cpp:53). Only `setValue` and `remove` call `checkStatus`.
- Converting keys to the dotted form is guaranteed to keep their order when no
  backend key contains a `.` (`ExternalListingAscending`); a `.` can break it:
  the backend keys `a.b` and `a/b` are both listed as `a.b`
  (`DottedBackendKeyIsListedTwice`). A backend key with a `.` in it can come
  from the verbatim migration or from an edited settings file. Sorting and
  removing duplicates happen before the conversion, so they do not catch this
  case.

## Model

| member | source | states |
|---|---|---|
| Keys.Internal | src/lib/tools/settings.cpp:100-104 | the internal key has the same length as the external key and contains no `.` |
| Keys.External | src/lib/tools/settings.cpp:106-110 | the external key has the same length as the internal key and contains no `/` |
| Keys.InternalPointwise | src/lib/tools/settings.cpp:100-104 | position by position, `.` becomes `/` and every other character is kept |
| Keys.ExternalPointwise | src/lib/tools/settings.cpp:106-110 | position by position, `/` becomes `.` and every other character is kept |
| Keys.ExternalOfInternal | src/lib/tools/settings.cpp:100-110 | a dotted key without `/` comes back unchanged from the backend form |
| Keys.InternalOfExternal | src/lib/tools/settings.cpp:100-110 | a slash key without `.` comes back unchanged from the dotted form |
| Keys.InternalOfPlainKey | src/lib/tools/settings.cpp:95-104 | a key without `.`, such as `profile`, is stored under itself |
| KeyOrder.Ordered | src/lib/tools/settings.cpp:112-119 | the reference listing of a key set is strictly ascending and holds exactly the set's keys |
| KeyOrder.AscendingUnique | src/lib/tools/settings.cpp:114-116 | two strictly ascending lists with the same keys are the same list, so the sorted and deduplicated result does not depend on the backend's order |
| KeyList.SortAscending | src/lib/tools/settings.cpp:114 | `keys.sort()` leaves the list in ascending order |
| KeyList.SortPermutes | src/lib/tools/settings.cpp:114 | `keys.sort()` keeps every key as often as before |
| KeyList.StdUnique | src/lib/tools/settings.cpp:115 | on a sorted array, the prefix up to the returned end is strictly ascending and holds exactly the input's keys; the positions after it are untouched |
| KeyList.RemoveDuplicates | src/lib/tools/settings.cpp:116 | the result has no duplicates, holds exactly the input's keys, and lists them in the order of their first occurrence in the input |
| KeyList.RemoveDuplicatesDropsRepeats | src/lib/tools/settings.cpp:115-116 | a duplicate-free prefix followed by repeats of its keys reduces to that prefix |
| KeyList.UniqueThenRemoveDuplicates | src/lib/tools/settings.cpp:114-116 | sort, then `std::unique` with its end discarded, then `removeDuplicates` gives the ordered listing of the original keys |
| KeyList.ConvertToExternal | src/lib/tools/settings.cpp:117-118 | the loop replaces each element, in place, with its external form |
| KeyList.FixupKeys | src/lib/tools/settings.cpp:112-119 | the result is the strictly ascending listing of the distinct input keys, each converted to the external form |
| KeyList.ExternalListingAscending | src/lib/tools/settings.cpp:112-119 | if no backend key contains `.`, the converted listing is still strictly ascending |
| KeyList.ListingCoversKeys | src/lib/tools/settings.cpp:67-72 | the listing has one entry per backend key and contains the external form of each |
| KeyList.DottedBackendKeyIsListedTwice | src/lib/tools/settings.cpp:112-119 | backend keys `a.b` and `a/b` are both listed as `a.b` |
| SettingsStore.MessageNamesFile | src/lib/tools/settings.cpp:127-130 | both error messages name the backing file |
| SettingsStore.ImportLegacy | src/lib/tools/settings.cpp:50-53 | copying every legacy key verbatim into the empty current store makes it equal to the legacy store; only the current store changes |
| SettingsStore.Settings.constructor | src/lib/tools/settings.cpp:42-55 | afterwards the store is the legacy store if it was empty and is unchanged otherwise; no group is open and the status is NoError |
| SettingsStore.Settings.Value | src/lib/tools/settings.cpp:62-65 | returns the value stored under the key's internal form, or the default when that key is absent; it changes nothing |
| SettingsStore.Settings.AllKeys | src/lib/tools/settings.cpp:67-72 | returns the strictly ascending listing of all backend keys, converted to the external form; it changes nothing |
| SettingsStore.Settings.AllKeysWithPrefix | src/lib/tools/settings.cpp:74-81 | returns the same listing for the keys under the group, relative to it, and closes the group again; the stored keys are not changed |
| SettingsStore.Settings.CheckStatus | src/lib/tools/settings.cpp:121-132 | NoError passes; AccessError and FormatError fail with that kind of error and the backing file name |
| SettingsStore.Settings.SetValue | src/lib/tools/settings.cpp:83-87 | the value is stored under the internal key before the status check, whatever the check reports; reading the key gives the value; all other keys are unchanged |
| SettingsStore.Settings.Remove | src/lib/tools/settings.cpp:89-93 | the key and every key nested under it are removed before the status check; reading the key gives the default; every other key is unchanged |
| SettingsStore.Settings.DefaultProfile | src/lib/tools/settings.cpp:95-98 | returns the `profile` value converted to a string, or "" when that key is absent |

## Left out

- tests/auto/blackbox/tst_clangdb.cpp: it starts processes, reads files and JSON, and runs `clang-check`. None of that is logic the store has.
- Persistence: the on-disk format, the actual write in `sync()`, and how `fileName()` is resolved. The stored contents and the file name are constructor parameters, and the flush outcome is a parameter.
- `setFallbacksEnabled(false)`: there are no fallback scopes in the model, so disabling them changes nothing.
- Destruction (`~Settings` deleting the handle): Dafny objects are not freed explicitly.
- Exceptions: a thrown `qbs::Error` is a returned `Fail` outcome instead.
- Message localisation (`Tr::tr`): `Message` gives the untranslated text.
- `QVariant` conversions other than `toString`.
- `QSettings` key normalisation (collapsing repeated `/` and stripping leading or trailing `/`): backend keys are used verbatim. Well-formed keys, whose segments are non-empty, are not affected by it. The empty key is also stored and read as an ordinary key by `SetValue` and `Value`, whereas `QSettings` rejects or ignores it depending on the Qt version.
- Order of keys: `QString` compares UTF-16 code units, and the model compares characters (Unicode scalar values). The two orders agree except between characters above U+FFFF and characters in U+E000 to U+FFFF.
- `std::unique` is modelled with copy assignment, so the positions after the end it returns keep their old contents. With move assignment they may hold other keys of the list instead, and `removeDuplicates` drops those too. The standard only requires those positions to be valid, so a library that left, for example, empty strings there could add an empty key to the result. That case is not modelled.
- Thread safety and file locking: the class does no synchronisation of its own.
