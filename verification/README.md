# gdbm client layer — a Dafny model

This project models the Ruby client layer of ffi-gdbm (`lib/gdbm.rb`). That layer wraps the native
gdbm key/value library for Ruby. It has four parts:

- the `GDBM_FFI` helpers, which turn engine status codes into `GDBMError` and walk a file with
  `gdbm_firstkey`/`gdbm_nextkey`;
- the open-mode resolver of `GDBM#initialize` and `GDBM.open`, with its create/writer/reader
  fallback ladder and the `RUBY_GDBM_RW_BIT` marker;
- the lifecycle of the `GDBM` object: its `@file` handle, `close`, `closed?`/`nil?`, and the
  `file` and `modifiable?` guards;
- the Hash-like dictionary facade (`[]`, `[]=`, `fetch`, `delete`, `delete_if`, `shift`,
  `update`, `replace`, `keys`, `values`, `invert`, `select`, `reject`, `to_hash`, …).

Keys and values are byte strings (`Base.Bytes`).

The native engine is kept abstract (`Engine`). A database is a map from keys to values plus the
order in which a walk visits its keys. A new key joins the end of that order. A false `writable`
flag stands for a handle opened as a reader, on which the engine refuses stores and deletes.

Modules, in dependency order:

| module | file | contents |
|---|---|---|
| `Base` | base.dfy | bytes, `Option`, `Result`, the exceptions the layer raises |
| `Engine` | engine.dfy | the abstract database and the native primitives |
| `Ffi` | ffi.dfy | the `GDBM_FFI` Ruby helpers, including the cursor walks and `clear` |
| `Walk` | walk.dfy | the fold every read-only transform is, and what each fold yields over one walk |
| `Lifecycle` | lifecycle.dfy | the `GDBM` object, its guards, `close` |
| `OpenMode` | openmode.dfy | `initialize`, `GDBM.new`, `GDBM.open` |
| `Lookup` | lookup.dfy | the read-only dictionary methods |
| `Mutate` | mutate.dfy | the mutating dictionary methods |

Ruby exceptions are results: `Result.Err`, or `Reply(obj, out)` when the object may have changed.

Blocks are pure functions:

- `delete_if`'s block answers `Truthy`, `Falsy` or `Escapes`. `Escapes` covers `break`,
  `return` and raise.
- `GDBM.open`'s block maps the object to a `Reply`.

`gdbm_open` is an oracle `Attempt -> Option<Db>`, and `gdbm_errno` is an input.

`GDBM#delete` issues `gdbm_delete` only for a present key: `GDBM_FFI.delete` (lib/gdbm.rb:126-131)
returns early when `exists?` is false (the lookups `gdbm_fetch` and `gdbm_exists` run for every key), so deleting a missing key never raises, even on a reader
handle.

Whether a handle is writable is the engine's business. `OpenMode.HonoursMode` names the engine
this layer expects: a handle is read-only exactly when the low two bits of the open flags are
`GDBM_READER`. Lemmas that tie an opened object's writability to the rung that opened it
assume it; nothing else does.

## Model

| member | source | states |
|---|---|---|
| Engine.PairsComplete | lib/gdbm.rb:141-148 | one full cursor walk visits every stored key exactly once, each with its stored value, and nothing else |
| Ffi.Store | lib/gdbm.rb:101-107 | store succeeds exactly on a writable handle, else GDBMError; afterwards the key reads as the new value and every other key reads as before |
| Ffi.Fetch | lib/gdbm.rb:111-117 | nil exactly when the key is absent, otherwise the stored value |
| Ffi.FirstKey | lib/gdbm.rb:120-123 | nil exactly when the database is empty, otherwise the first key of the walk |
| Ffi.Exists | lib/gdbm.rb:134-138 | true exactly when the key is stored |
| Ffi.Delete | lib/gdbm.rb:126-131 | a missing key is a no-op that never raises; a present key is removed, or GDBMError exactly when the handle is a reader |
| Ffi.EachPair | lib/gdbm.rb:141-148 | the loop yields one pair per entry, each key with its stored value, at its own walk position |
| Ffi.EachKey | lib/gdbm.rb:151-157 | the loop yields every key once, in walk order |
| Ffi.EachValue | lib/gdbm.rb:160-167 | the loop yields one value per entry, and every stored value appears |
| Ffi.Clear | lib/gdbm.rb:170-179 | the nested loops empty the database exactly when it is writable (or already empty); on GDBMError nothing was deleted |
| Walk.AccumulateFront | lib/gdbm.rb:553-558 | folding pairs front-first equals folding them in walk order, which is how `update` consumes its argument |
| Walk.ToHashIsEntries | lib/gdbm.rb:545-551 | the Hash built from one walk equals the database's contents |
| Walk.InvertLastWins | lib/gdbm.rb:415-423 | the inverted Hash's keys are exactly the stored values; each maps to a key holding it, the one walked last |
| Walk.ListsFollowWalk | lib/gdbm.rb:434-442 | the `keys`, `values` and `to_a` folds list one element per entry, in walk order |
| Walk.LengthCountsEntries | lib/gdbm.rb:444-452 | counting the walk's yields gives the number of entries |
| Walk.RejectKeepsRest | lib/gdbm.rb:460-470 | the `reject` fold keeps exactly the entries the block turns down, with their values |
| Walk.SelectMatches | lib/gdbm.rb:484-513 | the `select` fold lists exactly the pairs the block accepts, each key once, in walk order |
| Lifecycle.File | lib/gdbm.rb:594-600 | the handle is returned exactly when `@file` is live; a nil `@file` raises "closed GDBM file" |
| Lifecycle.Writable | lib/gdbm.rb:582-591 | a frozen object is refused before the handle is examined; otherwise the `file` guard decides |
| Lifecycle.Close | lib/gdbm.rb:299-306 | closing a closed object raises; closing a live one succeeds and leaves it closed exactly when it is not frozen |
| Lifecycle.CloseTwiceFails | lib/gdbm.rb:299-306 | a second close always fails and changes nothing: "closed GDBM file" for an unfrozen object, the released handle for a frozen one |
| Lifecycle.ClosedIffFileRaises | lib/gdbm.rb:308-310 | `closed?` is true exactly when the `file` guard raises "closed GDBM file"; a released handle is not closed |
| Lifecycle.IsNil | lib/gdbm.rb:456-458 | `nil?` answers the same as `closed?` |
| Lifecycle.FrozenCloseKeepsHandle | lib/gdbm.rb:299-310 | closing a frozen live object leaves it not closed, with a handle every later use fails on |
| OpenMode.TryIfNull | lib/gdbm.rb:244-245 | an open attempt is made only while no handle is held, and its result is kept |
| OpenMode.ExplicitOpen | lib/gdbm.rb:235-238 | with the marker bit set, exactly one attempt is made, with the bit cleared and the caller's mode |
| OpenMode.AutoOpen | lib/gdbm.rb:240-245 | without the marker bit, one to three attempts are made; all but the last failed, and a handle is held exactly when the last succeeded |
| OpenMode.AutoFollowsLadder | lib/gdbm.rb:240-245 | the fallback path makes exactly the ladder create (only for mode >= 0), then writer, then reader, up to the first success |
| OpenMode.MarkerBitQuirk | lib/gdbm.rb:217-245 | the explicit path strips the marker bit; every fallback attempt passes it through to the engine; only the create rung uses the caller's mode |
| OpenMode.ClassConstants | lib/gdbm.rb:217-223 | each class constant `READER` … `NEWDB` carries the marker bit, and stripping it gives the engine's own mode |
| OpenMode.OpenedWritability | lib/gdbm.rb:229-259 | against an engine that honours the open mode, the object `GDBM.new` opens is writable exactly when the attempt that opened it asked for a writer mode |
| OpenMode.ReaderFallback | lib/gdbm.rb:240-245 | without flags, when the create and writer rungs fail and the reader rung opens, `GDBM.new` returns a read-only object |
| OpenMode.AllFailed | lib/gdbm.rb:248-258 | after total failure, a mode of -1 returns silently; otherwise SystemCallError exactly for errno 3, 9 or 10, and GDBMError for any other |
| OpenMode.Initialize | lib/gdbm.rb:229-259 | nil arguments are normalised; the outcome is a handle from the last attempt exactly when it opened, else the failure classification |
| OpenMode.FailureClassified | lib/gdbm.rb:248-258 | when no attempt can open, the three outcomes (silent, SystemCallError, GDBMError) are told apart by mode and errno alone |
| OpenMode.New | lib/gdbm.rb:229-259 | `GDBM.new` yields a live unfrozen object, an object with nil `@file`, or the raised error |
| OpenMode.Open | lib/gdbm.rb:261-276 | without a block, `GDBM.open` answers nil exactly for the silent failure and otherwise a live object or the error |
| OpenMode.OpenScoped | lib/gdbm.rb:261-270 | with a block, the object never stays open afterwards, and the block's result is returned unless the closing raises |
| Lookup.Get | lib/gdbm.rb:278-280 | `[]` raises on a closed object; otherwise nil exactly for a missing key, else the stored value |
| Lookup.FetchOr | lib/gdbm.rb:373-386 | `fetch` gives the stored value; for a missing key, the default, else the block's value, else IndexError |
| Lookup.HasKey | lib/gdbm.rb:388-390 | `has_key?` is true exactly when the key is stored |
| Lookup.HasKeyAgreesWithGet | lib/gdbm.rb:388-390 | `has_key?` agrees with `[]` being non-nil |
| Lookup.FindValueHit | lib/gdbm.rb:396-403 | the value scan stops early exactly when some entry holds the value |
| Lookup.HasValue | lib/gdbm.rb:396-403 | `has_value?` is true exactly when the value is among the stored values |
| Lookup.KeyOf | lib/gdbm.rb:425-432 | `key` gives nil exactly when no entry holds the value; otherwise the first key in walk order holding it |
| Lookup.Keys | lib/gdbm.rb:434-442 | `keys` lists every stored key exactly once and nothing else |
| Lookup.Values | lib/gdbm.rb:560-568 | `values` lists the value of each key in the order of `keys`, covering every stored value |
| Lookup.ToA | lib/gdbm.rb:537-543 | `to_a` lists every entry once as a `[key, value]` pair with distinct keys |
| Lookup.ToHash | lib/gdbm.rb:545-551 | `to_hash` equals the database's contents |
| Lookup.ToARoundTrip | lib/gdbm.rb:537-551 | building a Hash from `to_a` gives `to_hash` |
| Lookup.Invert | lib/gdbm.rb:415-423 | `invert` maps each stored value back to a key holding it, the last one walked |
| Lookup.Length | lib/gdbm.rb:444-452 | `length` is the number of entries |
| Lookup.IsEmpty | lib/gdbm.rb:364-367 | `empty?` is true exactly when there are no entries |
| Lookup.EmptyIffNoLength | lib/gdbm.rb:364-367 | `empty?` agrees with `length == 0` |
| Lookup.Reject | lib/gdbm.rb:460-470 | `reject` returns exactly the entries the block turns down |
| Lookup.Select | lib/gdbm.rb:484-513 | `select` with positional arguments raises ArgumentError before the file is consulted; otherwise it lists exactly the accepted pairs, each key once, in walk order |
| Lookup.SelectRejectPartition | lib/gdbm.rb:460-513 | every entry is selected or rejected, never both |
| Lookup.ValuesAt | lib/gdbm.rb:570-578 | `values_at` answers `[]` of each argument in order, and `[]` with no arguments even on a closed object |
| Lookup.EachPair | lib/gdbm.rb:352-355 | `each_pair` yields exactly the pairs of `to_a` |
| Lookup.EachKey | lib/gdbm.rb:347-350 | `each_key` yields exactly the `keys` |
| Lookup.EachValue | lib/gdbm.rb:359-362 | `each_value` yields exactly the `values` |
| Mutate.Put | lib/gdbm.rb:282-285 | `[]=` raises on a frozen object, then on a closed one; on a live one it succeeds exactly when writable and binds the key, and otherwise raises GDBMError |
| Mutate.FreezeRefusesPut | lib/gdbm.rb:282-285 | after `freeze`, `[]=` raises the frozen error and every key reads as before |
| Mutate.ReaderFallbackRefusesPut | lib/gdbm.rb:240-245 | an object opened on the reader rung answers `[]` but refuses `[]=` with GDBMError and stays as it was |
| Mutate.PutThenGet | lib/gdbm.rb:278-285 | after `[]=`, `[]` reads the new value, `has_key?` is true, and other keys read as before |
| Mutate.Delete | lib/gdbm.rb:312-323 | `delete` returns the old value, or the block's answer for a missing key, which never raises; the key is gone afterwards; a present key on a reader handle raises GDBMError |
| Mutate.DeleteRemoves | lib/gdbm.rb:312-323 | after `delete`, `has_key?` is false for the key |
| Mutate.DeleteShrinks | lib/gdbm.rb:312-323 | after `delete`, `length` fell by one exactly when the key was present |
| Mutate.CollectPicksDoomed | lib/gdbm.rb:325-333 | the collecting walk picks exactly the keys judged truthy before the block escaped |
| Mutate.DeleteAll | lib/gdbm.rb:334-340 | the deletion phase removes exactly the picked keys, or raises GDBMError on a reader handle holding one |
| Mutate.DeleteIf | lib/gdbm.rb:325-343 | `delete_if` removes exactly the picked entries whenever it returns or passes on the escape, even when the block escapes; a deletion's GDBMError takes the escape's place |
| Mutate.DeleteIfKeeps | lib/gdbm.rb:325-343 | on a writable handle, a block that never escapes lets `delete_if` succeed, keeping exactly the entries not picked |
| Mutate.DeleteIfMatchesReject | lib/gdbm.rb:325-343 | for a block that never escapes and agrees with a predicate, `delete_if` succeeds and what it keeps is what `reject` returns |
| Mutate.Shift | lib/gdbm.rb:515-525 | `shift` gives nil on an empty file; otherwise it removes and returns the first entry of the walk, or raises GDBMError on a reader handle |
| Mutate.ShiftShrinks | lib/gdbm.rb:515-525 | shifting a non-empty writable file shortens it by exactly one |
| Mutate.Reorganize | lib/gdbm.rb:472-476 | `reorganize` is guarded and changes no entry |
| Mutate.Sync | lib/gdbm.rb:527-531 | `sync` is guarded and changes no entry |
| Mutate.Update | lib/gdbm.rb:553-558 | `update` as written: merges the pairs into the contents, later pairs winning, with no frozen check; on a reader handle it raises GDBMError |
| Mutate.UpdateWritesFrozen | lib/gdbm.rb:553-558 | a frozen object is changed by `update` |
| Mutate.UpdateChecked | lib/gdbm.rb:553-558 | `update` with the frozen guard refuses frozen objects and otherwise merges as `update` does |
| Mutate.MergeSemantics | lib/gdbm.rb:553-558 | the merge keeps keys not mentioned, and binds each mentioned key to its last value in the argument |
| Mutate.Clear | lib/gdbm.rb:293-297 | `clear` is guarded, then empties the file exactly when it is writable or already empty, and otherwise raises GDBMError |
| Mutate.Replace | lib/gdbm.rb:478-482 | `replace` is guarded, then succeeds exactly when the handle is writable or both the file and the argument are empty, raising GDBMError otherwise; with a `to_a` snapshot taken beforehand it leaves exactly the Hash of its argument; replacing with the object's own earlier walk keeps the contents |
| Mutate.ReplaceWithSelf | lib/gdbm.rb:478-482 | `replace(self)` walks the file only after `clear` has emptied it, so when it succeeds the file is left empty |

## Left out

- FFI marshalling (`Datum`, native memory, `attach_function`): keys and values are byte sequences
  handed to an abstract engine.
- Mutate.PutThenGet, Lookup.HasValue, Lookup.KeyOf: the model covers binary (ASCII-8BIT) strings,
  for which `length == bytesize`. `Datum.new` sets the size to the string's `length`, a count of
  characters (lib/gdbm.rb:37), so a multibyte string is stored cut down to that many bytes, and
  `[]` after `[]=` does not give it back. Values come back as binary strings (lib/gdbm.rb:48), so
  the `==` of `has_value?` and `key` does not match a non-ASCII string in another encoding.
- The engine's disk format, hashing and bucket order: the walk order is abstract, and a new key
  is appended to it.
- Engine failures other than a reader handle refusing writes (I/O errors, a full disk, locking)
  are not modelled, and neither is the fatal-error callback `FATAL`.
- The text of `GDBMError` (`last_error`): only the kind of exception is kept.
- `cachesize=`, `fastmode=` and `syncmode=` set engine options whose effect is outside the model.
  `fastmode=` passes the negation of its argument as the sync mode.
- Mutate.Reorganize and Mutate.Sync: the engine's compaction and flush are not modelled, so both
  are identities behind their guards.
- Lifecycle.CloseTwiceFails / Lifecycle.File / Lifecycle.Close / Lifecycle.FrozenCloseKeepsHandle /
  OpenMode.OpenScoped: after `close` on a frozen object, `@file` still holds the freed native
  handle, and a later `close`, `update`, `[]`, `fetch` or any other reading method passes it to the
  engine (the guarded mutators raise the frozen error first). Ruby raises nothing there and the
  engine's behaviour is undefined; the model's `Released` handle and `UseAfterClose` error stand
  in for that undefined behaviour.
- Mutate.Replace / Mutate.Update: `other` is the list of pairs it yields, taken before the call.
  An `other` that walks this same file is modelled only as `replace(self)`
  (Mutate.ReplaceWithSelf); other Hash-like objects are not.
- OpenMode.OpenedWritability, OpenMode.ReaderFallback, Mutate.ReaderFallbackRefusesPut: they
  assume an engine that honours the open mode (`OpenMode.HonoursMode`); the Ruby layer itself
  never checks it.
- The `RUBY_VERSION` branches: only the behaviour of current Ruby is modelled. The `warn` of
  `index`, and `select` with arguments but no block, are left out.
- Argument defaults (`mode = 0666`, `flags = nil`) are chosen by the caller; flags are a 32-bit
  word.
- Blocks are pure. A block that mutates the database during a walk is not modelled.
- Values other than strings (a non-string default for `fetch`, a block result of another type)
  are not modelled; a `fetch` default is a string or absent.
- Lookup.EachPair, Lookup.EachKey, Lookup.EachValue: the walk's yields are returned instead of
  `self`, since the block is not modelled.
- The top-level `gdbm.rb` is a skeleton of the same class with empty method bodies; it holds no
  behaviour to model.

## Findings

| source | as written | input that shows it | evidently intended | confidence | as-written member | corrected member |
|---|---|---|---|---|---|---|
| lib/gdbm.rb:553-558 | `update` stores each pair without calling `modifiable?`, so a frozen object is written to | a frozen object open for writing, `update({"1" => "2"})`: the store succeeds and the contents change | `update` refuses a frozen object with the same error as every other mutator, as `replace` already does through `clear` | not executed | Mutate.UpdateWritesFrozen | Mutate.UpdateChecked |
