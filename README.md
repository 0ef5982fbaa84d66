# Generic key/value cache, modelled in Dafny

The Go package `cache` provides `Cache[K, V]`. It is a struct holding a map `m` from keys to
values and an entry counter `l`, guarded by a reader/writer lock. `New` creates an empty cache.
Three private helpers do the work: `set` assigns and increments `l`, `get` looks up, and `del`
removes a present key and decrements `l`. The public wrappers `Set`, `Get`, `Delete` and `Pop`
each hold the lock around one or two helper calls. `Keys` and `Values` allocate a slice of length
`l` and fill it while iterating over the map.

The model has two modules:

- `Cache` (cache.dfy): the class `Cache.Cache`. It has the fields `m: map<K, V>` and `l: int`,
  one method per Go function (helpers included), and the object invariant `Valid()`, which says
  `l >= |m|`. Every method that changes state gives its whole new state. It also ties that state
  to one transition, `CacheSpec.Apply`. `Keys` and `Values` keep the source's loops: they fill a
  freshly allocated array of length `l` while taking keys out of the map in an unspecified order,
  and they return the array's contents as a value, so the snapshot is independent of the cache.
  The methods `ScenarioSetGetPop`, `ScenarioSnapshotLengths` and `ScenarioOverwrite` replay short
  call sequences against the contracts.
- `CacheSpec` (cache_spec.dfy): the same state as a value (`State`), one transition per public
  call (`Apply`), and histories of calls (`Run`, `Overwrites`). Here the lemmas that relate
  several calls are proved: last write wins, a key stays present until a `Set`, `Delete` or `Pop` on it,
  `Pop` leaves the state of `Get` then `Delete`, and how the counter
  moves over any history.

**The counter is not the number of entries.** A cache's count is usually expected to go up
only for a new key and to always equal the number of keys. This code increments it on every
`set` (cache.go:34), overwrite included. The model follows the code. As a result `l - |m|` equals the number of
overwriting `Set`s so far (`CacheSpec.CountFromNew`), `l >= |m|` always holds, and `l == |m|`
holds only for histories without overwrites. After `Set(k, v1); Set(k, v2)`, `Keys()` returns
two slots: `k` and the zero key (`CacheSpec.OverwriteDoubleCounts`, `Cache.ScenarioOverwrite`).

## Model

| member | source | states |
|---|---|---|
| CacheSpec.Empty | cache.go:26-30 | `New`'s state has no keys and a zero counter, so the counter starts equal to the number of keys |
| CacheSpec.Lookup | cache.go:37-40 | `get` reports `true` iff the key is present, with its value, and the zero value otherwise |
| CacheSpec.Apply | cache.go:32-79 | one public call: `Set` makes the key map to the value and raises `l` by one; `Get` changes nothing; `Delete` and `Pop` leave the key absent, lower `l` by one only on a hit and change nothing on a miss; no call touches another key |
| CacheSpec.Without | cache.go:45 | removing `k` leaves exactly the other keys with their values; the size drops by one iff `k` was present, and the map is unchanged otherwise |
| CacheSpec.ApplyGap | cache.go:32-50 | one call raises `l - \|m\|` by one if it is a `Set` of a present key, and otherwise leaves it unchanged |
| CacheSpec.RunGap | cache.go:32-79 | over any history of calls, `l - \|m\|` grows by exactly the number of overwriting `Set`s |
| CacheSpec.CountFromNew | cache.go:26-79 | from `New`, `l` equals the number of live keys plus the number of overwriting `Set`s |
| CacheSpec.CountCoversKeys | cache.go:26-79 | from `New`, every history keeps `l >= \|m\|` |
| CacheSpec.CountExactWithoutOverwrites | cache.go:32-35 | a history with no overwriting `Set` ends with `l == \|m\|` |
| CacheSpec.OverwriteDoubleCounts | cache.go:32-35 | `Set(k, v1); Set(k, v2)` from `New` leaves the single entry `k -> v2` with `l == 2` |
| CacheSpec.GetAfterSet | cache.go:52-64 | right after `Set(k, v)`, `Get(k)` reports `(v, true)` |
| CacheSpec.LastWriteWins | cache.go:32-35 | `Set(k, v1); Set(k, v2)` leaves the same map as `Set(k, v2)` alone, and the counter two higher |
| CacheSpec.GetChangesNothing | cache.go:59-64 | inserting a `Get` anywhere in a history does not change the final state |
| CacheSpec.PopRemovesKey | cache.go:73-79 | `Pop(k)` leaves the state that `Get(k)` followed by `Delete(k)` leaves, and afterwards `Get(k)` reports `(zero, false)` |
| CacheSpec.DeleteIdempotent | cache.go:66-71 | a second `Delete(k)` finds `k` absent and changes nothing |
| CacheSpec.OtherKeysUntouched | cache.go:32-50 | a call on key `k` leaves the lookup of every other key as it was |
| CacheSpec.PresenceUntilTouched | cache.go:32-79 | once `k` maps to `v`, `Get(k)` reports `(v, true)` after any history with no `Set`, `Delete` or `Pop` of `k` (reads of `k` included) |
| Cache.Cache.constructor | cache.go:26-30 | `New` yields an empty map, a zero counter and the invariant |
| Cache.Cache.Insert | cache.go:32-35 | `set` stores `key -> value` over any old entry and increments `l` unconditionally |
| Cache.Cache.Lookup | cache.go:37-40 | `get` reports `true` iff the key is present, with its value, and the zero value otherwise |
| Cache.Cache.Remove | cache.go:42-50 | `del` reports whether the key was present; if so it removes only that key and decrements `l`, and otherwise nothing changes |
| Cache.Cache.Set | cache.go:52-56 | afterwards `key` maps to `value`, every other key is unchanged, `l` is one higher, and `l >= \|m\|` still holds |
| Cache.Cache.Get | cache.go:59-64 | reports `(m[key], true)` for a present key and `(zero, false)` otherwise, and changes nothing |
| Cache.Cache.Delete | cache.go:66-71 | reports whether `key` was present; afterwards `key` is absent and other keys keep their values; `l` drops by one on a hit and is unchanged on a miss |
| Cache.Cache.Pop | cache.go:73-79 | reports what `Get(key)` reported just before; afterwards `key` is absent and the state is as after `Delete(key)` |
| Cache.Cache.Keys | cache.go:81-91 | returns `l` slots; the first `\|m\|` list every key exactly once, the rest hold the zero key, and the loop index stays within `l` |
| Cache.Cache.Values | cache.go:93-103 | returns `l` slots; the first `\|m\|` hold `m[k]` for each key `k` in some enumeration of the keys, the rest hold the zero value, and the map is not modified |

## Left out

- The `sync.RWMutex` and everything it guarantees: linearizability, readers that do not block each other, and release on every exit path. Each public call is modelled as one atomic sequential step.
- `Keys` and `Values` read `l` before taking the lock (cache.go:82, 94). That is a data race, and a sequential model cannot express it.
- Go's range over a map visits keys in a random order. The model takes the keys in an unspecified order (`:|`), so it proves nothing about which order is used.
- Zero values: Dafny cannot name a generic zero value. The constructor therefore takes the zero values of `K` and `V`, where Go's `New` takes none.
- The counter `l` is a Go `int`, 32 or 64 bits depending on the platform. It is unbounded here. Wrap-around needs at least 2^31 more `Set`s than successful removals. That is not far-fetched: the Firestore adapter calls `Set` again for every field of the document on every snapshot (firestore/firestore.go:66-68), so after the first snapshot almost every `Set` is an overwrite and `l` grows by the field count per update.
- Cache.Cache.Set: does not keep `l` equal to the number of keys (count only new keys), because the code counts every `Set`; see "The counter is not the number of entries" above.
- A cache declared as a zero `Cache[K, V]` value instead of built by `New` has a nil map: its `set` panics (cache.go:33), while `Get`, `Delete`, `Pop` and `Keys` report absence. Only the construction path through `New` is modelled.
- Keys are modelled with a lawful equality (`K(==)`). A Go float key equal to NaN is never found, overwritten or deleted. An interface key whose dynamic type is not comparable panics in `set`/`get` (cache.go:33, 38). Neither is modelled.
- The commented-out `Update`, `Items`, `Next` and `Item` (cache.go:105-147) and the unused error values `ErrKeyNotFound` and `ErrEndOfIterator` are left out, because they are dead code.
- The `Cacheable` interface (cache.go:19-24) is left out: nothing uses it, and its `Delete` signature does not match `Cache.Delete`.
- The Firestore adapter (firestore/firestore.go) and its test are left out. They are network I/O, a goroutine and channels, and their `Get`/`Set` only delegate to the cache.
