# Capacity-bounded in-memory key/value store

This project models `InMemoryStore`, the store behind a small HTTP caching
service written in Go. The store is a `map[string]string` with a maximum
entry count fixed when the store is created. It offers three operations,
each run under one mutex:

- `Add(key, value)` refuses with `false` while the live entry count is at or
  above `maxSize`. Otherwise it inserts or overwrites the entry and returns
  `true`. The capacity test comes before any existence test, so a full store
  also refuses to overwrite a key it already holds.
- `Get(key)` is a read-only lookup returning `(value, found)`. For a missing
  key the value is Go's zero string `""`.
- `Delete(key)` removes the key if present and reports whether it was.

The model has three modules:

- `KvSpec` (kv_spec.dfy) is the store as a value (`Store`: entries and
  capacity), with the operations as functions and the capacity invariant
  `Valid`. The bound is `|data| <= maxSize`, read as `0` for a negative
  capacity, since Go's `int` capacity may be negative and every `Add` then
  refuses.
- `KvTrace` (kv_trace.dfy) covers histories of requests. Each operation is one
  whole critical section, so a concurrent run is equivalent to some order of
  whole operations; `Run` applies such an order.
- `KvStore` (kv_store.dfy) is the `InMemoryStore` class. Its `data` map field
  is reassigned in place by `Add` and `Delete`, and `maxSize` is a `const`, so
  no method can change it. Each method is proved to agree with the
  corresponding `KvSpec` function. A client method replays a capacity-two
  scenario: two inserts, a third refused while full, then a delete that
  makes room for it.

## Model

| member | source | states |
|---|---|---|
| KvStore.InMemoryStore.constructor | index.go:16-21 | the new store has an empty map and the given capacity, and satisfies the capacity invariant |
| KvStore.InMemoryStore.Add | index.go:23-32 | returns true exactly when the old entry count is below `maxSize`; then the map is the old map with `key` set to `value`, otherwise unchanged; the capacity invariant is kept; the new state is what `KvSpec.Add` gives |
| KvStore.InMemoryStore.Get | index.go:34-40 | found exactly when `key` is live; the value is the stored one when found and `""` otherwise; nothing is modified |
| KvStore.InMemoryStore.Delete | index.go:42-51 | returns true exactly when `key` was live; the map afterwards is the old map without `key` (unchanged when absent); the capacity invariant is kept |
| KvStore.ScenarioCapacityTwo | index.go:16-51 | with capacity 2: add a, add b succeed, add c is refused, get a finds "1", delete a succeeds, add c then succeeds, get b finds "2", get a finds nothing |
| KvSpec.New | index.go:16-21 | a new store satisfies the capacity invariant, keeps the given capacity and finds no key |
| KvSpec.Get | index.go:38-39 | found exactly when `key` is live; the value is the stored one when found and Go's zero string `""` otherwise |
| KvSpec.Add | index.go:27-31 | succeeds iff the count is below capacity; on success `key` then maps to `value`; on refusal nothing changes; every other key keeps its lookup; the key set grows by `key` only on success; the count grows by at most one and only when below capacity and `key` was new; the capacity invariant is preserved |
| KvSpec.Delete | index.go:46-50 | answers whether `key` was live; afterwards `key` is absent and every other key keeps its lookup; the count drops by one exactly when it answered true; absent key leaves the store unchanged; the capacity invariant is preserved |
| KvSpec.FullStoreRefusesOverwrite | index.go:27-29 | a full store refuses to overwrite a key it already holds and its lookup of that key is unchanged |
| KvSpec.GetAfterAdd | index.go:30-31 | below capacity, `Add(k, v)` succeeds and the next `Get(k)` returns `(v, true)` |
| KvSpec.GetAfterDelete | index.go:46-50 | after `Delete(k)`, `Get(k)` returns `("", false)` |
| KvSpec.DeleteIdempotent | index.go:46-50 | a second `Delete` of the same key returns false and leaves the store unchanged |
| KvSpec.DeleteMakesRoom | index.go:27-31 | after a successful delete, any insert succeeds |
| KvTrace.Apply | index.go:23-51 | one request keeps the capacity, a lookup leaves the store unchanged, and the capacity invariant is preserved |
| KvTrace.Run | index.go:23-51 | a history yields one reply per request and never changes the capacity |
| KvTrace.RunKeepsCapacity | index.go:27-31 | no history of requests takes the entry count beyond the capacity |
| KvTrace.FullStoreRefusesUntilDelete | index.go:27-29 | from a full store, a history with no delete of a live key leaves the store unchanged and every insert in it is refused |
| KvTrace.OtherRequestsKeepKey | index.go:30-31 | a history that neither inserts nor deletes `key` (lookups and requests on other keys allowed) leaves the lookup of `key` unchanged |
| KvTrace.ReadAfterWrite | index.go:30-31 | below capacity, `Add(k, v)` succeeds and every later lookup of `k` returns `(v, true)` as long as no request in between inserts or deletes `k` |
| KvTrace.DistinctAddsFill | index.go:27-31 | inserts of distinct new keys: the i-th succeeds exactly when the count plus i is below capacity; each successful key is then stored with its value, each refused key is absent; the final count is the minimum of the count plus the number of keys and the capacity |

## Left out

- The `sync.Mutex` (index.go:13, 24-25, 35-36, 43-44): each operation runs wholly inside one critical section, so each method is modelled as atomic and sequential, and concurrent runs as the sequences `KvTrace.Run` applies.
- `main` and the three HTTP handlers (index.go:53-112): routing, the 405 method checks, JSON decoding of the `/add` body (400), query-string extraction, the 201/409/404 responses and `ListenAndServe` on :8080 are network plumbing over library code; each handler makes exactly one store call, whose behaviour the store's contracts capture.
- The `fmt.Println` logging (index.go:60, 110): output only.
- Go's 64-bit `int` for `maxSize` is modelled as an unbounded `int`; the entry count of a map can never approach the 64-bit limit, so no wrap-around arises.
- The store's zero value `InMemoryStore{}` (nil map, capacity 0) is not modelled; the source only builds stores through `NewInMemoryStore`.
- The methods `Add` and `Delete` require the capacity invariant, which every store built by the constructor satisfies and every method keeps.
