/**
 The in-memory store as a value: its live entries and the capacity fixed when
 it was created, with the three store operations as functions from one such
 value to the next. The class in kv_store.dfy is proved to follow these
 functions step by step.
 */
module KvSpec {

  /** The live entries and the maximum entry count given at construction. */
  datatype Store = Store(data: map<string, string>, maxSize: int)

  /** The state an operation leaves behind, and what it answered. */
  datatype Step<R> = Step(next: Store, reply: R)

  /** The most entries a store of capacity `maxSize` can ever hold: a negative
      capacity admits none, since every insert is then refused. */
  function Bound(maxSize: int): nat
  {
    if maxSize < 0 then 0 else maxSize
  }

  /** The capacity invariant: the live entry count never exceeds the capacity. */
  ghost predicate Valid(s: Store)
  {
    |s.data| <= Bound(s.maxSize)
  }

  /** A fresh store: no entries, and the capacity it was asked for. */
  function New(maxSize: int): (s: Store)
    ensures Valid(s)
    ensures s.maxSize == maxSize
    ensures forall key :: Get(s, key) == ("", false)
  {
    Store(map[], maxSize)
  }

  /** Lookup in the comma-ok form: the stored value and `true` for a live key,
      the zero string and `false` otherwise. */
  function Get(s: Store, key: string): (r: (string, bool))
    ensures r.1 <==> key in s.data
    ensures r.1 ==> r.0 == s.data[key]
    ensures !r.1 ==> r.0 == ""
  {
    if key in s.data then (s.data[key], true) else ("", false)
  }

  /** Insert or overwrite `key`, unless the store already holds at least
      `maxSize` entries; the capacity test comes first, so a full store also
      refuses to overwrite a key it holds. */
  function Add(s: Store, key: string, value: string): (r: Step<bool>)
    ensures r.reply <==> |s.data| < s.maxSize
    ensures r.next.maxSize == s.maxSize
    ensures r.reply ==> Get(r.next, key) == (value, true)
    ensures !r.reply ==> r.next == s
    ensures forall k :: k != key ==> Get(r.next, k) == Get(s, k)
    ensures r.next.data.Keys == if r.reply then s.data.Keys + {key} else s.data.Keys
    ensures |s.data| <= |r.next.data| <= |s.data| + 1
    ensures |r.next.data| > |s.data| ==> |s.data| < s.maxSize && key !in s.data
    ensures Valid(s) ==> Valid(r.next)
  {
    if |s.data| >= s.maxSize then Step(s, false)
    else Step(Store(s.data[key := value], s.maxSize), true)
  }

  /** Remove `key` if it is live, answering whether it was. */
  function Delete(s: Store, key: string): (r: Step<bool>)
    ensures r.reply <==> key in s.data
    ensures r.next.maxSize == s.maxSize
    ensures Get(r.next, key) == ("", false)
    ensures !r.reply ==> r.next == s
    ensures forall k :: k != key ==> Get(r.next, k) == Get(s, k)
    ensures r.next.data.Keys == s.data.Keys - {key}
    ensures |r.next.data| == if r.reply then |s.data| - 1 else |s.data|
    ensures Valid(s) ==> Valid(r.next)
  {
    if key in s.data then Step(Store(s.data - {key}, s.maxSize), true)
    else Step(s, false)
  }

  /** A full store refuses every insert, including the overwrite of a key it
      already holds, and stays as it was. */
  lemma FullStoreRefusesOverwrite(s: Store, key: string, value: string)
    requires |s.data| >= s.maxSize
    requires key in s.data
    ensures Add(s, key, value) == Step(s, false)
    ensures Get(Add(s, key, value).next, key) == Get(s, key)
  {
  }

  /** A successful insert is seen by the next lookup of that key. */
  lemma GetAfterAdd(s: Store, key: string, value: string)
    requires |s.data| < s.maxSize
    ensures Add(s, key, value).reply
    ensures Get(Add(s, key, value).next, key) == (value, true)
  {
  }

  /** After a delete the key is gone, whether it was there or not. */
  lemma GetAfterDelete(s: Store, key: string)
    ensures Get(Delete(s, key).next, key) == ("", false)
  {
  }

  /** Deleting twice is deleting once: the second delete finds nothing and
      changes nothing. */
  lemma DeleteIdempotent(s: Store, key: string)
    ensures Delete(Delete(s, key).next, key) == Step(Delete(s, key).next, false)
  {
  }

  /** A successful delete makes room for another insert, of any key. */
  lemma DeleteMakesRoom(s: Store, key: string, other: string, value: string)
    requires Valid(s)
    requires key in s.data
    ensures Add(Delete(s, key).next, other, value).reply
  {
  }
}
