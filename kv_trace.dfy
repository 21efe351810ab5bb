/**
 Histories of store operations. Every operation of the store runs entirely
 inside one critical section, so any concurrent run is equivalent to some
 sequence of whole operations applied one after the other; `Run` applies such
 a sequence, and the lemmas here are the properties of whole histories.
 */
module KvTrace {
  import KvSpec

  /** One request to the store. */
  datatype Op =
    | AddReq(key: string, value: string)
    | GetReq(key: string)
    | DeleteReq(key: string)

  /** What the store answered to one request. */
  datatype Reply =
    | AddReply(ok: bool)
    | GetReply(value: string, found: bool)
    | DeleteReply(found: bool)

  /** Apply one request: a lookup leaves the store as it is. */
  function Apply(s: KvSpec.Store, op: Op): (r: (KvSpec.Store, Reply))
    ensures r.0.maxSize == s.maxSize
    ensures op.GetReq? ==> r.0 == s
    ensures KvSpec.Valid(s) ==> KvSpec.Valid(r.0)
  {
    match op
    case AddReq(key, value) =>
      var step := KvSpec.Add(s, key, value);
      (step.next, AddReply(step.reply))
    case GetReq(key) =>
      var (value, found) := KvSpec.Get(s, key);
      (s, GetReply(value, found))
    case DeleteReq(key) =>
      var step := KvSpec.Delete(s, key);
      (step.next, DeleteReply(step.reply))
  }

  /** Apply a sequence of requests in order, collecting one reply per request. */
  function Run(s: KvSpec.Store, ops: seq<Op>): (r: (KvSpec.Store, seq<Reply>))
    ensures |r.1| == |ops|
    ensures r.0.maxSize == s.maxSize
    decreases |ops|
  {
    if ops == [] then (s, [])
    else
      var (t, reply) := Apply(s, ops[0]);
      var (u, replies) := Run(t, ops[1..]);
      (u, [reply] + replies)
  }

  /** No history of requests ever takes the store beyond its capacity. */
  lemma {:induction false} RunKeepsCapacity(s: KvSpec.Store, ops: seq<Op>)
    requires KvSpec.Valid(s)
    ensures KvSpec.Valid(Run(s, ops).0)
    decreases |ops|
  {
    if ops != [] {
      RunKeepsCapacity(Apply(s, ops[0]).0, ops[1..]);
    }
  }

  /** Once the store is full, it stays exactly as it is and refuses every
      insert, of a new key or an existing one, until a delete of a live key
      makes room; deletes of absent keys change nothing. */
  lemma {:induction false} FullStoreRefusesUntilDelete(s: KvSpec.Store, ops: seq<Op>)
    requires |s.data| >= s.maxSize
    requires forall i :: 0 <= i < |ops| && ops[i].DeleteReq? ==> ops[i].key !in s.data
    ensures Run(s, ops).0 == s
    ensures forall i :: 0 <= i < |ops| && ops[i].AddReq? ==> Run(s, ops).1[i] == AddReply(false)
    decreases |ops|
  {
    if ops != [] {
      FullStoreRefusesUntilDelete(s, ops[1..]);
      var replies := Run(s, ops).1;
      assert replies == [Apply(s, ops[0]).1] + Run(s, ops[1..]).1;
      forall i | 0 <= i < |ops| && ops[i].AddReq?
        ensures replies[i] == AddReply(false)
      {
        if i > 0 {
          assert ops[1..][i - 1] == ops[i];
        }
      }
    }
  }

  /** True when every request in `ops` is an insert. */
  ghost predicate AllAdds(ops: seq<Op>)
  {
    forall i :: 0 <= i < |ops| ==> ops[i].AddReq?
  }

  /** True when the requests in `ops` are inserts of pairwise distinct keys,
      none of them already live in `s`. */
  ghost predicate FreshDistinctAdds(s: KvSpec.Store, ops: seq<Op>)
  {
    && AllAdds(ops)
    && (forall i :: 0 <= i < |ops| ==> ops[i].key !in s.data)
    && (forall i, j :: 0 <= i < j < |ops| ==> ops[i].key != ops[j].key)
  }

  /** True when no request in `ops` inserts or deletes `key`; lookups of it,
      and requests on other keys, may appear. */
  ghost predicate NoWriteTo(ops: seq<Op>, key: string)
  {
    forall i :: 0 <= i < |ops| ==> ops[i].GetReq? || ops[i].key != key
  }

  /** Requests that neither insert nor delete `key` leave its lookup unchanged. */
  lemma {:induction false} OtherRequestsKeepKey(s: KvSpec.Store, ops: seq<Op>, key: string)
    requires NoWriteTo(ops, key)
    ensures KvSpec.Get(Run(s, ops).0, key) == KvSpec.Get(s, key)
    decreases |ops|
  {
    if ops != [] {
      assert NoWriteTo(ops[1..], key) by {
        forall i | 0 <= i < |ops[1..]| ensures ops[1..][i].GetReq? || ops[1..][i].key != key {
          assert ops[1..][i] == ops[i + 1];
        }
      }
      OtherRequestsKeepKey(Apply(s, ops[0]).0, ops[1..], key);
    }
  }

  /** Read after write: a successful insert of `key` is what a later lookup of
      `key` returns, whatever other requests come in between, as long as none
      of them inserts or deletes `key`. */
  lemma ReadAfterWrite(s: KvSpec.Store, key: string, value: string, ops: seq<Op>)
    requires |s.data| < s.maxSize
    requires NoWriteTo(ops, key)
    ensures Apply(s, AddReq(key, value)).1 == AddReply(true)
    ensures KvSpec.Get(Run(Apply(s, AddReq(key, value)).0, ops).0, key) == (value, true)
  {
    OtherRequestsKeepKey(Apply(s, AddReq(key, value)).0, ops, key);
  }

  /** Inserts of distinct new keys, in whatever order the lock admits them:
      exactly those that find the store below capacity succeed, each of them is
      then stored with its value, none is lost or duplicated, and the final
      entry count is the smaller of the number of keys offered and the room
      there was. */
  lemma {:induction false} DistinctAddsFill(s: KvSpec.Store, ops: seq<Op>)
    requires KvSpec.Valid(s)
    requires FreshDistinctAdds(s, ops)
    ensures forall i :: 0 <= i < |ops| ==>
      Run(s, ops).1[i] == AddReply(|s.data| + i < s.maxSize)
    ensures forall i :: 0 <= i < |ops| ==>
      KvSpec.Get(Run(s, ops).0, ops[i].key)
        == if |s.data| + i < s.maxSize then (ops[i].value, true) else ("", false)
    ensures |Run(s, ops).0.data| == Min(|s.data| + |ops|, KvSpec.Bound(s.maxSize))
    decreases |ops|
  {
    if ops != [] {
      var (t, reply) := Apply(s, ops[0]);
      var rest := ops[1..];
      assert forall i :: 0 <= i < |rest| ==> rest[i] == ops[i + 1];
      assert FreshDistinctAdds(t, rest) by {
        forall i | 0 <= i < |rest| ensures rest[i].key !in t.data {
          assert rest[i].key != ops[0].key;
          assert KvSpec.Get(t, rest[i].key) == KvSpec.Get(s, rest[i].key);
        }
      }
      DistinctAddsFill(t, rest);
      assert NoWriteTo(rest, ops[0].key);
      OtherRequestsKeepKey(t, rest, ops[0].key);
      var (u, replies) := Run(s, ops);
      assert replies == [reply] + Run(t, rest).1;
      assert |t.data| == if |s.data| < s.maxSize then |s.data| + 1 else |s.data|;
      forall i | 0 <= i < |ops|
        ensures replies[i] == AddReply(|s.data| + i < s.maxSize)
        ensures KvSpec.Get(u, ops[i].key)
          == if |s.data| + i < s.maxSize then (ops[i].value, true) else ("", false)
      {
        if i > 0 {
          assert ops[i] == rest[i - 1];
          assert replies[i] == Run(t, rest).1[i - 1];
          assert (|t.data| + (i - 1) < t.maxSize) == (|s.data| + i < s.maxSize);
        }
      }
    }
  }

  function Min(a: int, b: int): int
  {
    if a <= b then a else b
  }
}
