/**
 The capacity-bounded store object: a map updated in place and a capacity
 fixed at construction. Each method is one whole critical section of the
 Go store's mutex, so it is modelled as an ordinary sequential method; each is
 proved to do what the matching function of KvSpec does.
 */
module KvStore {
  import KvSpec
  import KvTrace

  class InMemoryStore {
    var data: map<string, string>
    const maxSize: int

    /** The store as a value, for the functions and lemmas of KvSpec. */
    function View(): KvSpec.Store
      reads this
    {
      KvSpec.Store(data, maxSize)
    }

    /** The capacity invariant. */
    ghost predicate Valid()
      reads this
    {
      KvSpec.Valid(View())
    }

    /** An empty store of capacity `maxSize`. */
    constructor (maxSize: int)
      ensures data == map[]
      ensures this.maxSize == maxSize
      ensures Valid()
      ensures View() == KvSpec.New(maxSize)
    {
      data := map[];
      this.maxSize := maxSize;
    }

    /** Insert or overwrite, refused with `false` when the store already holds
        `maxSize` entries or more, whether or not `key` is among them. */
    method Add(key: string, value: string) returns (ok: bool)
      requires Valid()
      modifies this
      ensures Valid()
      ensures ok <==> |old(data)| < maxSize
      ensures data == if ok then old(data)[key := value] else old(data)
      ensures KvSpec.Add(old(View()), key, value) == KvSpec.Step(View(), ok)
    {
      if |data| >= maxSize {
        return false;
      }
      data := data[key := value];
      return true;
    }

    /** Read-only lookup: the value and `true` for a live key, the empty
        string and `false` otherwise. */
    method Get(key: string) returns (value: string, found: bool)
      ensures found <==> key in data
      ensures found ==> value == data[key]
      ensures !found ==> value == ""
      ensures (value, found) == KvSpec.Get(View(), key)
    {
      found := key in data;
      value := if found then data[key] else "";
    }

    /** Remove `key` if it is live, answering whether it was. */
    method Delete(key: string) returns (found: bool)
      requires Valid()
      modifies this
      ensures Valid()
      ensures found <==> key in old(data)
      ensures data == old(data) - {key}
      ensures KvSpec.Delete(old(View()), key) == KvSpec.Step(View(), found)
    {
      found := key in data;
      if found {
        data := data - {key};
      }
    }
  }

  /** A client of the store: capacity two, two inserts, a third refused while
      full, then a delete that makes room for it. Each reply is determined by
      the methods' contracts alone. */
  method ScenarioCapacityTwo() returns (replies: seq<KvTrace.Reply>)
    ensures replies == [
      KvTrace.AddReply(true), KvTrace.AddReply(true), KvTrace.AddReply(false),
      KvTrace.GetReply("1", true), KvTrace.DeleteReply(true), KvTrace.AddReply(true),
      KvTrace.GetReply("2", true), KvTrace.GetReply("", false)]
  {
    var store := new InMemoryStore(2);
    var a1 := store.Add("a", "1");
    var b2 := store.Add("b", "2");
    assert "a" != "b" && store.data == map["a" := "1", "b" := "2"];
    var c3 := store.Add("c", "3");
    var getA, foundA := store.Get("a");
    var delA := store.Delete("a");
    assert store.data == map["b" := "2"];
    var c3Again := store.Add("c", "3");
    var getB, foundB := store.Get("b");
    var getGone, foundGone := store.Get("a");
    replies := [
      KvTrace.AddReply(a1), KvTrace.AddReply(b2), KvTrace.AddReply(c3),
      KvTrace.GetReply(getA, foundA), KvTrace.DeleteReply(delA), KvTrace.AddReply(c3Again),
      KvTrace.GetReply(getB, foundB), KvTrace.GetReply(getGone, foundGone)];
  }
}
