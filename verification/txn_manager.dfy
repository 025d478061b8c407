/**
 The objects behind `Transactions`: the generic cache of `pkg/cache/cache.go`, and the transactions and
 manager of `dht/server/transaction.go`, each method run without interference.
 */
module TxnManagers {

  import opened Common
  import opened NodeIds
  import opened Transactions

  class Cache<K(==), V> {
    var entries: map<K, V>

    constructor ()
      ensures entries == map[]
    {
      entries := map[];
    }

    method Set(key: K, value: V)
      modifies this
      ensures entries == old(entries)[key := value]
    {
      entries := entries[key := value];
    }

    method Get(key: K) returns (entry: Option<V>)
      ensures entry == if key in entries then Some(entries[key]) else None
    {
      entry := if key in entries then Some(entries[key]) else None;
    }

    /** The second phase of a cleanup: delete what the first phase collected. */
    method DeleteAll(toDelete: set<K>)
      modifies this
      ensures entries == old(entries) - toDelete
    {
      var rest := toDelete;
      while rest != {}
        invariant rest <= toDelete && entries == old(entries) - (toDelete - rest)
        decreases rest
      {
        var k :| k in rest;
        entries := entries - {k};
        rest := rest - {k};
      }
    }
  }

  class Transaction {
    const id: Key
    const node: NodeId
    const sentAt: int
    var done: bool
    /** The buffered channel: what has been sent, and how often it has been closed. */
    var response: seq<int>
    var closes: nat
    ghost var failures: nat

    constructor (id: Key, node: NodeId, sentAt: int)
      ensures this.node == node && View() == Txn(id, sentAt, false, [], 0, 0)
    {
      this.id, this.node, this.sentAt := id, node, sentAt;
      this.done, this.response, this.closes, this.failures := false, [], 0, 0;
    }

    ghost function View(): Txn
      reads this
    {
      Txn(id, sentAt, done, response, closes, failures)
    }

    method Deliver(msg: Option<int>)
      modifies this
      ensures View() == Transactions.Deliver(old(View()), msg)
      ensures done && failures == old(failures)
      ensures old(done) ==> response == old(response) && closes == old(closes)
      ensures !old(done) ==> closes == old(closes) + 1
      ensures !old(done) ==> response == if msg.Some? then old(response) + [msg.value] else old(response)
    {
      if done {
        return;
      }
      done := true;
      if msg.Some? {
        response := response + [msg.value];
      }
      closes := closes + 1;
    }
  }

  /** What a sweep at `now` leaves of a transaction that was in the cache. */
  function Swept(t: Txn, now: int, timeout: int): Txn {
    if t.done || now - t.sentAt <= timeout then t
    else Transactions.Deliver(t.(failures := t.failures + 1), None)
  }

  /** A sweep sends nothing; it closes and fails exactly the waiting transactions that are overdue. */
  lemma SweptFields(t: Txn, now: int, timeout: int)
    ensures var expires := !t.done && now - t.sentAt > timeout;
      Swept(t, now, timeout) ==
      if expires then Txn(t.key, t.sentAt, true, t.sent, t.closes + 1, t.failures + 1) else t
  {
  }

  /** The cleanup function: whether to delete `txn`, which fails and is closed when it has waited too long. */
  method ShouldDelete(txn: Transaction, now: int, timeout: int) returns (delete: bool, fails: bool)
    modifies txn
    ensures txn.View() == Swept(old(txn.View()), now, timeout)
    ensures txn.response == old(txn.response) && txn.done == delete
    ensures txn.closes == old(txn.closes) + if fails then 1 else 0
    ensures txn.failures == old(txn.failures) + if fails then 1 else 0
    ensures delete == (old(txn.done) || now - txn.sentAt > timeout)
    ensures fails == (!old(txn.done) && now - txn.sentAt > timeout)
  {
    if txn.done {
      return true, false;
    }
    if now - txn.sentAt <= timeout {
      return false, false;
    }
    txn.failures := txn.failures + 1;
    txn.Deliver(None);
    return true, true;
  }

  class TxnManager {
    const cache: Cache<Key, Transaction>
    var counter: nat

    constructor ()
      ensures Valid() && fresh(cache) && cache.entries == map[] && counter == 0
    {
      cache := new Cache();
      counter := 0;
    }

    ghost predicate Valid()
      reads cache
    {
      forall k :: k in cache.entries ==> cache.entries[k].id == k
    }

    method New(node: NodeId, now: int) returns (txn: Transaction)
      requires Valid() && |cache.entries| < KEYS
      modifies this, cache
      ensures Valid() && fresh(txn) && txn.node == node && txn.View() == Txn(KeyOf(counter), now, false, [], 0, 0)
      ensures txn.id !in old(cache.entries) && cache.entries == old(cache.entries)[txn.id := txn]
      ensures old(counter) < counter <= old(counter) + old(|cache.entries|) + 1
    {
      counter := DrawKey(cache.entries, counter);
      txn := new Transaction(KeyOf(counter), node, now);
      cache.Set(KeyOf(counter), txn);
    }

    method Complete(id: Key, msg: int)
      requires Valid()
      modifies cache.entries.Values
      ensures forall t :: t in cache.entries.Values ==>
                t.View() == if t.id == id then Transactions.Deliver(old(t.View()), Some(msg)) else old(t.View())
      ensures forall t :: t in cache.entries.Values ==>
                if t.id == id && !old(t.done) then
                  t.done && t.response == old(t.response) + [msg] && t.closes == old(t.closes) + 1
                else
                  t.done == old(t.done) && t.response == old(t.response) && t.closes == old(t.closes)
    {
      var txn := cache.Get(id);
      if txn.None? {
        return;
      }
      txn.value.Deliver(Some(msg));
    }

    /** One round of the sweeper; `marked` lists the nodes it reports to `MarkFailure`. */
    method Sweep(now: int, timeout: int) returns (marked: seq<NodeId>)
      requires Valid()
      modifies cache, cache.entries.Values
      ensures Valid()
      ensures forall t :: t in old(cache.entries.Values) ==> t.View() == Swept(old(t.View()), now, timeout)
      ensures cache.entries.Keys ==
              set k | k in old(cache.entries) && !old(cache.entries[k].done)
                      && now - old(cache.entries[k].sentAt) <= timeout
      ensures forall k :: k in cache.entries ==> cache.entries[k] == old(cache.entries)[k]
      ensures forall x :: x in marked <==>
                exists k :: k in old(cache.entries) && old(cache.entries[k].node) == x
                            && !old(cache.entries[k].done) && now - old(cache.entries[k].sentAt) > timeout
    {
      hide Swept;
      marked := [];
      ghost var all := cache.entries;
      var todo, toDelete: set<Key> := cache.entries.Keys, {};
      while todo != {}
        invariant cache.entries == all && todo <= all.Keys
        invariant forall k :: k in all && k in todo ==> all[k].View() == old(all[k].View())
        invariant forall k :: k in all && k !in todo ==> all[k].View() == Swept(old(all[k].View()), now, timeout)
        invariant toDelete == set k | k in all && k !in todo && (old(all[k].done) || now - all[k].sentAt > timeout)
        invariant forall x :: x in marked <==>
                    exists k :: k in all && k !in todo && all[k].node == x
                                && !old(all[k].done) && now - all[k].sentAt > timeout
        decreases todo
      {
        var k :| k in todo;
        var txn := cache.entries[k];
        assert txn in all.Values;
        todo := todo - {k};
        var delete, fails := ShouldDelete(txn, now, timeout);
        if fails {
          marked := marked + [txn.node];
        }
        if delete {
          toDelete := toDelete + {k};
        }
      }
      cache.DeleteAll(toDelete);
    }
  }
}
