/**
 The transaction manager of `dht/server/transaction.go` over the generic cache of
 `pkg/cache/cache.go`, as a state machine whose steps are the atomic actions of its goroutines:
 any number of callers of `New` and `Complete`, and the one two-phase sweeper.
 */
module Transactions {

  import opened Common

  /** Transaction identifiers wrap at 32 bits. */
  const KEYS: nat := 0x1_0000_0000

  type Key = k: nat | k < KEYS

  /** What happened to one transaction: `closes` and `failures` count actions, `sent` the messages on its channel. */
  datatype Txn = Txn(key: Key, sentAt: int, done: bool, sent: seq<int>, closes: nat, failures: nat)

  /** A caller of `New` that has drawn number `raw`; `free` once it has seen that the key is unused. */
  datatype Caller = Caller(raw: nat, free: bool)

  /** A caller of `Complete` that has found transaction `txn` and is about to deliver. */
  datatype Reply = Reply(txn: nat, msg: Option<int>)

  /**
   The sweeper: collecting under the read lock, there possibly expiring one transaction (`marked`
   once it has called MarkFailure), then between the locks with keys to delete.
   */
  datatype Sweeper =
    | Idle
    | Collecting(todo: set<Key>, toDelete: set<Key>)
    | Expiring(key: Key, txn: nat, marked: bool, todo: set<Key>, toDelete: set<Key>)
    | Deleting(toDelete: set<Key>)

  /** `tries` counts, for each goroutine that is inside `New`, the draws that have hit a used key. */
  datatype State = State(txns: seq<Txn>, entries: map<Key, nat>, counter: nat, callers: map<nat, Caller>,
                         tries: map<nat, nat>, replies: map<nat, Reply>, sweeper: Sweeper)

  datatype Event =
    | NewAdd(tid: nat)
    | NewGet(tid: nat)
    | NewSet(tid: nat, now: int)
    | CompleteGet(tid: nat, key: Key, msg: Option<int>)
    | CompleteDeliver(tid: nat)
    | SweepBegin
    | SweepVisit(key: Key, now: int, timeout: int)
    | SweepMark
    | SweepExpire
    | SweepUnlock
    | SweepDelete

  const INIT: State := State([], map[], 0, map[], map[], map[], Idle)

  function KeyOf(raw: nat): Key {
    raw % KEYS
  }

  /** `deliver`: the first call sends and closes, later ones do nothing. */
  function Deliver(t: Txn, msg: Option<int>): Txn {
    if t.done then t
    else t.(done := true, sent := if msg.Some? then t.sent + [msg.value] else t.sent, closes := t.closes + 1)
  }

  function DeliverTo(s: State, h: nat, msg: Option<int>): State
    requires h < |s.txns|
  {
    s.(txns := s.txns[h := Deliver(s.txns[h], msg)])
  }

  predicate HoldsReadLock(w: Sweeper) {
    w.Collecting? || w.Expiring?
  }

  /** No pending call of `New` has seen the counter go all the way round. */
  predicate NoWrap(s: State, next: nat) {
    forall tid :: tid in s.callers ==> next < s.callers[tid].raw + KEYS
  }

  function Tries(s: State, tid: nat): nat {
    if tid in s.tries then s.tries[tid] else 0
  }

  /** One atomic step; an event that is not enabled changes nothing. */
  function Next(s: State, e: Event): State {
    match e
    case NewAdd(tid) =>
      if tid in s.callers || !NoWrap(s, s.counter + 1) then s
      else s.(counter := s.counter + 1, callers := s.callers[tid := Caller(s.counter + 1, false)],
              tries := s.tries[tid := Tries(s, tid)])
    case NewGet(tid) =>
      if tid !in s.callers || s.callers[tid].free then s
      else if KeyOf(s.callers[tid].raw) in s.entries then
        s.(callers := s.callers - {tid}, tries := s.tries[tid := Tries(s, tid) + 1])
      else s.(callers := s.callers[tid := s.callers[tid].(free := true)])
    case NewSet(tid, now) =>
      if tid !in s.callers || !s.callers[tid].free || HoldsReadLock(s.sweeper) then s
      else
        var key := KeyOf(s.callers[tid].raw);
        s.(txns := s.txns + [Txn(key, now, false, [], 0, 0)], entries := s.entries[key := |s.txns|],
           callers := s.callers - {tid}, tries := s.tries - {tid})
    case CompleteGet(tid, key, msg) =>
      if tid in s.replies || key !in s.entries then s
      else s.(replies := s.replies[tid := Reply(s.entries[key], msg)])
    case CompleteDeliver(tid) =>
      if tid !in s.replies || s.replies[tid].txn >= |s.txns| then s
      else DeliverTo(s, s.replies[tid].txn, s.replies[tid].msg).(replies := s.replies - {tid})
    case SweepBegin =>
      if s.sweeper.Idle? then s.(sweeper := Collecting(s.entries.Keys, {})) else s
    case SweepVisit(key, now, timeout) =>
      if !s.sweeper.Collecting? || key !in s.sweeper.todo || key !in s.entries || s.entries[key] >= |s.txns| then s
      else
        var t := s.txns[s.entries[key]];
        var todo, toDelete := s.sweeper.todo - {key}, s.sweeper.toDelete;
        if t.done then s.(sweeper := Collecting(todo, toDelete + {key}))
        else if now - t.sentAt <= timeout then s.(sweeper := Collecting(todo, toDelete))
        else s.(sweeper := Expiring(key, s.entries[key], false, todo, toDelete))
    case SweepMark =>
      if !s.sweeper.Expiring? || s.sweeper.marked || s.sweeper.txn >= |s.txns| then s
      else
        var h := s.sweeper.txn;
        s.(txns := s.txns[h := s.txns[h].(failures := s.txns[h].failures + 1)],
           sweeper := s.sweeper.(marked := true))
    case SweepExpire =>
      if !s.sweeper.Expiring? || !s.sweeper.marked || s.sweeper.txn >= |s.txns| then s
      else
        DeliverTo(s, s.sweeper.txn, None)
        .(sweeper := Collecting(s.sweeper.todo, s.sweeper.toDelete + {s.sweeper.key}))
    case SweepUnlock =>
      if !s.sweeper.Collecting? || s.sweeper.todo != {} then s
      else s.(sweeper := if s.sweeper.toDelete == {} then Idle else Deleting(s.sweeper.toDelete))
    case SweepDelete =>
      if s.sweeper.Deleting? then s.(entries := s.entries - s.sweeper.toDelete, sweeper := Idle) else s
  }

  function Run(s: State, events: seq<Event>): State {
    if events == [] then s else Next(Run(s, events[..|events| - 1]), events[|events| - 1])
  }

  // ----- the invariant

  /** The key is in the map, its transaction carries the key, and has been delivered. */
  predicate Delivered(s: State, key: Key) {
    key in s.entries && s.entries[key] < |s.txns| && s.txns[s.entries[key]].done
  }

  /** Every key in the map leads to a transaction with that key. */
  predicate KeysMatch(s: State) {
    forall k :: k in s.entries ==> s.entries[k] < |s.txns| && s.txns[s.entries[k]].key == k
  }

  /** No transaction is lost: one that is not delivered is in the map under its own key. */
  predicate NoneLost(s: State) {
    forall h :: 0 <= h < |s.txns| && !s.txns[h].done ==>
      s.txns[h].key in s.entries && s.entries[s.txns[h].key] == h
  }

  /** At most one message and exactly one close per delivery; failures are marked at most once. */
  predicate OncePerTxn(t: Txn) {
    && |t.sent| <= 1 && t.failures <= 1
    && (!t.done ==> t.sent == [])
    && t.closes == (if t.done then 1 else 0)
  }

  predicate CallersOk(s: State) {
    && (forall tid :: tid in s.callers ==> s.callers[tid].raw <= s.counter < s.callers[tid].raw + KEYS)
    && (forall a, b :: a in s.callers && b in s.callers && a != b ==> s.callers[a].raw != s.callers[b].raw)
    && (forall tid :: tid in s.callers && s.callers[tid].free ==> KeyOf(s.callers[tid].raw) !in s.entries)
  }

  function ToDelete(w: Sweeper): set<Key> {
    if w.Idle? then {} else w.toDelete
  }

  predicate SweeperOk(s: State) {
    && (forall k :: k in ToDelete(s.sweeper) ==> Delivered(s, k))
    && (s.sweeper.Expiring? ==>
          && s.sweeper.key in s.entries && s.entries[s.sweeper.key] == s.sweeper.txn < |s.txns|
          && s.txns[s.sweeper.txn].failures == (if s.sweeper.marked then 1 else 0))
    && (forall h :: 0 <= h < |s.txns| && s.txns[h].failures > 0 && !s.txns[h].done ==>
          s.sweeper.Expiring? && s.sweeper.marked && s.sweeper.txn == h)
  }

  predicate TxnsOk(s: State) {
    KeysMatch(s) && NoneLost(s) && forall h :: 0 <= h < |s.txns| ==> OncePerTxn(s.txns[h])
  }

  predicate Inv(s: State) {
    TxnsOk(s) && CallersOk(s) && SweeperOk(s)
  }

  lemma NearbyKeysDiffer(a: nat, b: nat)
    requires a < b < a + KEYS
    ensures KeyOf(a) != KeyOf(b)
  {
    var qa, qb := a / KEYS, b / KEYS;
    assert a == qa * KEYS + KeyOf(a) && b == qb * KEYS + KeyOf(b);
  }

  /** Two pending callers of `New` never hold the same key. */
  lemma CallersDiffer(s: State, a: nat, b: nat)
    requires CallersOk(s) && a in s.callers && b in s.callers && a != b
    ensures KeyOf(s.callers[a].raw) != KeyOf(s.callers[b].raw)
  {
    var ra, rb := s.callers[a].raw, s.callers[b].raw;
    if ra < rb {
      NearbyKeysDiffer(ra, rb);
    } else {
      NearbyKeysDiffer(rb, ra);
    }
  }

  /** A step that only moves callers of `New` has only them to account for. */
  lemma OnlyCallers(s: State, u: State)
    requires Inv(s) && CallersOk(u)
    requires u.txns == s.txns && u.entries == s.entries && u.sweeper == s.sweeper
    ensures Inv(u)
  {
    assert forall k :: Delivered(u, k) == Delivered(s, k);
  }

  lemma NewKeepsInv(s: State, e: Event)
    requires Inv(s) && (e.NewAdd? || e.NewGet?)
    ensures Inv(Next(s, e))
  {
    hide CallersOk, KeysMatch, NoneLost, SweeperOk, OncePerTxn, KeyOf;
    NewCallersOk(s, e);
    OnlyCallers(s, Next(s, e));
  }

  lemma NewCallersOk(s: State, e: Event)
    requires CallersOk(s) && (e.NewAdd? || e.NewGet?)
    ensures CallersOk(Next(s, e))
  {
    hide KeyOf;
  }

  lemma SetKeepsInv(s: State, e: Event)
    requires Inv(s) && e.NewSet?
    ensures Inv(Next(s, e))
  {
    if e.tid in s.callers && s.callers[e.tid].free {
      forall b | b in s.callers && b != e.tid
        ensures KeyOf(s.callers[e.tid].raw) != KeyOf(s.callers[b].raw)
      {
        CallersDiffer(s, e.tid, b);
      }
    }
  }

  /** A step that changes neither keys nor callers of `New` keeps what holds of the callers. */
  lemma SameCallers(s: State, u: State)
    requires CallersOk(s) && u.entries == s.entries && u.callers == s.callers && u.counter == s.counter
    ensures CallersOk(u)
  {
    hide KeyOf;
  }

  lemma CompleteTxnsOk(s: State, e: Event)
    requires TxnsOk(s) && (e.CompleteGet? || e.CompleteDeliver?)
    ensures TxnsOk(Next(s, e))
  {
    hide KeyOf;
  }

  lemma CompleteSweeperOk(s: State, e: Event)
    requires SweeperOk(s) && (e.CompleteGet? || e.CompleteDeliver?)
    ensures SweeperOk(Next(s, e))
  {
    hide KeyOf;
  }

  lemma CompleteKeepsInv(s: State, e: Event)
    requires Inv(s) && (e.CompleteGet? || e.CompleteDeliver?)
    ensures Inv(Next(s, e))
  {
    hide TxnsOk, CallersOk, SweeperOk;
    CompleteTxnsOk(s, e);
    CompleteSweeperOk(s, e);
    SameCallers(s, Next(s, e));
  }

  /** A step that only moves the sweeper has only it to account for. */
  lemma OnlySweeper(s: State, u: State)
    requires Inv(s) && SweeperOk(u)
    requires u.txns == s.txns && u.entries == s.entries && u.callers == s.callers && u.counter == s.counter
    ensures Inv(u)
  {
  }

  lemma MoveSweeperOk(s: State, e: Event)
    requires SweeperOk(s) && (e.SweepBegin? || e.SweepUnlock? || e.SweepVisit?)
    ensures SweeperOk(Next(s, e))
  {
    hide KeyOf;
    assert forall k :: Delivered(s, k) == Delivered(Next(s, e), k);
  }

  lemma LockKeepsInv(s: State, e: Event)
    requires Inv(s) && (e.SweepBegin? || e.SweepUnlock?)
    ensures Inv(Next(s, e))
  {
    hide TxnsOk, CallersOk, SweeperOk;
    MoveSweeperOk(s, e);
    OnlySweeper(s, Next(s, e));
  }

  lemma VisitKeepsInv(s: State, e: Event)
    requires Inv(s) && e.SweepVisit?
    ensures Inv(Next(s, e))
  {
    hide TxnsOk, CallersOk, SweeperOk;
    MoveSweeperOk(s, e);
    OnlySweeper(s, Next(s, e));
  }

  lemma ExpireTxnsOk(s: State, e: Event)
    requires TxnsOk(s) && SweeperOk(s) && (e.SweepMark? || e.SweepExpire?)
    ensures TxnsOk(Next(s, e))
  {
    hide KeyOf, ToDelete;
  }

  lemma ExpireSweeperOk(s: State, e: Event)
    requires SweeperOk(s) && (e.SweepMark? || e.SweepExpire?)
    ensures SweeperOk(Next(s, e))
  {
    hide KeyOf;
    var u := Next(s, e);
    forall k | k in ToDelete(u.sweeper)
      ensures Delivered(u, k)
    {
      assert k in ToDelete(s.sweeper) ==> Delivered(s, k);
    }
  }

  lemma ExpireKeepsInv(s: State, e: Event)
    requires Inv(s) && (e.SweepMark? || e.SweepExpire?)
    ensures Inv(Next(s, e))
  {
    hide TxnsOk, CallersOk, SweeperOk;
    ExpireTxnsOk(s, e);
    ExpireSweeperOk(s, e);
    SameCallers(s, Next(s, e));
  }

  /** The delete phase removes delivered transactions only. */
  lemma DeleteKeepsInv(s: State, e: Event)
    requires Inv(s) && e.SweepDelete?
    ensures Inv(Next(s, e))
  {
    var u := Next(s, e);
    forall h | 0 <= h < |u.txns| && !u.txns[h].done
      ensures u.txns[h].key in u.entries && u.entries[u.txns[h].key] == h
    {
      assert s.txns[h].key in ToDelete(s.sweeper) ==> Delivered(s, s.txns[h].key);
    }
  }

  lemma NextKeepsInv(s: State, e: Event)
    requires Inv(s)
    ensures Inv(Next(s, e))
  {
    match e
    case NewAdd(_) => NewKeepsInv(s, e);
    case NewGet(_) => NewKeepsInv(s, e);
    case NewSet(_, _) => SetKeepsInv(s, e);
    case CompleteGet(_, _, _) => CompleteKeepsInv(s, e);
    case CompleteDeliver(_) => CompleteKeepsInv(s, e);
    case SweepMark => ExpireKeepsInv(s, e);
    case SweepExpire => ExpireKeepsInv(s, e);
    case SweepDelete => DeleteKeepsInv(s, e);
    case SweepVisit(_, _, _) => VisitKeepsInv(s, e);
    case _ => LockKeepsInv(s, e);
  }

  // ----- what holds over every run

  lemma {:induction false} RunFromKeepsInv(s: State, events: seq<Event>)
    requires Inv(s)
    ensures Inv(Run(s, events))
  {
    hide Inv, Next;
    if events != [] {
      RunFromKeepsInv(s, events[..|events| - 1]);
      NextKeepsInv(Run(s, events[..|events| - 1]), events[|events| - 1]);
    }
  }

  lemma RunKeepsInv(events: seq<Event>)
    ensures Inv(Run(INIT, events))
  {
    RunFromKeepsInv(INIT, events);
  }

  /**
   No interleaving loses a transaction: one that has not been delivered is in the map under its own
   key, whatever is delivered is sent at most once and closed exactly once, and its failure is
   marked at most once.
   */
  lemma NoTransactionIsLost(events: seq<Event>, h: nat)
    requires h < |Run(INIT, events).txns|
    ensures var s := Run(INIT, events); var t := s.txns[h];
      && (!t.done ==> t.key in s.entries && s.entries[t.key] == h)
      && |t.sent| <= 1 && t.closes == (if t.done then 1 else 0) && t.failures <= 1
  {
    RunKeepsInv(events);
  }

  /** A key the sweeper deletes belongs to a delivered transaction at that very moment. */
  lemma OnlyDeliveredAreDeleted(events: seq<Event>, key: Key)
    requires key in Run(INIT, events).entries && key !in Next(Run(INIT, events), SweepDelete).entries
    ensures var s := Run(INIT, events);
      s.entries[key] < |s.txns| && s.txns[s.entries[key]].done
  {
    RunKeepsInv(events);
    assert Delivered(Run(INIT, events), key);
  }

  /** Registering a transaction never replaces another one. */
  lemma NewNeverOverwrites(events: seq<Event>, tid: nat, now: int, key: Key)
    requires key in Run(INIT, events).entries
    ensures var s := Run(INIT, events); var u := Next(s, NewSet(tid, now));
      key in u.entries && u.entries[key] == s.entries[key]
  {
    RunKeepsInv(events);
  }

  lemma {:induction false} ReplyWaits(s: State, events: seq<Event>, tid: nat)
    requires tid in s.replies && s.replies[tid].txn < |s.txns|
    ensures var u := Run(s, events); var h := s.replies[tid].txn;
      && h < |u.txns|
      && (u.txns[h].done || (tid in u.replies && u.replies[tid] == s.replies[tid]))
  {
    if events != [] {
      ReplyWaits(s, events[..|events| - 1], tid);
      WaitsOneStep(Run(s, events[..|events| - 1]), events[|events| - 1], tid, s.replies[tid]);
      hide Next;
    }
  }

  lemma WaitsOneStep(s: State, e: Event, tid: nat, r: Reply)
    requires r.txn < |s.txns| && (s.txns[r.txn].done || (tid in s.replies && s.replies[tid] == r))
    ensures var u := Next(s, e);
      r.txn < |u.txns| && (u.txns[r.txn].done || (tid in u.replies && u.replies[tid] == r))
  {
  }

  /**
   A reply that finds a waiting transaction is the message delivered to it, whatever happens between its two
   steps, unless something else has been delivered to that transaction first.
   */
  lemma ReplyReachesTransaction(events: seq<Event>, h: nat, tid: nat, msg: int, between: seq<Event>)
    requires var s := Run(INIT, events);
      h < |s.txns| && !s.txns[h].done && tid !in s.replies
    requires var s := Run(INIT, events); var u := Run(Next(s, CompleteGet(tid, s.txns[h].key, Some(msg))), between);
      h < |u.txns| && !u.txns[h].done
    ensures var s := Run(INIT, events); var u := Run(Next(s, CompleteGet(tid, s.txns[h].key, Some(msg))), between);
      Next(u, CompleteDeliver(tid)).txns == u.txns[h := u.txns[h].(done := true, sent := [msg], closes := 1)]
  {
    RunKeepsInv(events);
    var s := Run(INIT, events);
    assert s.entries[s.txns[h].key] == h;
    var first := Next(s, CompleteGet(tid, s.txns[h].key, Some(msg)));
    assert first.replies[tid] == Reply(h, Some(msg)) && first.txns == s.txns;
    NextKeepsInv(s, CompleteGet(tid, s.txns[h].key, Some(msg)));
    RunFromKeepsInv(first, between);
    ReplyWaits(first, between, tid);
    var u := Run(first, between);
    assert OncePerTxn(u.txns[h]) && [] + [msg] == [msg];
  }

  // ----- how a transaction ends

  /** What nothing does any more once a transaction is closed: send, close, or take it back. */
  predicate SameChannel(t: Txn, u: Txn) {
    u.key == t.key && u.sentAt == t.sentAt && u.done == t.done && u.sent == t.sent && u.closes == t.closes
  }

  lemma ClosedOneStep(s: State, e: Event, h: nat)
    requires h < |s.txns| && s.txns[h].done
    ensures h < |Next(s, e).txns| && SameChannel(s.txns[h], Next(s, e).txns[h])
  {
  }

  /** A closed channel is never sent on or closed again, whatever replies, sweeps and new calls follow. */
  lemma {:induction false} ClosedForGood(s: State, events: seq<Event>, h: nat)
    requires h < |s.txns| && s.txns[h].done
    ensures h < |Run(s, events).txns| && SameChannel(s.txns[h], Run(s, events).txns[h])
  {
    if events != [] {
      ClosedForGood(s, events[..|events| - 1], h);
      ClosedOneStep(Run(s, events[..|events| - 1]), events[|events| - 1], h);
      hide Next;
    }
  }

  /** The reply that had found `h` is delivered, and `t` is what becomes of it. */
  predicate AnsweredBy(s: State, e: Event, h: nat, t: Txn)
    requires h < |s.txns|
  {
    && e.CompleteDeliver? && e.tid in s.replies && s.replies[e.tid].txn == h
    && var sent := if s.replies[e.tid].msg.Some? then [s.replies[e.tid].msg.value] else [];
       t == Txn(s.txns[h].key, s.txns[h].sentAt, true, sent, 1, s.txns[h].failures)
  }

  /** The sweeper expires `h`, and `t` is what becomes of it. */
  predicate ExpiredBy(s: State, e: Event, h: nat, t: Txn)
    requires h < |s.txns|
  {
    && e.SweepExpire? && s.sweeper.Expiring? && s.sweeper.txn == h
    && t == Txn(s.txns[h].key, s.txns[h].sentAt, true, [], 1, 1)
  }

  /**
   A transaction ends in one of two ways: with the one message of a reply that had found it, or, when the sweeper
   expires it, without a message and with its node's failure marked.
   */
  lemma HowTransactionsEnd(events: seq<Event>, e: Event, h: nat)
    requires var s := Run(INIT, events);
      h < |s.txns| && !s.txns[h].done && h < |Next(s, e).txns| && Next(s, e).txns[h].done
    ensures var s := Run(INIT, events); var t := Next(s, e).txns[h];
      AnsweredBy(s, e, h, t) || ExpiredBy(s, e, h, t)
  {
    RunKeepsInv(events);
    EndsOneStep(Run(INIT, events), e, h);
  }

  lemma EndsOneStep(s: State, e: Event, h: nat)
    requires Inv(s) && h < |s.txns| && !s.txns[h].done && h < |Next(s, e).txns| && Next(s, e).txns[h].done
    ensures var t := Next(s, e).txns[h];
      AnsweredBy(s, e, h, t) || ExpiredBy(s, e, h, t)
  {
    hide KeyOf, CallersOk, KeysMatch, NoneLost;
    assert OncePerTxn(s.txns[h]);
  }

  /** Some visit of the sweeper found the transaction waiting for longer than the timeout. */
  ghost predicate FoundOverdue(events: seq<Event>, t: Txn) {
    exists i :: 0 <= i < |events| && OverdueVisit(events[i], t)
  }

  predicate OverdueVisit(e: Event, t: Txn) {
    e.SweepVisit? && e.key == t.key && e.now - t.sentAt > e.timeout
  }

  /** Only a transaction that a visit found overdue is ever about to expire, marked as failed, or expired. */
  predicate Suspected(s: State, h: nat)
    requires h < |s.txns|
  {
    s.txns[h].failures > 0 || (s.sweeper.Expiring? && s.sweeper.txn == h)
  }

  lemma SuspectedOneStep(s: State, e: Event, h: nat)
    requires KeysMatch(s) && h < |Next(s, e).txns| && Suspected(Next(s, e), h)
    ensures (h < |s.txns| && Suspected(s, h)) || OverdueVisit(e, Next(s, e).txns[h])
    ensures h < |s.txns| ==> s.txns[h].key == Next(s, e).txns[h].key && s.txns[h].sentAt == Next(s, e).txns[h].sentAt
    ensures h >= |s.txns| ==> !Suspected(Next(s, e), h)
  {
    hide KeyOf;
  }

  /** No transaction fails or expires before its time. */
  lemma {:induction false} OnlyOverdueExpire(events: seq<Event>, h: nat)
    requires h < |Run(INIT, events).txns| && Suspected(Run(INIT, events), h)
    ensures FoundOverdue(events, Run(INIT, events).txns[h])
  {
    if events != [] {
      var before, e := events[..|events| - 1], events[|events| - 1];
      RunKeepsInv(before);
      SuspectedOneStep(Run(INIT, before), e, h);
      hide Next, Inv, Suspected;
      if !OverdueVisit(e, Run(INIT, events).txns[h]) {
        OnlyOverdueExpire(before, h);
        var i :| 0 <= i < |before| && OverdueVisit(before[i], Run(INIT, before).txns[h]);
        assert events[i] == before[i];
      } else {
        assert events[|events| - 1] == e;
      }
    }
  }

  /** A waiting transaction that a visit finds overdue is marked as failed, closed without a message, and collected. */
  lemma OverdueExpires(events: seq<Event>, key: Key, now: int, timeout: int)
    requires var s := Run(INIT, events);
      s.sweeper.Collecting? && key in s.sweeper.todo && key in s.entries
    ensures var s := Run(INIT, events); var h := s.entries[key];
      h < |s.txns| && s.txns[h].key == key
    ensures var s := Run(INIT, events); var h := s.entries[key];
      var u := Next(Next(Next(s, SweepVisit(key, now, timeout)), SweepMark), SweepExpire);
      !s.txns[h].done && now - s.txns[h].sentAt > timeout ==>
        && u.txns == s.txns[h := Txn(key, s.txns[h].sentAt, true, [], 1, 1)]
        && u.sweeper == Collecting(s.sweeper.todo - {key}, s.sweeper.toDelete + {key})
  {
    hide Inv, Run, Next;
    RunKeepsInv(events);
    var s := Run(INIT, events);
    WaitingIsFresh(s, key);
    if !s.txns[s.entries[key]].done && now - s.txns[s.entries[key]].sentAt > timeout {
      OverdueSteps(s, key, now, timeout);
    }
  }

  /** Between two visits, what waits has not been marked, sent to or closed. */
  lemma WaitingIsFresh(s: State, key: Key)
    requires Inv(s) && s.sweeper.Collecting? && key in s.entries
    ensures var h := s.entries[key];
      h < |s.txns| && s.txns[h].key == key && (!s.txns[h].done ==> s.txns[h] == Txn(key, s.txns[h].sentAt, false, [], 0, 0))
  {
    hide CallersOk, NoneLost;
    var h := s.entries[key];
    assert OncePerTxn(s.txns[h]);
  }

  lemma OverdueSteps(s: State, key: Key, now: int, timeout: int)
    requires s.sweeper.Collecting? && key in s.sweeper.todo && key in s.entries && s.entries[key] < |s.txns|
    requires var t := s.txns[s.entries[key]]; t == Txn(key, t.sentAt, false, [], 0, 0) && now - t.sentAt > timeout
    ensures var h := s.entries[key];
      var u := Next(Next(Next(s, SweepVisit(key, now, timeout)), SweepMark), SweepExpire);
      && u.txns == s.txns[h := Txn(key, s.txns[h].sentAt, true, [], 1, 1)]
      && u.sweeper == Collecting(s.sweeper.todo - {key}, s.sweeper.toDelete + {key})
  {
    hide KeyOf, NoWrap;
    var h, w := s.entries[key], s.sweeper;
    var found := Next(s, SweepVisit(key, now, timeout));
    assert found == s.(sweeper := Expiring(key, h, false, w.todo - {key}, w.toDelete));
    var marked := Next(found, SweepMark);
    assert marked.txns[h] == Txn(key, s.txns[h].sentAt, false, [], 0, 1) && marked.sweeper == found.sweeper.(marked := true);
  }

  // ----- what one sweep achieves

  function ToVisit(w: Sweeper): set<Key> {
    if w.Collecting? || w.Expiring? then w.todo else {}
  }

  /** The sweep that is under way will still delete `key`. */
  predicate Doomed(s: State, key: Key) {
    Delivered(s, key) && (key in ToVisit(s.sweeper) || key in ToDelete(s.sweeper))
  }

  lemma DoomedOneStep(s: State, e: Event, key: Key)
    requires Inv(s) && Doomed(s, key) && !Next(s, e).sweeper.Idle?
    ensures Doomed(Next(s, e), key)
  {
    CallersAreOk(s);
    hide Inv;
    EntryStays(s, e, key);
    hide CallersOk;
    PlanStays(s, e, key);
  }

  /** An entry goes only in the delete phase. */
  lemma EntryStays(s: State, e: Event, key: Key)
    requires CallersOk(s) && Delivered(s, key) && !(e.SweepDelete? && s.sweeper.Deleting?)
    ensures Delivered(Next(s, e), key)
  {
    hide KeyOf;
  }

  lemma PlanStays(s: State, e: Event, key: Key)
    requires Doomed(s, key) && !Next(s, e).sweeper.Idle?
    ensures key in ToVisit(Next(s, e).sweeper) || key in ToDelete(Next(s, e).sweeper)
  {
    hide KeyOf, NoWrap;
  }

  ghost predicate NeverIdle(s: State, events: seq<Event>) {
    forall n :: 0 <= n <= |events| ==> !Run(s, events[..n]).sweeper.Idle?
  }

  lemma {:induction false} StaysDoomed(s: State, events: seq<Event>, key: Key)
    requires Inv(s) && Doomed(s, key) && NeverIdle(s, events)
    ensures Doomed(Run(s, events), key)
  {
    hide Inv, Doomed, Next;
    assert events[..|events|] == events;
    if events != [] {
      var before := events[..|events| - 1];
      forall n | 0 <= n <= |before|
        ensures !Run(s, before[..n]).sweeper.Idle?
      {
        assert before[..n] == events[..n];
      }
      StaysDoomed(s, before, key);
      RunFromKeepsInv(s, before);
      DoomedOneStep(Run(s, before), events[|events| - 1], key);
    }
  }

  /** A transaction that is delivered when a sweep begins is out of the map when it ends, whatever happens meanwhile. */
  lemma SweepClearsDelivered(before: seq<Event>, events: seq<Event>, key: Key)
    requires var s := Run(INIT, before);
      && s.sweeper.Idle? && Delivered(s, key)
      && NeverIdle(Next(s, SweepBegin), events) && Run(Next(s, SweepBegin), events).sweeper.Deleting?
    ensures var t := Run(Next(Run(INIT, before), SweepBegin), events);
      key in t.entries && key !in Next(t, SweepDelete).entries && Next(t, SweepDelete).sweeper.Idle?
  {
    hide Inv, Run, Next, Doomed, Delivered, NeverIdle;
    var s := Run(INIT, before);
    RunKeepsInv(before);
    NextKeepsInv(s, SweepBegin);
    BeginDooms(s, key);
    StaysDoomed(Next(s, SweepBegin), events, key);
    EndDeletes(Run(Next(s, SweepBegin), events), key);
  }

  lemma BeginDooms(s: State, key: Key)
    requires s.sweeper.Idle? && Delivered(s, key)
    ensures Doomed(Next(s, SweepBegin), key)
  {
  }

  lemma EndDeletes(s: State, key: Key)
    requires s.sweeper.Deleting? && Doomed(s, key)
    ensures key in s.entries && key !in Next(s, SweepDelete).entries && Next(s, SweepDelete).sweeper.Idle?
  {
  }

  /** The map does not change while the sweeper holds the read lock. */
  lemma LockHoldsEntries(s: State, e: Event)
    requires s.sweeper.Collecting? || s.sweeper.Expiring?
    ensures Next(s, e).entries == s.entries
  {
  }

  /** A call of `New` that has seen its key unused registers a waiting transaction under it, sent at that time. */
  lemma NewRegisters(events: seq<Event>, tid: nat, now: int)
    requires var s := Run(INIT, events);
      tid in s.callers && s.callers[tid].free && !s.sweeper.Collecting? && !s.sweeper.Expiring?
    ensures var s := Run(INIT, events); var u := Next(s, NewSet(tid, now)); var key := KeyOf(s.callers[tid].raw);
      && key !in s.entries && u.entries == s.entries[key := |s.txns|]
      && u.txns == s.txns + [Txn(key, now, false, [], 0, 0)] && tid !in u.callers
  {
    RunKeepsInv(events);
    hide KeyOf;
  }

  /** A call of `New` that nobody interferes with takes the next number, when its key is unused. */
  lemma UninterruptedNew(s: State, tid: nat, now: int)
    requires tid !in s.callers && !s.sweeper.Collecting? && !s.sweeper.Expiring?
    requires forall other :: other in s.callers ==> s.counter + 1 < s.callers[other].raw + KEYS
    requires KeyOf(s.counter + 1) !in s.entries
    ensures var u := Next(Next(Next(s, NewAdd(tid)), NewGet(tid)), NewSet(tid, now)); var key := KeyOf(s.counter + 1);
      && u.counter == s.counter + 1 && u.callers == s.callers && u.entries == s.entries[key := |s.txns|]
      && u.txns == s.txns + [Txn(key, now, false, [], 0, 0)]
  {
    hide KeyOf;
    var t := Next(Next(s, NewAdd(tid)), NewGet(tid));
    assert t.callers == s.callers[tid := Caller(s.counter + 1, true)];
  }

  /** Two numbers share a key exactly when they are whole laps of the 32-bit counter apart. */
  lemma KeysRepeat(a: nat, b: nat)
    ensures KeyOf(a) == KeyOf(b) <==> (b - a) % 0x1_0000_0000 == 0
  {
    var qa, qb := a / KEYS, b / KEYS;
    assert a == qa * KEYS + KeyOf(a) && b == qb * KEYS + KeyOf(b);
    var d := b - a;
    assert d == (qb - qa) * KEYS + (KeyOf(b) - KeyOf(a));
    var q := d / KEYS;
    assert d == q * KEYS + d % KEYS;
  }

  // ----- the retry loop of `New`

  /** The keys of the first `tries` numbers after `counter`. */
  function Drawn(counter: nat, tries: nat): set<Key> {
    if tries == 0 then {} else Drawn(counter, tries - 1) + {KeyOf(counter + tries)}
  }

  lemma {:induction false} DrawnAreDistinct(counter: nat, tries: nat)
    requires tries <= KEYS
    ensures |Drawn(counter, tries)| == tries
    ensures forall k :: k in Drawn(counter, tries) ==> exists r: nat :: counter < r <= counter + tries && KeyOf(r) == k
  {
    hide KeyOf;
    if tries > 0 {
      DrawnAreDistinct(counter, tries - 1);
      if KeyOf(counter + tries) in Drawn(counter, tries - 1) {
        var r: nat :| counter < r <= counter + tries - 1 && KeyOf(r) == KeyOf(counter + tries);
        NearbyKeysDiffer(r, counter + tries);
      }
    }
  }

  /**
   `New` without interference: the loop draws numbers until one is unused. With fewer than 2^32
   transactions in flight it ends, and within one try more than there are entries.
   */
  method DrawKey<V>(entries: map<Key, V>, counter: nat) returns (raw: nat)
    requires |entries| < KEYS
    ensures counter < raw <= counter + |entries| + 1
    ensures KeyOf(raw) !in entries
    ensures forall r: nat :: counter < r < raw ==> KeyOf(r) in entries
  {
    raw := counter + 1;
    while KeyOf(raw) in entries
      invariant counter < raw <= counter + |entries| + 1
      invariant Drawn(counter, raw - counter - 1) <= entries.Keys
      invariant forall r: nat :: counter < r < raw ==> KeyOf(r) in entries
      decreases counter + |entries| + 1 - raw
    {
      EnoughKeys(entries.Keys, counter, raw - counter);
      raw := raw + 1;
    }
  }

  lemma EnoughKeys(entries: set<Key>, counter: nat, tries: nat)
    requires tries <= KEYS && Drawn(counter, tries) <= entries
    ensures tries <= |entries|
  {
    DrawnAreDistinct(counter, tries);
    assert entries == Drawn(counter, tries) + (entries - Drawn(counter, tries));
  }

  // ----- the retries of a call of `New` that others interfere with

  /** The keys in the map at the start of a call, and those that other calls are about to use. */
  function BlockedKeys(s: State): set<Key> {
    s.entries.Keys + Pending(s.callers, s.callers.Keys)
  }

  function Pending(callers: map<nat, Caller>, tids: set<nat>): set<Key> {
    set tid | tid in tids && tid in callers :: KeyOf(callers[tid].raw)
  }

  lemma {:induction false} PendingSize(callers: map<nat, Caller>, tids: set<nat>)
    requires tids <= callers.Keys
    ensures |Pending(callers, tids)| <= |tids|
  {
    if tids == {} {
      assert Pending(callers, tids) == {};
    } else {
      var tid :| tid in tids;
      PendingSize(callers, tids - {tid});
      assert Pending(callers, tids) == Pending(callers, tids - {tid}) + {KeyOf(callers[tid].raw)};
    }
  }

  lemma BlockedSize(s: State)
    ensures |BlockedKeys(s)| <= |s.entries| + |s.callers|
  {
    PendingSize(s.callers, s.callers.Keys);
    assert |s.entries| == |s.entries.Keys| && |s.callers| == |s.callers.Keys|;
  }

  /** As many numbers, less than a lap of the counter apart, as keys. */
  lemma {:induction false} NumbersFit(numbers: set<nat>, keys: set<Key>, low: nat)
    requires forall r :: r in numbers ==> low < r < low + KEYS && KeyOf(r) in keys
    ensures |numbers| <= |keys|
  {
    if numbers != {} {
      var r :| r in numbers;
      forall q | q in numbers - {r}
        ensures KeyOf(q) in keys - {KeyOf(r)}
      {
        if q < r {
          NearbyKeysDiffer(q, r);
        } else {
          NearbyKeysDiffer(r, q);
        }
      }
      NumbersFit(numbers - {r}, keys - {KeyOf(r)}, low);
    }
  }

  /**
   The state `t` after the state `s` in which goroutine `me` had not entered `New`. `used` are the numbers drawn
   since that have made an entry, `failed` those that have hit a used key.
   */
  ghost predicate Since(s: State, t: State, me: nat, used: set<nat>, failed: set<nat>) {
    && s.counter <= t.counter < s.counter + KEYS
    && (forall tid :: tid in t.callers ==>
          || s.counter < t.callers[tid].raw <= t.counter
          || (tid in s.callers && s.callers[tid].raw == t.callers[tid].raw))
    && (forall r :: r in used + failed ==> s.counter < r <= t.counter)
    && (forall tid :: tid in t.callers ==> t.callers[tid].raw !in used + failed)
    && (forall k :: k in t.entries ==> k in BlockedKeys(s) || MadeBy(used, k))
    && (forall r :: r in failed ==> KeyOf(r) in BlockedKeys(s))
    && (me in t.callers ==> s.counter < t.callers[me].raw)
    && (me in t.tries ==> t.tries[me] <= |failed|)
  }

  ghost predicate MadeBy(used: set<nat>, k: Key) {
    exists r :: r in used && KeyOf(r) == k
  }

  /** A number drawn since hits only a key that was blocked at the start: all others are too near. */
  lemma HitsBlocked(s: State, t: State, me: nat, used: set<nat>, failed: set<nat>, tid: nat)
    requires Since(s, t, me, used, failed) && tid in t.callers && s.counter < t.callers[tid].raw <= t.counter
    requires KeyOf(t.callers[tid].raw) in t.entries
    ensures KeyOf(t.callers[tid].raw) in BlockedKeys(s)
  {
    hide KeyOf, BlockedKeys;
    var raw := t.callers[tid].raw;
    if MadeBy(used, KeyOf(raw)) {
      var r :| r in used && KeyOf(r) == KeyOf(raw);
      assert r in used + failed;
      if r < raw {
        NearbyKeysDiffer(r, raw);
      } else {
        NearbyKeysDiffer(raw, r);
      }
    }
  }

  lemma DrawSince(s: State, t: State, me: nat, used: set<nat>, failed: set<nat>, tid: nat)
    requires Since(s, t, me, used, failed) && me !in s.callers
    requires Next(t, NewAdd(tid)).counter < s.counter + KEYS
    ensures Since(s, Next(t, NewAdd(tid)), me, used, failed)
  {
    hide KeyOf, BlockedKeys, MadeBy;
  }

  lemma LookSince(s: State, t: State, me: nat, used: set<nat>, failed: set<nat>, tid: nat) returns (after: set<nat>)
    requires Since(s, t, me, used, failed) && CallersOk(t)
    ensures Since(s, Next(t, NewGet(tid)), me, used, after)
  {
    after := failed;
    var hit := tid in t.callers && !t.callers[tid].free && KeyOf(t.callers[tid].raw) in t.entries;
    if hit && s.counter < t.callers[tid].raw {
      HitsBlocked(s, t, me, used, failed, tid);
      HitSince(s, t, me, used, failed, tid);
      after := failed + {t.callers[tid].raw};
    } else {
      MissSince(s, t, me, used, failed, tid);
    }
  }

  /** A number drawn since the start has hit a used key. */
  lemma HitSince(s: State, t: State, me: nat, used: set<nat>, failed: set<nat>, tid: nat)
    requires Since(s, t, me, used, failed) && CallersOk(t)
    requires tid in t.callers && !t.callers[tid].free && s.counter < t.callers[tid].raw
    requires KeyOf(t.callers[tid].raw) in t.entries && KeyOf(t.callers[tid].raw) in BlockedKeys(s)
    ensures Since(s, Next(t, NewGet(tid)), me, used, failed + {t.callers[tid].raw})
  {
    hide KeyOf, BlockedKeys, MadeBy;
    var raw := t.callers[tid].raw;
    assert raw !in used + failed;
    assert used + (failed + {raw}) == used + failed + {raw};
  }

  lemma MissSince(s: State, t: State, me: nat, used: set<nat>, failed: set<nat>, tid: nat)
    requires Since(s, t, me, used, failed)
    requires tid in t.callers && !t.callers[tid].free && KeyOf(t.callers[tid].raw) in t.entries ==>
               t.callers[tid].raw <= s.counter
    ensures Since(s, Next(t, NewGet(tid)), me, used, failed)
  {
    hide KeyOf, BlockedKeys, MadeBy;
  }

  lemma StoreSince(s: State, t: State, me: nat, used: set<nat>, failed: set<nat>, tid: nat, now: int)
    returns (after: set<nat>)
    requires Since(s, t, me, used, failed) && CallersOk(t)
    ensures Since(s, Next(t, NewSet(tid, now)), me, after, failed)
  {
    after := used;
    if Next(t, NewSet(tid, now)) != t {
      var raw := t.callers[tid].raw;
      if s.counter < raw {
        after := used + {raw};
        MoreUsed(used, raw);
      } else {
        assert KeyOf(raw) in BlockedKeys(s);
      }
    }
    hide KeyOf, BlockedKeys, MadeBy;
  }

  lemma MoreUsed(used: set<nat>, raw: nat)
    ensures forall k :: MadeBy(used, k) ==> MadeBy(used + {raw}, k)
    ensures MadeBy(used + {raw}, KeyOf(raw))
  {
    assert raw in used + {raw};
    forall k | MadeBy(used, k)
      ensures MadeBy(used + {raw}, k)
    {
      var r :| r in used && KeyOf(r) == k;
      assert r in used + {raw};
    }
  }

  lemma OtherSince(s: State, t: State, me: nat, used: set<nat>, failed: set<nat>, e: Event)
    requires Since(s, t, me, used, failed) && !e.NewAdd? && !e.NewGet? && !e.NewSet?
    ensures Since(s, Next(t, e), me, used, failed)
  {
    hide KeyOf, BlockedKeys, MadeBy;
  }

  lemma {:induction false} Follow(s: State, events: seq<Event>, me: nat) returns (used: set<nat>, failed: set<nat>)
    requires Inv(s) && me !in s.callers && me !in s.tries && Run(s, events).counter < s.counter + KEYS
    ensures Since(s, Run(s, events), me, used, failed)
  {
    hide Inv, Since, Next;
    if events == [] {
      used, failed := {}, {};
      SinceStart(s, me);
    } else {
      var t, e := Run(s, events[..|events| - 1]), events[|events| - 1];
      CounterGrows(t, e);
      used, failed := Follow(s, events[..|events| - 1], me);
      RunFromKeepsInv(s, events[..|events| - 1]);
      CallersAreOk(t);
      match e
      case NewAdd(tid) => DrawSince(s, t, me, used, failed, tid);
      case NewGet(tid) => failed := LookSince(s, t, me, used, failed, tid);
      case NewSet(tid, now) => used := StoreSince(s, t, me, used, failed, tid, now);
      case _ => OtherSince(s, t, me, used, failed, e);
    }
  }

  lemma SinceStart(s: State, me: nat)
    requires me !in s.callers && me !in s.tries
    ensures Since(s, s, me, {}, {})
  {
  }

  lemma CounterGrows(t: State, e: Event)
    ensures t.counter <= Next(t, e).counter
  {
  }

  lemma CallersAreOk(t: State)
    requires Inv(t)
    ensures CallersOk(t)
  {
  }

  /**
   However other goroutines, repliers and the sweeper interleave with it, a call of `New` hits a used key at
   most as often as there were entries and pending calls when it began, as long as the counter has not gone
   all the way round since.
   */
  lemma FewRetries(before: seq<Event>, events: seq<Event>, me: nat)
    ensures var s := Run(INIT, before); var t := Run(s, events);
      me !in s.callers && me !in s.tries && t.counter < s.counter + KEYS && me in t.tries ==>
        t.tries[me] <= |s.entries| + |s.callers|
  {
    hide Inv, Since, Next, Run;
    var s := Run(INIT, before);
    if me !in s.callers && me !in s.tries && Run(s, events).counter < s.counter + KEYS {
      RunKeepsInv(before);
      var used, failed := Follow(s, events, me);
      SinceBound(s, Run(s, events), me, used, failed);
    }
  }

  lemma SinceBound(s: State, t: State, me: nat, used: set<nat>, failed: set<nat>)
    requires Since(s, t, me, used, failed)
    ensures me in t.tries ==> t.tries[me] <= |s.entries| + |s.callers|
  {
    hide KeyOf, BlockedKeys, MadeBy;
    assert forall r :: r in failed ==> r in used + failed;
    NumbersFit(failed, BlockedKeys(s), s.counter);
    BlockedSize(s);
  }

  /** So a call that has failed that often finds its next key unused. */
  lemma NextTryIsFree(before: seq<Event>, events: seq<Event>, me: nat)
    requires var s := Run(INIT, before); var t := Run(s, events);
      && me !in s.callers && me !in s.tries && t.counter < s.counter + KEYS
      && me in t.callers && !t.callers[me].free && Tries(t, me) == |s.entries| + |s.callers|
    ensures var t := Run(Run(INIT, before), events);
      && KeyOf(t.callers[me].raw) !in t.entries
      && Next(t, NewGet(me)).callers == t.callers[me := Caller(t.callers[me].raw, true)]
  {
    var s := Run(INIT, before);
    var t := Run(s, events);
    assert (events + [NewGet(me)])[..|events|] == events;
    if KeyOf(t.callers[me].raw) in t.entries {
      FewRetries(before, events + [NewGet(me)], me);
    }
  }
}
