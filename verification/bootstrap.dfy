/**
 Bootstrap convergence of `dht/server/bootstrap.go`: rounds of up to three concurrent find_node
 queries to the closest known nodes. Within a round the workers' atomic actions interleave in any
 order, and replies are arbitrary.
 */
module Bootstrap {

  import opened Common
  import opened NodeIds
  import opened Buckets
  import opened Nearest

  const ALPHA: nat := 3
  const K: nat := 8

  /** An entry object; the shared map refers to it by its position in `heap`. */
  datatype Entry = Entry(id: NodeId, queried: bool)

  /**
   A goroutine of the round: the entry it queries, whether its reply has arrived, what the reply named, which
   of that it still has to add, and whether it has already seen that the first of these is missing.
   */
  datatype Worker = Worker(entry: nat, answered: bool, found: seq<NodeId>, todo: seq<NodeId>, missing: bool)

  datatype State = State(heap: seq<Entry>, entries: map<NodeId, nat>, workers: seq<Worker>)

  datatype Event =
    | Answer(w: nat, found: seq<NodeId>)   // the query returns; an error finds nothing
    | Check(w: nat)                        // `add`: Get
    | Store(w: nat)                        // `add`: Set

  function Step(s: State, e: Event): State {
    if e.w >= |s.workers| then s
    else
      var me := s.workers[e.w];
      match e
      case Answer(w, found) =>
        if me.answered || me.entry >= |s.heap| then s
        else s.(heap := s.heap[me.entry := s.heap[me.entry].(queried := true)],
                workers := s.workers[w := me.(answered := true, found := found, todo := found)])
      case Check(w) =>
        if !me.answered || me.todo == [] || me.missing then s
        else if me.todo[0] in s.entries then s.(workers := s.workers[w := me.(todo := me.todo[1..])])
        else s.(workers := s.workers[w := me.(missing := true)])
      case Store(w) =>
        if !me.missing || me.todo == [] then s
        else s.(heap := s.heap + [Entry(me.todo[0], false)], entries := s.entries[me.todo[0] := |s.heap|],
                workers := s.workers[w := me.(todo := me.todo[1..], missing := false)])
  }

  function Steps(s: State, events: seq<Event>): State {
    if events == [] then s else Step(Steps(s, events[..|events| - 1]), events[|events| - 1])
  }

  predicate Done(me: Worker) {
    me.answered && me.todo == []
  }

  // ----- invariants

  /** Every key leads to an entry object for that key. */
  predicate MapOk(s: State) {
    forall id :: id in s.entries ==> s.entries[id] < |s.heap| && s.heap[s.entries[id]].id == id
  }

  predicate IsQueried(s: State, id: NodeId) {
    id in s.entries && s.entries[id] < |s.heap| && s.heap[s.entries[id]].queried
  }

  function QueriedIds(s: State): set<NodeId> {
    set id | id in s.entries && IsQueried(s, id)
  }

  /** Worker `w` of a round over `asked` queries the entry that `asked[w]` had when the round began. */
  predicate WorkerOk(b: State, s: State, id: NodeId, me: Worker) {
    && id in b.entries && me.entry == b.entries[id] < |s.heap|
    && (me.answered <==> s.heap[me.entry].queried)
    && (!me.answered ==> me.found == [] && me.todo == [] && !me.missing)
    && (forall x :: x in me.found ==> x in me.todo || x in s.entries)
    && (forall x :: x in me.todo ==> x in me.found)
    && (me.missing ==> me.todo != [] && me.todo[0] !in b.entries)
  }

  /** The state `s` in the middle of the round that began in `b` and queries `asked`. */
  predicate RoundInv(b: State, asked: seq<NodeId>, s: State) {
    && MapOk(b) && MapOk(s) && Distinct(asked) && |b.heap| <= |s.heap|
    && |s.workers| == |asked|
    && (forall id :: id in b.entries ==> id in s.entries && s.entries[id] == b.entries[id])
    && (forall id :: id in b.entries && id !in asked ==> (IsQueried(s, id) <==> IsQueried(b, id)))
    && (forall id :: id in s.entries && id !in b.entries ==> !IsQueried(s, id))
    && (forall w :: 0 <= w < |asked| ==> WorkerOk(b, s, asked[w], s.workers[w]))
    && (forall id :: id in s.entries ==> id in b.entries || Named(s, id))
  }

  /** Some reply of the round has named `id`. */
  predicate Named(s: State, id: NodeId) {
    exists w :: 0 <= w < |s.workers| && id in s.workers[w].found
  }

  /** `convergeTable` starts a round: one worker for each entry to query. */
  function StartRound(s: State, asked: seq<NodeId>): State
    requires forall id :: id in asked ==> id in s.entries
  {
    s.(workers := seq(|asked|, w requires 0 <= w < |asked| => Worker(s.entries[asked[w]], false, [], [], false)))
  }

  lemma StartKeepsInv(s: State, asked: seq<NodeId>)
    requires MapOk(s) && Distinct(asked)
    requires forall id :: id in asked ==> id in s.entries && !IsQueried(s, id)
    ensures RoundInv(s, asked, StartRound(s, asked))
  {
    forall w | 0 <= w < |asked|
      ensures WorkerOk(s, StartRound(s, asked), asked[w], StartRound(s, asked).workers[w])
    {
      assert asked[w] in asked;
    }
  }

  lemma AnswerKeepsInv(b: State, asked: seq<NodeId>, s: State, e: Event)
    requires RoundInv(b, asked, s) && e.Answer?
    ensures RoundInv(b, asked, Step(s, e))
  {
    var u := Step(s, e);
    if u != s {
      AnswerNames(b, asked, s, e);
      AnswerQueries(b, asked, s, e);
      forall w | 0 <= w < |asked|
        ensures WorkerOk(b, u, asked[w], u.workers[w])
      {
        AnswerWorker(b, asked, s, e, w);
      }
      AnswerMap(s, e);
      hide Named, IsQueried, WorkerOk, MapOk;
    }
  }

  lemma AnswerMap(s: State, e: Event)
    requires MapOk(s) && e.Answer?
    ensures MapOk(Step(s, e))
  {
  }

  lemma AnswerWorker(b: State, asked: seq<NodeId>, s: State, e: Event, w: nat)
    requires RoundInv(b, asked, s) && e.Answer? && Step(s, e) != s && w < |asked|
    ensures WorkerOk(b, Step(s, e), asked[w], Step(s, e).workers[w])
  {
    assert WorkerOk(b, s, asked[e.w], s.workers[e.w]) && WorkerOk(b, s, asked[w], s.workers[w]);
    hide Named, IsQueried;
    assert w != e.w ==> asked[w] != asked[e.w];
    assert w != e.w ==> b.entries[asked[w]] != b.entries[asked[e.w]];
  }

  lemma AnswerNames(b: State, asked: seq<NodeId>, s: State, e: Event)
    requires RoundInv(b, asked, s) && e.Answer? && Step(s, e) != s
    ensures forall id :: Named(s, id) ==> Named(Step(s, e), id)
  {
    assert WorkerOk(b, s, asked[e.w], s.workers[e.w]);
    forall id | Named(s, id)
      ensures Named(Step(s, e), id)
    {
      var w :| 0 <= w < |s.workers| && id in s.workers[w].found;
      assert w != e.w && Step(s, e).workers[w] == s.workers[w];
    }
  }

  lemma AnswerQueries(b: State, asked: seq<NodeId>, s: State, e: Event)
    requires RoundInv(b, asked, s) && e.Answer? && Step(s, e) != s
    ensures forall id :: id in s.entries && id != asked[e.w] ==> (IsQueried(Step(s, e), id) <==> IsQueried(s, id))
  {
    assert WorkerOk(b, s, asked[e.w], s.workers[e.w]);
    forall id | id in s.entries && id != asked[e.w]
      ensures IsQueried(Step(s, e), id) <==> IsQueried(s, id)
    {
      assert s.entries[id] != s.entries[asked[e.w]];
    }
  }

  lemma NamedStays(s: State, u: State)
    requires |u.workers| == |s.workers|
    requires forall w :: 0 <= w < |s.workers| ==> u.workers[w].found == s.workers[w].found
    ensures forall id :: Named(u, id) <==> Named(s, id)
  {
    forall id
      ensures Named(u, id) <==> Named(s, id)
    {
      if Named(s, id) {
        var w :| 0 <= w < |s.workers| && id in s.workers[w].found;
        assert id in u.workers[w].found;
      }
      if Named(u, id) {
        var w :| 0 <= w < |u.workers| && id in u.workers[w].found;
        assert id in s.workers[w].found;
      }
    }
  }

  /** A step that only moves one worker along has only it to account for. */
  lemma OnlyWorker(b: State, asked: seq<NodeId>, s: State, u: State, w: nat)
    requires RoundInv(b, asked, s) && w < |s.workers|
    requires |u.workers| == |s.workers| && u == s.(workers := s.workers[w := u.workers[w]])
    requires u.workers[w].found == s.workers[w].found && WorkerOk(b, u, asked[w], u.workers[w])
    ensures RoundInv(b, asked, u)
  {
    NamedStays(s, u);
    QueriedStays(s, u);
    hide Named, IsQueried, WorkerOk, MapOk;
    forall v | 0 <= v < |asked| && v != w
      ensures WorkerOk(b, u, asked[v], u.workers[v])
    {
      assert WorkerOk(b, s, asked[v], s.workers[v]);
      WorkerStays(b, s, u, asked[v], s.workers[v]);
    }
  }

  lemma QueriedStays(s: State, u: State)
    requires u.heap == s.heap && u.entries == s.entries
    ensures forall id :: IsQueried(u, id) <==> IsQueried(s, id)
    ensures MapOk(s) ==> MapOk(u)
  {
  }

  lemma WorkerStays(b: State, s: State, u: State, id: NodeId, me: Worker)
    requires WorkerOk(b, s, id, me) && u.heap == s.heap && u.entries == s.entries
    ensures WorkerOk(b, u, id, me)
  {
  }

  lemma CheckKeepsInv(b: State, asked: seq<NodeId>, s: State, e: Event)
    requires RoundInv(b, asked, s) && e.Check?
    ensures RoundInv(b, asked, Step(s, e))
  {
    var u := Step(s, e);
    if u != s {
      CheckedWorker(b, s, asked[e.w], e.w);
      hide RoundInv, WorkerOk;
      OnlyWorker(b, asked, s, u, e.w);
    }
  }

  lemma CheckedWorker(b: State, s: State, id: NodeId, w: nat)
    requires w < |s.workers| && WorkerOk(b, s, id, s.workers[w]) && Step(s, Check(w)) != s
    requires forall x :: x in b.entries ==> x in s.entries
    ensures WorkerOk(b, Step(s, Check(w)), id, Step(s, Check(w)).workers[w])
  {
    var me := s.workers[w];
    assert me.todo == [me.todo[0]] + me.todo[1..];
  }

  lemma StoreKeepsInv(b: State, asked: seq<NodeId>, s: State, e: Event)
    requires RoundInv(b, asked, s) && e.Store?
    ensures RoundInv(b, asked, Step(s, e))
  {
    var u := Step(s, e);
    if e.w < |s.workers| && s.workers[e.w].missing {
      NamedStays(s, u);
      var me := s.workers[e.w];
      assert WorkerOk(b, s, asked[e.w], me);
      forall w | 0 <= w < |asked|
        ensures WorkerOk(b, u, asked[w], u.workers[w])
      {
        assert WorkerOk(b, s, asked[w], s.workers[w]);
      }
      forall id | id in u.entries
        ensures IsQueried(u, id) <==> id != me.todo[0] && IsQueried(s, id)
      {
      }
    }
  }

  lemma StepKeepsInv(b: State, asked: seq<NodeId>, s: State, e: Event)
    requires RoundInv(b, asked, s)
    ensures RoundInv(b, asked, Step(s, e))
  {
    match e
    case Answer(_, _) => AnswerKeepsInv(b, asked, s, e);
    case Check(_) => CheckKeepsInv(b, asked, s, e);
    case Store(_) => StoreKeepsInv(b, asked, s, e);
  }

  // ----- what one round does

  /** `add` never overwrites a queried entry, even when two workers add the same identifier. */
  lemma StoreOverwritesNothingQueried(b: State, asked: seq<NodeId>, s: State, w: nat)
    requires RoundInv(b, asked, s)
    requires w < |s.workers| && s.workers[w].missing
    ensures s.workers[w].todo != [] && !IsQueried(s, s.workers[w].todo[0])
    ensures forall id :: id in b.entries ==>
              id in Step(s, Store(w)).entries && Step(s, Store(w)).entries[id] == b.entries[id]
  {
    StoreKeepsInv(b, asked, s, Store(w));
    assert WorkerOk(b, s, asked[w], s.workers[w]);
  }

  /** A reply arrives only for an entry that had not been queried before. */
  lemma AnswersOnce(b: State, asked: seq<NodeId>, s: State, w: nat)
    requires RoundInv(b, asked, s)
    requires w < |s.workers| && !s.workers[w].answered
    ensures !IsQueried(s, asked[w])
  {
    assert WorkerOk(b, s, asked[w], s.workers[w]);
  }

  predicate AllDone(s: State) {
    forall w :: 0 <= w < |s.workers| ==> Done(s.workers[w])
  }

  /** When every worker is done, exactly the entries asked have joined the queried ones. */
  lemma RoundQueries(b: State, asked: seq<NodeId>, s: State)
    requires RoundInv(b, asked, s) && AllDone(s)
    ensures QueriedIds(s) == QueriedIds(b) + Elements(asked)
  {
    forall w | 0 <= w < |asked|
      ensures IsQueried(s, asked[w])
    {
      assert WorkerOk(b, s, asked[w], s.workers[w]) && Done(s.workers[w]);
    }
    forall id
      ensures id in QueriedIds(s) <==> id in QueriedIds(b) + Elements(asked)
    {
      assert IsQueried(b, id) ==> id in b.entries;
    }
  }

  lemma OneMoreStep(s: State, events: seq<Event>, e: Event)
    ensures Steps(s, events + [e]) == Step(Steps(s, events), e)
  {
    assert (events + [e])[..|events|] == events;
  }

  predicate IsAnswer(e: Event, w: nat) {
    e.Answer? && e.w == w
  }

  /** The reply to worker `w` named `found`: the first answer it got, which is the only one that counts. */
  ghost predicate AnsweredWith(taken: seq<Event>, w: nat, found: seq<NodeId>) {
    exists i :: 0 <= i < |taken| && taken[i] == Answer(w, found) && forall j :: 0 <= j < i ==> !IsAnswer(taken[j], w)
  }

  /** Some reply to one of the first `n` workers named `id`. */
  ghost predicate Told(taken: seq<Event>, n: nat, id: NodeId) {
    exists w: nat, found: seq<NodeId> :: w < n && AnsweredWith(taken, w, found) && id in found
  }

  /** What a worker holds is what its reply named, as the events tell. */
  ghost predicate HoldsReply(taken: seq<Event>, w: nat, me: Worker) {
    if me.answered then AnsweredWith(taken, w, me.found)
    else forall j :: 0 <= j < |taken| ==> !IsAnswer(taken[j], w)
  }

  lemma FirstAnswerOnly(taken: seq<Event>, w: nat, found: seq<NodeId>, other: seq<NodeId>)
    requires AnsweredWith(taken, w, found) && AnsweredWith(taken, w, other)
    ensures found == other
  {
    var i :| 0 <= i < |taken| && taken[i] == Answer(w, found) && forall j :: 0 <= j < i ==> !IsAnswer(taken[j], w);
    var k :| 0 <= k < |taken| && taken[k] == Answer(w, other) && forall j :: 0 <= j < k ==> !IsAnswer(taken[j], w);
    assert IsAnswer(taken[i], w) && IsAnswer(taken[k], w);
  }

  lemma StillAnswered(taken: seq<Event>, e: Event, w: nat, found: seq<NodeId>)
    requires AnsweredWith(taken, w, found)
    ensures AnsweredWith(taken + [e], w, found)
  {
    var i :| 0 <= i < |taken| && taken[i] == Answer(w, found) && forall j :: 0 <= j < i ==> !IsAnswer(taken[j], w);
    assert (taken + [e])[i] == Answer(w, found);
    assert forall j :: 0 <= j < i ==> (taken + [e])[j] == taken[j];
  }

  lemma HoldsOneStep(b: State, asked: seq<NodeId>, s: State, taken: seq<Event>, e: Event, w: nat)
    requires RoundInv(b, asked, s) && w < |s.workers| && HoldsReply(taken, w, s.workers[w])
    ensures w < |Step(s, e).workers| && HoldsReply(taken + [e], w, Step(s, e).workers[w])
  {
    assert WorkerOk(b, s, asked[w], s.workers[w]);
    WorkerOneStep(s, e, w);
    hide RoundInv, WorkerOk, Step, AnsweredWith;
    if s.workers[w].answered {
      StillAnswered(taken, e, w, s.workers[w].found);
    } else if IsAnswer(e, w) {
      FirstAnswered(taken, w, e.found);
    } else {
      assert forall j :: 0 <= j < |taken| ==> (taken + [e])[j] == taken[j];
    }
  }

  lemma FirstAnswered(taken: seq<Event>, w: nat, found: seq<NodeId>)
    requires forall j :: 0 <= j < |taken| ==> !IsAnswer(taken[j], w)
    ensures AnsweredWith(taken + [Answer(w, found)], w, found)
  {
    assert (taken + [Answer(w, found)])[|taken|] == Answer(w, found);
    assert forall j :: 0 <= j < |taken| ==> (taken + [Answer(w, found)])[j] == taken[j];
  }

  lemma WorkerOneStep(s: State, e: Event, w: nat)
    requires w < |s.workers| && s.workers[w].entry < |s.heap|
    ensures w < |Step(s, e).workers|
    ensures var me, after := s.workers[w], Step(s, e).workers[w];
      if !me.answered && IsAnswer(e, w) then after.answered && after.found == e.found
      else after.answered == me.answered && after.found == me.found
  {
  }

  lemma {:induction false} WorkersHoldReplies(b: State, asked: seq<NodeId>, taken: seq<Event>)
    requires MapOk(b) && Distinct(asked) && forall id :: id in asked ==> id in b.entries && !IsQueried(b, id)
    ensures RoundInv(b, asked, Steps(StartRound(b, asked), taken))
    ensures var s := Steps(StartRound(b, asked), taken);
      |s.workers| == |asked| && forall w :: 0 <= w < |asked| ==> HoldsReply(taken, w, s.workers[w])
  {
    StartKeepsInv(b, asked);
    hide RoundInv, Step, HoldsReply;
    if taken == [] {
      NothingHeld(b, asked);
    } else {
      var before, e := taken[..|taken| - 1], taken[|taken| - 1];
      WorkersHoldReplies(b, asked, before);
      var s := Steps(StartRound(b, asked), before);
      StepKeepsInv(b, asked, s, e);
      assert taken == before + [e];
      forall w | 0 <= w < |asked|
        ensures w < |Step(s, e).workers| && HoldsReply(taken, w, Step(s, e).workers[w])
      {
        HoldsOneStep(b, asked, s, before, e, w);
      }
      OneEach(b, asked, Step(s, e));
    }
  }

  lemma NothingHeld(b: State, asked: seq<NodeId>)
    requires forall id :: id in asked ==> id in b.entries
    ensures |StartRound(b, asked).workers| == |asked|
    ensures forall w :: 0 <= w < |asked| ==> HoldsReply([], w, StartRound(b, asked).workers[w])
  {
  }

  lemma OneEach(b: State, asked: seq<NodeId>, s: State)
    requires RoundInv(b, asked, s)
    ensures |s.workers| == |asked|
  {
  }

  /** ... and exactly what the replies of the round named is now known, besides what was known before. */
  lemma RoundLearns(b: State, asked: seq<NodeId>, taken: seq<Event>, id: NodeId)
    requires MapOk(b) && Distinct(asked) && forall id :: id in asked ==> id in b.entries && !IsQueried(b, id)
    requires AllDone(Steps(StartRound(b, asked), taken))
    ensures id in Steps(StartRound(b, asked), taken).entries <==> id in b.entries || Told(taken, |asked|, id)
  {
    var s := Steps(StartRound(b, asked), taken);
    WorkersHoldReplies(b, asked, taken);
    hide Steps, AnsweredWith, IsQueried;
    if Named(s, id) {
      var w :| 0 <= w < |s.workers| && id in s.workers[w].found;
      assert WorkerOk(b, s, asked[w], s.workers[w]) && Done(s.workers[w]) && HoldsReply(taken, w, s.workers[w]);
    }
    if Told(taken, |asked|, id) {
      var w: nat, found: seq<NodeId> :| w < |asked| && AnsweredWith(taken, w, found) && id in found;
      assert WorkerOk(b, s, asked[w], s.workers[w]) && Done(s.workers[w]) && HoldsReply(taken, w, s.workers[w]);
      FirstAnswerOnly(taken, w, found, s.workers[w].found);
    }
  }

  /**
   One round: the steps of an arbitrary schedule, then those that take every unfinished worker to its end.
   `taken` are the steps in all.
   */
  method RunRound(b: State, asked: seq<NodeId>, events: seq<Event>) returns (s: State, ghost taken: seq<Event>)
    requires MapOk(b) && Distinct(asked)
    requires forall id :: id in asked ==> id in b.entries && !IsQueried(b, id)
    ensures RoundInv(b, asked, s) && AllDone(s)
    ensures events <= taken && s == Steps(StartRound(b, asked), taken)
    ensures forall id :: id in s.entries <==> id in b.entries || Told(taken, |asked|, id)
  {
    s, taken := StartRound(b, asked), [];
    StartKeepsInv(b, asked);
    hide RoundInv, Step, Told;
    for i := 0 to |events|
      invariant RoundInv(b, asked, s)
      invariant taken == events[..i] && s == Steps(StartRound(b, asked), taken)
    {
      StepKeepsInv(b, asked, s, events[i]);
      OneMoreStep(StartRound(b, asked), taken, events[i]);
      s, taken := Step(s, events[i]), taken + [events[i]];
    }
    var count := |s.workers|;
    for w := 0 to count
      invariant RoundInv(b, asked, s) && |s.workers| == count
      invariant events <= taken && s == Steps(StartRound(b, asked), taken)
      invariant forall v :: 0 <= v < w ==> Done(s.workers[v])
    {
      s, taken := FinishWorker(b, asked, s, w, taken);
    }
    forall id
      ensures id in s.entries <==> id in b.entries || Told(taken, |asked|, id)
    {
      RoundLearns(b, asked, taken, id);
    }
  }

  method FinishWorker(b: State, asked: seq<NodeId>, start: State, w: nat, ghost before: seq<Event>)
    returns (s: State, ghost taken: seq<Event>)
    requires RoundInv(b, asked, start) && w < |start.workers|
    requires forall id :: id in asked ==> id in b.entries
    requires start == Steps(StartRound(b, asked), before)
    ensures RoundInv(b, asked, s) && |s.workers| == |start.workers| && Done(s.workers[w])
    ensures before <= taken && s == Steps(StartRound(b, asked), taken)
    ensures forall v :: 0 <= v < |s.workers| && v != w ==> s.workers[v] == start.workers[v]
  {
    s, taken := start, before;
    hide RoundInv, WorkerOk, Steps;
    WorkerEntry(b, asked, s, w);
    if !s.workers[w].answered {
      StepKeepsInv(b, asked, s, Answer(w, []));
      OneMoreStep(StartRound(b, asked), taken, Answer(w, []));
      s, taken := Step(s, Answer(w, [])), taken + [Answer(w, [])];
    }
    while s.workers[w].todo != []
      invariant RoundInv(b, asked, s) && |s.workers| == |start.workers| && s.workers[w].answered
      invariant before <= taken && s == Steps(StartRound(b, asked), taken)
      invariant forall v :: 0 <= v < |s.workers| && v != w ==> s.workers[v] == start.workers[v]
      decreases |s.workers[w].todo|, if s.workers[w].missing then 0 else 1
    {
      var e := if s.workers[w].missing then Store(w) else Check(w);
      StepKeepsInv(b, asked, s, e);
      OneMoreStep(StartRound(b, asked), taken, e);
      s, taken := Step(s, e), taken + [e];
    }
  }

  lemma WorkerEntry(b: State, asked: seq<NodeId>, s: State, w: nat)
    requires RoundInv(b, asked, s) && w < |s.workers|
    ensures s.workers[w].entry < |s.heap|
  {
    assert WorkerOk(b, s, asked[w], s.workers[w]);
  }

  // ----- convergence

  /** The identifiers not yet queried, in order. */
  function Unqueried(s: State, ids: seq<NodeId>): seq<NodeId> {
    if ids == [] then []
    else Unqueried(s, ids[..|ids| - 1]) + if IsQueried(s, ids[|ids| - 1]) then [] else [ids[|ids| - 1]]
  }

  lemma {:induction false} UnqueriedMembers(s: State, ids: seq<NodeId>)
    ensures forall id :: id in Unqueried(s, ids) <==> id in ids && !IsQueried(s, id)
  {
    if ids != [] {
      UnqueriedMembers(s, ids[..|ids| - 1]);
      assert ids == ids[..|ids| - 1] + [ids[|ids| - 1]];
    }
  }

  lemma {:induction false} UnqueriedAscending(s: State, self: NodeId, ids: seq<NodeId>)
    requires Ascending(self, ids)
    ensures Ascending(self, Unqueried(s, ids))
  {
    if ids != [] {
      var init, last := ids[..|ids| - 1], ids[|ids| - 1];
      UnqueriedAscending(s, self, init);
      UnqueriedMembers(s, init);
      forall j | 0 <= j < |Unqueried(s, init)|
        ensures Dist(self, Unqueried(s, init)[j]) < Dist(self, last)
      {
        assert Unqueried(s, init)[j] in init;
        var p :| 0 <= p < |init| && init[p] == Unqueried(s, init)[j];
        assert ids[p] == init[p];
      }
    }
  }

  lemma UnqueriedNext(s: State, ids: seq<NodeId>, i: nat)
    requires i < |ids|
    ensures Unqueried(s, ids[..i + 1]) == Unqueried(s, ids[..i]) + if IsQueried(s, ids[i]) then [] else [ids[i]]
  {
    assert ids[..i + 1][..i] == ids[..i];
  }

  lemma {:induction false} UnqueriedPrefix(s: State, ids: seq<NodeId>, i: nat)
    requires i <= |ids|
    ensures Unqueried(s, ids[..i]) <= Unqueried(s, ids)
    decreases |ids| - i
  {
    if i < |ids| {
      UnqueriedNext(s, ids, i);
      UnqueriedPrefix(s, ids, i + 1);
    } else {
      assert ids[..i] == ids;
    }
  }

  /** Whom a round asks: of the unqueried among the eight closest entries, the three closest. */
  ghost predicate RightChoice(s: State, self: NodeId, asked: seq<NodeId>) {
    && Ascending(self, asked)
    && forall c: set<NodeId> :: IsNearest(self, s.entries.Keys, c, 8) ==>
         IsNearest(self, c - QueriedIds(s), Elements(asked), 3)
  }

  /** `closestUnqueried` */
  method ClosestUnqueried(s: State, self: NodeId) returns (asked: seq<NodeId>)
    requires MapOk(s)
    ensures RightChoice(s, self, asked) && Distinct(asked)
    ensures forall id :: id in asked ==> id in s.entries && !IsQueried(s, id)
  {
    hide Unqueried, IsNearest;
    var ids := SortIds(s.entries.Keys, self);
    var limit := Min(K, |ids|);
    asked := [];
    var i := 0;
    NoneUnqueried(s, ids);
    while i < limit && |asked| < ALPHA
      invariant 0 <= i <= limit && |asked| <= ALPHA
      invariant asked == Unqueried(s, ids[..i])
    {
      UnqueriedNext(s, ids, i);
      KnownId(ids, i);
      if !s.heap[s.entries[ids[i]]].queried {
        asked := asked + [ids[i]];
      }
      i := i + 1;
    }
    ChoiceIsRight(s, self, ids, i, asked);
  }

  lemma NoneUnqueried(s: State, ids: seq<NodeId>)
    ensures Unqueried(s, ids[..0]) == []
  {
  }

  lemma KnownId(ids: seq<NodeId>, i: nat)
    requires i < |ids|
    ensures ids[i] in Elements(ids)
  {
  }

  lemma ChoiceIsRight(s: State, self: NodeId, ids: seq<NodeId>, i: nat, asked: seq<NodeId>)
    requires MapOk(s) && Ascending(self, ids) && Elements(ids) == s.entries.Keys
    requires i <= Min(K, |ids|) && |asked| <= ALPHA && asked == Unqueried(s, ids[..i])
    requires i == Min(K, |ids|) || |asked| == ALPHA
    ensures RightChoice(s, self, asked) && Distinct(asked)
    ensures forall id :: id in asked ==> id in s.entries && !IsQueried(s, id)
  {
    hide Unqueried, IsNearest, QueriedIds, Distinct, Elements, Ascending, MapOk;
    var first := ids[..Min(K, |ids|)];
    var open := Unqueried(s, first);
    assert first[..i] == ids[..i];
    UnqueriedPrefix(s, first, i);
    AscendingPrefix(self, ids, Min(K, |ids|));
    UnqueriedAscending(s, self, first);
    UnqueriedMembers(s, first);
    assert asked == open[..Min(ALPHA, |open|)];
    AscendingPrefix(self, open, Min(ALPHA, |open|));
    PrefixIsNearest(self, open, ALPHA);
    PrefixIsNearest(self, ids, K);
    FirstAreKnown(s, ids, first, open);
    forall c: set<NodeId> | IsNearest(self, s.entries.Keys, c, K)
      ensures IsNearest(self, c - QueriedIds(s), Elements(asked), ALPHA)
    {
      NearestIsUnique(self, s.entries.Keys, c, Elements(first), K);
    }
    AscendingIsDistinct(self, asked);
  }

  lemma AscendingPrefix(self: NodeId, ids: seq<NodeId>, n: nat)
    requires Ascending(self, ids) && n <= |ids|
    ensures Ascending(self, ids[..n])
  {
  }

  lemma FirstAreKnown(s: State, ids: seq<NodeId>, first: seq<NodeId>, open: seq<NodeId>)
    requires Elements(ids) == s.entries.Keys && first <= ids
    requires forall id :: id in open <==> id in first && !IsQueried(s, id)
    ensures Elements(open) == Elements(first) - QueriedIds(s)
    ensures forall id :: id in open ==> id in s.entries
  {
    forall id | id in first
      ensures id in s.entries
    {
      assert id in ids && id in Elements(ids);
    }
    forall id
      ensures id in Elements(open) <==> id in Elements(first) - QueriedIds(s)
    {
      assert id in Elements(open) <==> id in open;
      assert id in Elements(first) <==> id in first;
    }
  }

  lemma AscendingIsDistinct(self: NodeId, ids: seq<NodeId>)
    requires Ascending(self, ids)
    ensures Distinct(ids)
  {
  }

  lemma {:induction false} FiniteSpace(ids: set<NodeId>, n: nat)
    requires forall id :: id in ids ==> Val(id) < n
    ensures |ids| <= n
  {
    if ids == {} {
      return;
    }
    var some :| some in ids;
    assert Val(some) < n;
    if id :| id in ids && Val(id) == n - 1 {
      forall x | x in ids - {id}
        ensures Val(x) < n - 1
      {
        if Val(x) == Val(id) {
          ValInjective(x, id);
        }
      }
      FiniteSpace(ids - {id}, n - 1);
    } else {
      FiniteSpace(ids, n - 1);
    }
  }

  lemma {:induction false} DistinctCount(ids: seq<NodeId>)
    requires Distinct(ids)
    ensures |Elements(ids)| == |ids|
  {
    if ids != [] {
      var init := ids[..|ids| - 1];
      DistinctCount(init);
      assert Elements(ids) == Elements(init) + {ids[|ids| - 1]};
    }
  }

  lemma SentFits(sent: seq<NodeId>)
    requires Distinct(sent)
    ensures |sent| <= Pow2(ID_BITS)
  {
    DistinctCount(sent);
    forall id | id in Elements(sent)
      ensures Val(id) < Pow2(ID_BITS)
    {
      TopBound(id, ID_BITS);
    }
    FiniteSpace(Elements(sent), Pow2(ID_BITS));
  }

  /** Whom a round asked, and the atomic steps it took. */
  datatype Round = Round(asked: seq<NodeId>, taken: seq<Event>)

  function Asked(rounds: seq<Round>): seq<NodeId> {
    if rounds == [] then [] else Asked(rounds[..|rounds| - 1]) + rounds[|rounds| - 1].asked
  }

  /** One complete round from `b` to `s`: the right entries, the scheduled steps and more, all workers finished. */
  ghost predicate RoundOk(self: NodeId, b: State, scheduled: seq<Event>, r: Round, s: State) {
    && RightChoice(b, self, r.asked) && RoundInv(b, r.asked, s) && AllDone(s)
    && (forall id :: id in r.asked ==> id in b.entries)
    && scheduled <= r.taken && s == Steps(StartRound(b, r.asked), r.taken)
    && (forall id :: id in s.entries <==> id in b.entries || Told(r.taken, |r.asked|, id))
    && QueriedIds(s) == QueriedIds(b) + Elements(r.asked)
  }

  /** The rounds, and the states between them from the first to the last. */
  ghost predicate History(self: NodeId, schedule: (nat, State) -> seq<Event>, states: seq<State>, rounds: seq<Round>) {
    && |states| == |rounds| + 1
    && forall i :: 0 <= i < |rounds| ==> RoundOk(self, states[i], schedule(i, states[i]), rounds[i], states[i + 1])
  }

  lemma HistoryGrows(self: NodeId, schedule: (nat, State) -> seq<Event>, states: seq<State>, rounds: seq<Round>,
                     r: Round, s: State)
    requires History(self, schedule, states, rounds)
    requires RoundOk(self, states[|rounds|], schedule(|rounds|, states[|rounds|]), r, s)
    ensures History(self, schedule, states + [s], rounds + [r])
    ensures Asked(rounds + [r]) == Asked(rounds) + r.asked
  {
    hide RoundOk;
    assert (rounds + [r])[..|rounds|] == rounds;
  }

  lemma NothingToAsk(s: State, self: NodeId, c: set<NodeId>)
    requires RightChoice(s, self, []) && IsNearest(self, s.entries.Keys, c, K)
    ensures c <= QueriedIds(s)
  {
    var open := c - QueriedIds(s);
    assert IsNearest(self, open, Elements([]), ALPHA);
    assert Elements([]) == {} && |open| == 0;
    forall x | x in c
      ensures x in QueriedIds(s)
    {
      assert x !in open;
    }
  }

  /**
   `convergeTable` ends for any replies and any interleaving: every round queries identifiers never
   queried before, and there are only 2^160 of them. Each round asks the closest three open ones of the eight
   closest entries and adds to the entries exactly what its replies name. On exit the eight closest known entries
   have all been queried, and no identifier was queried twice.
   */
  method ConvergeTable(start: State, self: NodeId, schedule: (nat, State) -> seq<Event>)
    returns (s: State, sent: seq<NodeId>, ghost states: seq<State>, ghost rounds: seq<Round>)
    requires MapOk(start) && QueriedIds(start) == {}
    ensures MapOk(s) && Distinct(sent) && Elements(sent) == QueriedIds(s) && sent == Asked(rounds)
    ensures History(self, schedule, states, rounds) && states[0] == start && states[|rounds|] == s
    ensures forall c: set<NodeId> :: IsNearest(self, s.entries.Keys, c, 8) ==> c <= QueriedIds(s)
  {
    hide RoundInv, RightChoice, IsNearest, QueriedIds, Elements, Distinct, Steps, AllDone, Told;
    s, sent, states, rounds := start, [], [start], [];
    NothingSent(start);
    var round := 0;
    while true
      invariant MapOk(s) && Distinct(sent) && Elements(sent) == QueriedIds(s) && sent == Asked(rounds)
      invariant |rounds| == round && History(self, schedule, states, rounds) && states[0] == start && states[|rounds|] == s
      decreases Pow2(ID_BITS) - |sent|
    {
      var toQuery := ClosestUnqueried(s, self);
      if |toQuery| == 0 {
        break;
      }
      var next, taken := RunRound(s, toQuery, schedule(round, s));
      RoundQueries(s, toQuery, next);
      SentGrows(s, sent, toQuery);
      SentFits(sent + toQuery);
      HistoryGrows(self, schedule, states, rounds, Round(toQuery, taken), next);
      MapStaysOk(s, toQuery, next);
      states, rounds := states + [next], rounds + [Round(toQuery, taken)];
      s, sent := next, sent + toQuery;
      round := round + 1;
    }
    forall c: set<NodeId> | IsNearest(self, s.entries.Keys, c, K)
      ensures c <= QueriedIds(s)
    {
      NothingToAsk(s, self, c);
    }
  }

  lemma NothingSent(start: State)
    requires QueriedIds(start) == {}
    ensures Distinct<NodeId>([]) && Elements([]) == QueriedIds(start)
  {
  }

  lemma MapStaysOk(b: State, asked: seq<NodeId>, s: State)
    requires RoundInv(b, asked, s)
    ensures MapOk(s)
  {
  }

  lemma SentGrows(s: State, sent: seq<NodeId>, asked: seq<NodeId>)
    requires Distinct(sent) && Distinct(asked) && Elements(sent) == QueriedIds(s)
    requires forall id :: id in asked ==> !IsQueried(s, id)
    ensures Distinct(sent + asked) && Elements(sent + asked) == Elements(sent) + Elements(asked)
  {
    var all := sent + asked;
    forall i, j | 0 <= i < j < |all|
      ensures all[i] != all[j]
    {
      if i < |sent| <= j {
        assert all[i] in Elements(sent) && all[j] in asked;
      }
    }
  }
}
