/**
 The per-address limiter of `dht/server/limiter.go` over the cache of `pkg/cache/cache.go`: calls of
 `Allow` by `w` query workers, interleaved step by step with each other and with the cleanup.
 */
module Limiter {

  import opened Common
  import opened NodeIds
  import opened Compact

  type Ip = seq<Byte>

  /** `limit` stands for maxSize, `ttl` for the cleanup age, `w` for the number of workers. */
  datatype Config = Config(limit: int, ttl: int, w: nat)

  /** Where a worker is in `Allow`: it found a client, it found none, or it also passed the size check. */
  datatype Worker = Found(client: nat) | Missed(key: Ip) | Passed(key: Ip)

  datatype Sweeper = Idle | Collecting(todo: set<Ip>, toDelete: set<Ip>) | Deleting(toDelete: set<Ip>)

  /** `lastSeen` holds the field of each client ever made; `entries` maps an address to its client. */
  datatype State = State(entries: map<Ip, nat>, lastSeen: seq<int>, workers: map<nat, Worker>, sweeper: Sweeper)

  datatype Event =
    | Get(tid: nat, ip: Ip)
    | Touch(tid: nat, now: int)
    | CheckSize(tid: nat)
    | Set(tid: nat, now: int)
    | SweepBegin
    | SweepVisit(key: Ip, now: int)
    | SweepUnlock
    | SweepDelete

  const INIT: State := State(map[], [], map[], Idle)

  /** `ip.String()`: an IPv4 address and its v4-in-v6 form have one name. */
  function KeyOf(ip: Ip): Ip {
    if To4(ip) != [] then To4(ip) else ip
  }

  /** One atomic step; an event that is not enabled changes nothing. */
  function Next(s: State, e: Event, cfg: Config): State {
    match e
    case Get(tid, ip) =>
      if tid >= cfg.w || tid in s.workers || |ip| == 0 then s
      else if KeyOf(ip) in s.entries then s.(workers := s.workers[tid := Found(s.entries[KeyOf(ip)])])
      else s.(workers := s.workers[tid := Missed(KeyOf(ip))])
    case Touch(tid, now) =>
      if tid !in s.workers || !s.workers[tid].Found? || s.workers[tid].client >= |s.lastSeen| then s
      else s.(lastSeen := s.lastSeen[s.workers[tid].client := now], workers := s.workers - {tid})
    case CheckSize(tid) =>
      if tid !in s.workers || !s.workers[tid].Missed? then s
      else if cfg.limit > 0 && |s.entries| >= cfg.limit then s.(workers := s.workers - {tid})
      else s.(workers := s.workers[tid := Passed(s.workers[tid].key)])
    case Set(tid, now) =>
      if tid !in s.workers || !s.workers[tid].Passed? || s.sweeper.Collecting? then s
      else s.(entries := s.entries[s.workers[tid].key := |s.lastSeen|], lastSeen := s.lastSeen + [now],
              workers := s.workers - {tid})
    case SweepBegin =>
      if s.sweeper.Idle? then s.(sweeper := Collecting(s.entries.Keys, {})) else s
    case SweepVisit(key, now) =>
      if !s.sweeper.Collecting? || key !in s.sweeper.todo || key !in s.entries || s.entries[key] >= |s.lastSeen| then s
      else
        var expired := now - s.lastSeen[s.entries[key]] > cfg.ttl;
        s.(sweeper := Collecting(s.sweeper.todo - {key}, s.sweeper.toDelete + if expired then {key} else {}))
    case SweepUnlock =>
      if !s.sweeper.Collecting? || s.sweeper.todo != {} then s
      else s.(sweeper := if s.sweeper.toDelete == {} then Idle else Deleting(s.sweeper.toDelete))
    case SweepDelete =>
      if !s.sweeper.Deleting? then s
      else s.(entries := s.entries - s.sweeper.toDelete, sweeper := Idle)
  }

  function Run(es: seq<Event>, cfg: Config): State {
    if es == [] then INIT else Next(Run(es[..|es| - 1], cfg), es[|es| - 1], cfg)
  }

  // ----- the bound

  /** The workers that are about to add an entry. */
  function Passing(s: State): set<nat> {
    set tid | tid in s.workers && s.workers[tid].Passed?
  }

  ghost predicate Inv(s: State, cfg: Config) {
    && (forall tid :: tid in s.workers ==> tid < cfg.w)
    && |s.entries| + |Passing(s)| <= cfg.limit + cfg.w - 1
  }

  lemma {:induction false} BelowSize(ts: set<nat>, w: nat)
    requires forall t :: t in ts ==> t < w
    ensures |ts| <= w
  {
    if w == 0 {
      assert ts == {};
    } else {
      BelowSize(ts - {w - 1}, w - 1);
    }
  }

  lemma SetSize(m: map<Ip, nat>, k: Ip, v: nat)
    ensures |m[k := v]| <= |m| + 1
    ensures k !in m ==> |m[k := v]| == |m| + 1
  {
    assert m[k := v].Keys == m.Keys + {k};
    assert |m| == |m.Keys| && |m[k := v]| == |m[k := v].Keys|;
  }

  lemma DeleteSize(m: map<Ip, nat>, ks: set<Ip>)
    ensures |m - ks| <= |m|
  {
    assert |m| == |m.Keys| && |m - ks| == |(m - ks).Keys|;
    SubsetSize((m - ks).Keys, m.Keys);
  }

  /** The steps of a worker change the count only as the size check and the insertion do. */
  lemma CheckKeepsInv(s: State, tid: nat, cfg: Config)
    requires Inv(s, cfg) && cfg.limit > 0
    ensures Inv(Next(s, CheckSize(tid), cfg), cfg)
  {
    var t := Next(s, CheckSize(tid), cfg);
    if t != s {
      BelowSize(Passing(t), cfg.w);
      if |s.entries| >= cfg.limit {
        assert Passing(t) == Passing(s);
      }
    }
  }

  lemma SetKeepsInv(s: State, tid: nat, now: int, cfg: Config)
    requires Inv(s, cfg)
    ensures Inv(Next(s, Set(tid, now), cfg), cfg)
  {
    var t := Next(s, Set(tid, now), cfg);
    if t != s {
      SetPasses(s, tid, now, cfg);
      SetSize(s.entries, s.workers[tid].key, |s.lastSeen|);
    }
    hide Passing, KeyOf;
  }

  lemma SetPasses(s: State, tid: nat, now: int, cfg: Config)
    ensures var t := Next(s, Set(tid, now), cfg);
      t != s ==> |Passing(s)| == |Passing(t)| + 1
  {
    hide KeyOf;
    var t := Next(s, Set(tid, now), cfg);
    if t != s {
      assert Passing(s) == Passing(t) + {tid};
    }
  }

  lemma SweepKeepsInv(s: State, cfg: Config)
    requires Inv(s, cfg)
    ensures Inv(Next(s, SweepDelete, cfg), cfg)
  {
    if s.sweeper.Deleting? {
      DeleteSize(s.entries, s.sweeper.toDelete);
    }
    assert Passing(Next(s, SweepDelete, cfg)) == Passing(s);
  }

  lemma GetKeepsInv(s: State, tid: nat, ip: Ip, cfg: Config)
    requires Inv(s, cfg)
    ensures Inv(Next(s, Get(tid, ip), cfg), cfg)
  {
    hide KeyOf;
    assert Passing(Next(s, Get(tid, ip), cfg)) == Passing(s);
  }

  lemma TouchKeepsInv(s: State, tid: nat, now: int, cfg: Config)
    requires Inv(s, cfg)
    ensures Inv(Next(s, Touch(tid, now), cfg), cfg)
  {
    assert Passing(Next(s, Touch(tid, now), cfg)) == Passing(s);
  }

  lemma CollectKeepsInv(s: State, e: Event, cfg: Config)
    requires Inv(s, cfg) && (e.SweepBegin? || e.SweepVisit? || e.SweepUnlock?)
    ensures Inv(Next(s, e, cfg), cfg)
  {
    assert Next(s, e, cfg).workers == s.workers;
  }

  lemma NextKeepsInv(s: State, e: Event, cfg: Config)
    requires Inv(s, cfg) && cfg.limit > 0
    ensures Inv(Next(s, e, cfg), cfg)
  {
    hide Next, Inv;
    match e
    case Get(tid, ip) => GetKeepsInv(s, tid, ip, cfg);
    case Touch(tid, now) => TouchKeepsInv(s, tid, now, cfg);
    case CheckSize(tid) => CheckKeepsInv(s, tid, cfg);
    case Set(tid, now) => SetKeepsInv(s, tid, now, cfg);
    case SweepDelete => SweepKeepsInv(s, cfg);
    case _ => CollectKeepsInv(s, e, cfg);
  }

  lemma {:induction false} RunKeepsInv(es: seq<Event>, cfg: Config)
    requires cfg.limit > 0 && cfg.w > 0
    ensures Inv(Run(es, cfg), cfg)
  {
    if es == [] {
      assert Passing(INIT) == {};
    } else {
      RunKeepsInv(es[..|es| - 1], cfg);
      NextKeepsInv(Run(es[..|es| - 1], cfg), es[|es| - 1], cfg);
    }
  }

  /** Without a positive limit the size check lets everyone pass. */
  lemma NoLimit(s: State, tid: nat, cfg: Config)
    requires cfg.limit <= 0 && tid in s.workers && s.workers[tid].Missed?
    ensures Next(s, CheckSize(tid), cfg) == s.(workers := s.workers[tid := Passed(s.workers[tid].key)])
  {
  }

  // ----- what the cleanup removes

  /** One name for the two forms of an IPv4 address. */
  lemma OneName(ip4: Ip)
    requires |ip4| == 4
    ensures KeyOf(V4_PREFIX + ip4) == KeyOf(ip4) == ip4
  {
    assert (V4_PREFIX + ip4)[..12] == V4_PREFIX && (V4_PREFIX + ip4)[12..] == ip4;
  }

  predicate IdleVisit(s: State, e: Event, key: Ip, cfg: Config) {
    && e.SweepVisit? && e.key == key && key in s.entries && s.entries[key] < |s.lastSeen|
    && e.now - s.lastSeen[s.entries[key]] > cfg.ttl
  }

  /** Some visit of the cleanup found the client of `key` unseen for longer than the age allowed. */
  ghost predicate FoundIdle(es: seq<Event>, key: Ip, cfg: Config) {
    exists i :: 0 <= i < |es| && IdleVisit(Run(es[..i], cfg), es[i], key, cfg)
  }

  predicate Condemned(w: Sweeper, key: Ip) {
    !w.Idle? && key in w.toDelete
  }

  lemma CondemnedOneStep(s: State, e: Event, key: Ip, cfg: Config)
    requires Condemned(Next(s, e, cfg).sweeper, key)
    ensures Condemned(s.sweeper, key) || IdleVisit(s, e, key, cfg)
  {
    hide KeyOf;
  }

  /** The cleanup deletes no address that it has not found idle. */
  lemma {:induction false} OnlyIdleAreDeleted(es: seq<Event>, key: Ip, cfg: Config)
    requires Condemned(Run(es, cfg).sweeper, key)
    ensures FoundIdle(es, key, cfg)
  {
    if es != [] {
      var before, e := es[..|es| - 1], es[|es| - 1];
      CondemnedOneStep(Run(before, cfg), e, key, cfg);
      hide Next, Condemned, IdleVisit;
      if IdleVisit(Run(before, cfg), e, key, cfg) {
        assert IdleVisit(Run(es[..|es| - 1], cfg), es[|es| - 1], key, cfg);
      } else {
        OnlyIdleAreDeleted(before, key, cfg);
        var i :| 0 <= i < |before| && IdleVisit(Run(before[..i], cfg), before[i], key, cfg);
        assert before[..i] == es[..i] && before[i] == es[i];
      }
    }
  }

  /** An address leaves the map only when the cleanup deletes what it has collected. */
  lemma OnlyCleanupRemoves(s: State, e: Event, key: Ip, cfg: Config)
    requires key in s.entries && key !in Next(s, e, cfg).entries
    ensures e.SweepDelete? && Condemned(s.sweeper, key)
  {
    hide KeyOf;
  }

  // ----- the bound is reached

  /** Non-empty addresses with different names. */
  ghost predicate DistinctAddresses(ips: seq<Ip>) {
    && (forall i :: 0 <= i < |ips| ==> |ips[i]| > 0)
    && (forall i, j :: 0 <= i < j < |ips| ==> KeyOf(ips[i]) != KeyOf(ips[j]))
  }

  function Keys(ips: seq<Ip>): set<Ip> {
    if ips == [] then {} else Keys(ips[..|ips| - 1]) + {KeyOf(ips[|ips| - 1])}
  }

  /** The first `n` addresses enter one after the other; then `j` workers pass the check together. */
  function Crowd(ips: seq<Ip>, n: nat, j: nat): seq<Event>
    requires n + j <= |ips|
    decreases j, n
  {
    if j > 0 then Crowd(ips, n, j - 1) + [Get(j - 1, ips[n + j - 1])] + [CheckSize(j - 1)]
    else if n > 0 then Crowd(ips, n - 1, 0) + [Get(0, ips[n - 1])] + [CheckSize(0)] + [Set(0, 0)]
    else []
  }

  /** After that, the first `k` of them insert. */
  function Rush(ips: seq<Ip>, n: nat, w: nat, k: nat): seq<Event>
    requires n + w <= |ips| && k <= w
  {
    if k == 0 then Crowd(ips, n, w) else Rush(ips, n, w, k - 1) + [Set(k - 1, 0)]
  }

  lemma RunSnoc(es: seq<Event>, e: Event, cfg: Config)
    ensures Run(es + [e], cfg) == Next(Run(es, cfg), e, cfg)
  {
    assert (es + [e])[..|es + [e]| - 1] == es;
  }

  /** The first `n + k` addresses are in the map, and workers `k` to `j - 1` have passed with the next ones. */
  ghost predicate Crowded(s: State, ips: seq<Ip>, n: nat, k: nat, j: nat)
    requires n + j <= |ips| && k <= j
  {
    && s.entries.Keys == Keys(ips[..n + k])
    && s.sweeper == Idle
    && (forall tid :: tid in s.workers ==> k <= tid < j && s.workers[tid] == Passed(KeyOf(ips[n + tid])))
    && (forall tid :: k <= tid < j ==> tid in s.workers)
  }

  lemma {:induction false} AbsentKey(ips: seq<Ip>, n: nat, m: nat)
    requires DistinctAddresses(ips) && m <= n < |ips|
    ensures KeyOf(ips[n]) !in Keys(ips[..m])
  {
    hide KeyOf;
    if m > 0 {
      AbsentKey(ips, n, m - 1);
      assert ips[..m][..m - 1] == ips[..m - 1];
    }
  }

  lemma {:induction false} KeysSize(ips: seq<Ip>, m: nat)
    requires DistinctAddresses(ips) && m <= |ips|
    ensures |Keys(ips[..m])| == m
  {
    hide KeyOf;
    if m > 0 {
      KeysSize(ips, m - 1);
      AbsentKey(ips, m - 1, m - 1);
      assert ips[..m][..m - 1] == ips[..m - 1];
    }
  }

  lemma EntriesSize(s: State, ips: seq<Ip>, n: nat, k: nat, j: nat)
    requires n + j <= |ips| && k <= j && DistinctAddresses(ips) && Crowded(s, ips, n, k, j)
    ensures |s.entries| == n + k
  {
    KeysSize(ips, n + k);
    assert |s.entries| == |s.entries.Keys|;
  }

  /** One more worker sees its address missing and passes the check. */
  lemma OneMorePasses(s: State, ips: seq<Ip>, n: nat, j: nat, cfg: Config)
    requires n + j < |ips| && DistinctAddresses(ips) && Crowded(s, ips, n, 0, j) && n < cfg.limit && j < cfg.w
    ensures Crowded(Next(Next(s, Get(j, ips[n + j]), cfg), CheckSize(j), cfg), ips, n, 0, j + 1)
  {
    hide KeyOf, Crowded;
    EntriesSize(s, ips, n, 0, j);
    OneMoreMisses(s, ips, n, j, cfg);
    MissedPasses(s, Next(s, Get(j, ips[n + j]), cfg), ips, n, j, cfg);
  }

  lemma OneMoreMisses(s: State, ips: seq<Ip>, n: nat, j: nat, cfg: Config)
    requires n + j < |ips| && DistinctAddresses(ips) && Crowded(s, ips, n, 0, j) && j < cfg.w
    ensures Next(s, Get(j, ips[n + j]), cfg) == s.(workers := s.workers[j := Missed(KeyOf(ips[n + j]))])
  {
    hide KeyOf;
    AbsentKey(ips, n + j, n);
    assert |ips[n + j]| > 0;
    assert j !in s.workers;
  }

  lemma MissedPasses(s: State, u: State, ips: seq<Ip>, n: nat, j: nat, cfg: Config)
    requires n + j < |ips| && Crowded(s, ips, n, 0, j) && |s.entries| < cfg.limit
    requires u == s.(workers := s.workers[j := Missed(KeyOf(ips[n + j]))])
    ensures Crowded(Next(u, CheckSize(j), cfg), ips, n, 0, j + 1)
  {
    hide KeyOf, Keys;
  }

  lemma OneInserts(s: State, ips: seq<Ip>, n: nat, k: nat, j: nat, cfg: Config)
    requires n + j <= |ips| && k < j && Crowded(s, ips, n, k, j)
    ensures Crowded(Next(s, Set(k, 0), cfg), ips, n, k + 1, j)
  {
    hide KeyOf;
    assert ips[..n + k + 1][..n + k] == ips[..n + k];
  }

  lemma {:induction false} CrowdRuns(ips: seq<Ip>, n: nat, j: nat, cfg: Config)
    requires n + j <= |ips| && DistinctAddresses(ips) && n < cfg.limit && 0 < cfg.w && j <= cfg.w
    ensures Crowded(Run(Crowd(ips, n, j), cfg), ips, n, 0, j)
    decreases j, n
  {
    hide KeyOf, Crowded, Next, Run;
    if j > 0 {
      CrowdRuns(ips, n, j - 1, cfg);
      var es := Crowd(ips, n, j - 1);
      var get := Get(j - 1, ips[n + j - 1]);
      RunSnoc(es, get, cfg);
      RunSnoc(es + [get], CheckSize(j - 1), cfg);
      OneMorePasses(Run(es, cfg), ips, n, j - 1, cfg);
    } else if n > 0 {
      CrowdRuns(ips, n - 1, 0, cfg);
      var es := Crowd(ips, n - 1, 0);
      var get := Get(0, ips[n - 1]);
      RunSnoc(es, get, cfg);
      RunSnoc(es + [get], CheckSize(0), cfg);
      RunSnoc(es + [get] + [CheckSize(0)], Set(0, 0), cfg);
      OneMorePasses(Run(es, cfg), ips, n - 1, 0, cfg);
      var s := Run(es + [get] + [CheckSize(0)], cfg);
      OneInserts(s, ips, n - 1, 0, 1, cfg);
      Settled(Next(s, Set(0, 0), cfg), ips, n - 1);
    } else {
      EmptyCrowd(ips, cfg);
    }
  }

  lemma EmptyCrowd(ips: seq<Ip>, cfg: Config)
    ensures Crowded(Run([], cfg), ips, 0, 0, 0)
  {
    assert ips[..0] == [];
  }

  /** One passed and inserted is the same as one more inside. */
  lemma Settled(s: State, ips: seq<Ip>, n: nat)
    requires n + 1 <= |ips| && Crowded(s, ips, n, 1, 1)
    ensures Crowded(s, ips, n + 1, 0, 0)
  {
  }

  lemma {:induction false} RushRuns(ips: seq<Ip>, n: nat, w: nat, k: nat, cfg: Config)
    requires n + w <= |ips| && k <= w && DistinctAddresses(ips) && n < cfg.limit && 0 < cfg.w && w <= cfg.w
    ensures Crowded(Run(Rush(ips, n, w, k), cfg), ips, n, k, w)
  {
    hide KeyOf, Crowded, Next, Crowd, Run, DistinctAddresses;
    if k == 0 {
      CrowdRuns(ips, n, w, cfg);
    } else {
      RushRuns(ips, n, w, k - 1, cfg);
      RunSnoc(Rush(ips, n, w, k - 1), Set(k - 1, 0), cfg);
      OneInserts(Run(Rush(ips, n, w, k - 1), cfg), ips, n, k - 1, w, cfg);
    }
  }

  ghost predicate NeverAbove(cap: int, cfg: Config) {
    forall es: seq<Event> :: |Run(es, cfg).entries| <= cap
  }

  /**
   Over all interleavings the map stays within `limit + w - 1` entries and no smaller bound holds, given
   as many addresses. So one worker keeps to the limit, and two do not.
   */
  lemma ExactBound(cap: int, ips: seq<Ip>, cfg: Config)
    requires cfg.limit > 0 && cfg.w > 0 && DistinctAddresses(ips) && |ips| == cfg.limit + cfg.w - 1
    ensures NeverAbove(cap, cfg) <==> cap >= cfg.limit + cfg.w - 1
  {
    hide Next, Crowded, Crowd, Rush;
    var n := cfg.limit - 1;
    var worst := Run(Rush(ips, n, cfg.w, cfg.w), cfg);
    RushRuns(ips, n, cfg.w, cfg.w, cfg);
    EntriesSize(worst, ips, n, cfg.w, cfg.w);
    forall es: seq<Event>
      ensures |Run(es, cfg).entries| <= cfg.limit + cfg.w - 1
    {
      RunKeepsInv(es, cfg);
    }
  }
}
