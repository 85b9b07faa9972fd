/** How replicas keep their copy of the state manager's data fresh: a shared
    notification timestamp, a stamp per replica, and a fetch under a mutex.
    Every interleaving of the steps is considered; all clocks agree. */
module Refresh {
  import opened Common
  import opened SmCache

  /** One instance of the service.  busy: the mutex is held by a fetch, which
      started in second since.
      checking: timestamps read by checkState but not yet compared.
      pending: refreshes started in the background but not yet running.
      failed: the last fetch failed. */
  datatype Replica = Replica(
    cache: Cache, busy: bool, since: int, checking: set<int>, pending: set<int>, failed: bool)

  /** inflight: times that notifications have read but not yet stored. */
  datatype System = System(clock: int, stored: Option<int>, inflight: set<int>, replicas: map<nat, Replica>)

  datatype Event =
    | Tick(seconds: nat)
    | Notified
    | Published(ts: int)
    | KeyRead(r: nat)
    | Checked(r: nat, ts: int, refresh: bool)
    | Forced(r: nat)
    | Returned(r: nat, ts: int, data: Snapshot)
    | FetchStarted(r: nat, ts: int)
    | Fetched(r: nat, data: Snapshot)
    | FetchFailed(r: nat)

  predicate Initial(s: System) {
    && s.clock > 0 && s.stored == None && s.inflight == {}
    && forall r | r in s.replicas :: s.replicas[r] == Replica(Cache(0, None, map[]), false, 0, {}, {}, false)
  }

  // -------------------------------------------------------------------- steps

  /** A caller may ask for any state (0), a forced refresh (a background one
      with -1), or one as of a time that is not in the future. */
  predicate MayAsk(s: System, p: Replica, ts: int) {
    ts in p.pending || 0 <= ts <= s.clock
  }

  predicate Enabled(s: System, e: Event) {
    match e
    case Tick(_) => true
    case Notified => true
    case Published(ts) => ts in s.inflight
    case KeyRead(r) => r in s.replicas && s.stored.Some?
    case Checked(r, ts, refresh) =>
      r in s.replicas && ts in s.replicas[r].checking && (refresh <==> s.replicas[r].cache.stamp < ts)
    case Forced(r) => r in s.replicas
    case Returned(r, ts, data) =>
      r in s.replicas && var p := s.replicas[r];
      !p.busy && MayAsk(s, p, ts) && !NeedsFetch(p.cache, ts) && p.cache.data == Some(data)
    case FetchStarted(r, ts) =>
      r in s.replicas && var p := s.replicas[r]; !p.busy && MayAsk(s, p, ts) && NeedsFetch(p.cache, ts)
    case Fetched(r, data) =>
      r in s.replicas && s.replicas[r].busy && s.replicas[r].since <= data.time <= s.clock
    case FetchFailed(r) => r in s.replicas && s.replicas[r].busy
  }

  function Moved(p: Replica, clock: int, e: Event): Replica {
    match e
    case Checked(_, ts, refresh) =>
      p.(checking := p.checking - {ts}, pending := if refresh then p.pending + {ts} else p.pending)
    case Forced(_) => p.(pending := p.pending + {-1})
    case FetchStarted(_, ts) => p.(busy := true, since := clock, cache := Stamped(p.cache, ts, clock))
    case Fetched(_, data) => p.(busy := false, failed := false, cache := Filled(p.cache, data))
    case FetchFailed(_) => p.(busy := false, failed := true)
    case _ => p
  }

  function Apply(s: System, e: Event): System
    requires Enabled(s, e)
  {
    match e
    case Tick(seconds) => s.(clock := s.clock + seconds)
    case Notified => s.(inflight := s.inflight + {s.clock})
    case Published(ts) => s.(inflight := s.inflight - {ts}, stored := Some(ts))
    case KeyRead(r) =>
      s.(replicas := s.replicas[r := s.replicas[r].(checking := s.replicas[r].checking + {s.stored.value})])
    case _ => s.(replicas := s.replicas[e.r := Moved(s.replicas[e.r], s.clock, e)])
  }

  /** es is a run from s. */
  predicate Trace(s: System, es: seq<Event>)
    decreases |es|, 0
  {
    es != [] ==> Trace(s, es[..|es| - 1]) && Enabled(After(s, es[..|es| - 1]), es[|es| - 1])
  }

  function After(s: System, es: seq<Event>): System
    requires Trace(s, es)
    decreases |es|, 1
  {
    if es == [] then s else Apply(After(s, es[..|es| - 1]), es[|es| - 1])
  }

  // ---------------------------------------------------------------- invariant

  predicate ReplicaOk(p: Replica, clock: int) {
    && 0 <= p.cache.stamp <= clock
    && (forall ts | ts in p.checking :: 0 < ts <= clock)
    && (forall ts | ts in p.pending :: ts == -1 || 0 < ts <= clock)
    && Indexed(p.cache)
    && (p.busy ==> p.cache.stamp <= p.since <= clock)
    && (p.cache.data.Some? ==> p.cache.data.value.time <= clock)
    && (p.cache.data.Some? && !p.busy && !p.failed ==> p.cache.stamp <= p.cache.data.value.time)
    && (p.cache.data.None? && !p.busy && !p.failed ==> p.cache.stamp == 0)
  }

  predicate Ok(s: System) {
    && s.clock > 0
    && (s.stored.Some? ==> 0 < s.stored.value <= s.clock)
    && (forall ts | ts in s.inflight :: 0 < ts <= s.clock)
    && (forall r | r in s.replicas :: ReplicaOk(s.replicas[r], s.clock))
  }

  lemma ReplicaStepOk(s: System, e: Event)
    requires Ok(s) && Enabled(s, e) && !e.Tick? && !e.Notified? && !e.Published? && !e.KeyRead?
    ensures ReplicaOk(Moved(s.replicas[e.r], s.clock, e), s.clock)
  {
    assert ReplicaOk(s.replicas[e.r], s.clock);
  }

  lemma StepKeepsOk(s: System, e: Event)
    requires Ok(s) && Enabled(s, e)
    ensures Ok(Apply(s, e))
  {
    hide Moved;
    match e
    case Tick(_) =>
    case Notified =>
    case Published(_) =>
    case KeyRead(r) =>
      assert ReplicaOk(s.replicas[r], s.clock);
    case _ =>
      ReplicaStepOk(s, e);
  }

  /** After any run, with failing fetches or not: no replica's stamp is ahead of
      the clock, the index is that of the current component list, and unless the
      last fetch failed or one is running, the data is no older than the stamp. */
  lemma {:induction false} EveryRunIsOk(s: System, es: seq<Event>)
    requires Initial(s) && Trace(s, es)
    ensures Ok(After(s, es))
  {
    if es != [] {
      EveryRunIsOk(s, es[..|es| - 1]);
      StepKeepsOk(After(s, es[..|es| - 1]), es[|es| - 1]);
    }
  }

  /** A stamp goes down exactly when a fetch for an earlier time starts on a
      replica that never got any data. */
  lemma StampDropsIff(s: System, e: Event, r: nat)
    requires Ok(s) && Enabled(s, e) && r in s.replicas
    ensures r in Apply(s, e).replicas
    ensures Apply(s, e).replicas[r].cache.stamp < s.replicas[r].cache.stamp <==>
            e.FetchStarted? && e.r == r && s.replicas[r].cache.data.None? && 0 < e.ts < s.replicas[r].cache.stamp
  {}

  predicate FailedOn(e: Event, r: nat) { e.FetchFailed? && e.r == r }

  lemma {:induction false} UnfailedRun(s: System, es: seq<Event>, r: nat)
    requires Initial(s) && Trace(s, es) && r in s.replicas && forall e | e in es :: !FailedOn(e, r)
    ensures r in After(s, es).replicas && !After(s, es).replicas[r].failed
  {
    if es != [] {
      UnfailedRun(s, es[..|es| - 1], r);
      assert es[|es| - 1] in es;
    }
  }

  /** While fetches succeed a stamp never goes down. */
  lemma StampNeverDrops(s: System, es: seq<Event>, r: nat)
    requires Initial(s) && Trace(s, es) && es != [] && r in s.replicas && forall e | e in es :: !FailedOn(e, r)
    ensures var before := After(s, es[..|es| - 1]);
      r in before.replicas && r in After(s, es).replicas
      && before.replicas[r].cache.stamp <= After(s, es).replicas[r].cache.stamp
  {
    var before, e := After(s, es[..|es| - 1]), es[|es| - 1];
    EveryRunIsOk(s, es[..|es| - 1]);
    UnfailedRun(s, es[..|es| - 1], r);
    StampDropsIff(before, e, r);
    assert ReplicaOk(before.replicas[r], before.clock);
  }

  predicate EndsFetch(e: Event, r: nat) { (e.Fetched? || e.FetchFailed?) && e.r == r }

  lemma {:induction false} FetchGoesOn(s: System, es: seq<Event>, r: nat)
    requires Trace(s, es) && r in s.replicas && s.replicas[r].busy && forall e | e in es :: !EndsFetch(e, r)
    ensures r in After(s, es).replicas && s.clock <= After(s, es).clock
    ensures var p, q := s.replicas[r], After(s, es).replicas[r];
      q.busy && q.since == p.since && q.cache == p.cache
  {
    if es != [] {
      FetchGoesOn(s, es[..|es| - 1], r);
      assert es[|es| - 1] in es;
    }
  }

  /** Whatever runs between the two steps of a fetch, they leave the cache as
      the whole request does, with the stamp of its start and a snapshot of any
      second up to its end. */
  lemma FetchIsRequest(s: System, r: nat, ts: int, es: seq<Event>, data: Snapshot)
    requires Enabled(s, FetchStarted(r, ts)) && Trace(Apply(s, FetchStarted(r, ts)), es)
    requires forall e | e in es :: !EndsFetch(e, r)
    requires s.clock <= data.time <= After(Apply(s, FetchStarted(r, ts)), es).clock
    ensures var t := After(Apply(s, FetchStarted(r, ts)), es);
      Enabled(t, Fetched(r, data)) && Enabled(t, FetchFailed(r))
      && Apply(t, Fetched(r, data)).replicas[r].cache == GetState(s.replicas[r].cache, ts, s.clock, Some(data))
      && Apply(t, FetchFailed(r)).replicas[r].cache == GetState(s.replicas[r].cache, ts, s.clock, None)
  {
    FetchGoesOn(Apply(s, FetchStarted(r, ts)), es, r);
  }

  // ------------------------------------------------------------ forced refreshes

  /** A forced refresh is never answered from the cache: whatever the replica
      holds, it waits for the mutex and then fetches. */
  lemma ForcedFetches(s: System, r: nat)
    requires Enabled(s, Forced(r))
    ensures var t := Apply(s, Forced(r));
      -1 in t.replicas[r].pending && (Enabled(t, FetchStarted(r, -1)) <==> !t.replicas[r].busy)
    ensures forall t: System, data: Snapshot :: !Enabled(t, Returned(r, -1, data))
  {}

  /** When its fetch succeeds, it is answered with a snapshot of the second in
      which the fetch started or a later one, whatever runs in between, and the
      stamp is that second. */
  lemma ForcedAnswerIsNew(s: System, r: nat, es: seq<Event>, data: Snapshot)
    requires Enabled(s, FetchStarted(r, -1)) && Trace(Apply(s, FetchStarted(r, -1)), es)
    requires forall e | e in es :: !EndsFetch(e, r)
    requires Enabled(After(Apply(s, FetchStarted(r, -1)), es), Fetched(r, data))
    ensures var t := After(Apply(s, FetchStarted(r, -1)), es);
      && s.clock <= data.time && Answer(t, Fetched(r, data), r) == Some(data)
      && var cache := Apply(t, Fetched(r, data)).replicas[r].cache;
         cache.stamp == s.clock && cache.data == Some(data) && cache.index == IndexOf(data.components)
  {
    FetchGoesOn(Apply(s, FetchStarted(r, -1)), es, r);
  }

  /** A notification that is stored and then read is acted on: the replica is
      found behind it exactly when its stamp is from an earlier second, and then
      a refresh as of the second of the notification is pending. */
  lemma NotificationIsActedOn(s: System, r: nat)
    requires r in s.replicas
    ensures var n := Apply(s, Notified);
      Enabled(n, Published(s.clock)) &&
      var p := Apply(n, Published(s.clock));
      Enabled(p, KeyRead(r)) &&
      var k, c := Apply(p, KeyRead(r)), Checked(r, s.clock, true);
      && (Enabled(k, c) <==> s.replicas[r].cache.stamp < s.clock)
      && (Enabled(k, c) ==> s.clock in Apply(k, c).replicas[r].pending)
      && (Enabled(k, Checked(r, s.clock, false)) <==> s.clock <= s.replicas[r].cache.stamp)
  {}

  // ---------------------------------------------------------------- freshness

  /** The data that a request for the state is answered with by this event. */
  function Answer(s: System, e: Event, r: nat): Option<Snapshot>
    requires Enabled(s, e)
  {
    match e
    case Returned(q, _, data) => if q == r then Some(data) else None
    case Fetched(q, data) => if q == r then Some(data) else None
    case FetchFailed(q) => if q == r then s.replicas[r].cache.data else None
    case _ => None
  }

  /** What a replica that found itself up to date against ts still owes. */
  predicate Owes(s: System, r: nat, ts: int) {
    && r in s.replicas && ts <= s.clock
    && var p := s.replicas[r];
       (p.busy ==> ts <= p.since)
       && (p.cache.data.Some? && !p.busy && !p.failed ==> ts <= p.cache.data.value.time)
  }

  lemma CheckOwes(s: System, r: nat, ts: int)
    requires Ok(s) && Enabled(s, Checked(r, ts, false))
    ensures Owes(Apply(s, Checked(r, ts, false)), r, ts)
  {}

  lemma StepKeepsOwes(s: System, e: Event, r: nat, ts: int)
    requires Owes(s, r, ts) && Enabled(s, e)
    ensures Owes(Apply(s, e), r, ts)
  {}

  lemma Prefix(s: System, es: seq<Event>, n: nat)
    requires Trace(s, es) && n <= |es|
    ensures Trace(s, es[..n])
  {
    if n < |es| {
      assert es[..|es| - 1][..n] == es[..n];
      Prefix(s, es[..|es| - 1], n);
    } else {
      assert es[..n] == es;
    }
  }

  lemma {:induction false} OwesOn(s: System, es: seq<Event>, i: nat, n: nat, r: nat, ts: int)
    requires Initial(s) && Trace(s, es) && i < n <= |es| && es[i] == Checked(r, ts, false)
    ensures Trace(s, es[..n]) && Owes(After(s, es[..n]), r, ts)
    decreases n
  {
    Prefix(s, es, n);
    Prefix(s, es, n - 1);
    assert es[..n][..n - 1] == es[..n - 1] && es[..n][n - 1] == es[n - 1];
    if i == n - 1 {
      EveryRunIsOk(s, es[..i]);
      CheckOwes(After(s, es[..i]), r, ts);
    } else {
      OwesOn(s, es, i, n - 1, r, ts);
      StepKeepsOwes(After(s, es[..n - 1]), es[n - 1], r, ts);
    }
  }

  /** The promise of checkState.  Once it has answered "up to date" against the
      stored time ts, every later answer on that replica is a snapshot taken in
      or after second ts, whatever else runs in between, unless the last fetch
      before that answer failed. */
  lemma Freshness(s: System, es: seq<Event>, i: nat, j: nat, r: nat, ts: int)
    requires Initial(s) && Trace(s, es) && i < j < |es|
    requires es[i] == Checked(r, ts, false)
    ensures Trace(s, es[..j]) && Enabled(After(s, es[..j]), es[j]) && r in Apply(After(s, es[..j]), es[j]).replicas
    ensures var answer := Answer(After(s, es[..j]), es[j], r);
      answer.Some? && !Apply(After(s, es[..j]), es[j]).replicas[r].failed ==> ts <= answer.value.time
  {
    OwesOn(s, es, i, j, r, ts);
    Prefix(s, es, j + 1);
    assert es[..j + 1][..j] == es[..j];
    StepKeepsOwes(After(s, es[..j]), es[j], r, ts);
  }

  /** Without failing fetches the promise holds as it stands. */
  lemma FreshWhenFetchesSucceed(s: System, es: seq<Event>, i: nat, j: nat, r: nat, ts: int)
    requires Initial(s) && Trace(s, es) && i < j < |es|
    requires es[i] == Checked(r, ts, false) && forall e | e in es :: !FailedOn(e, r)
    ensures Trace(s, es[..j]) && Enabled(After(s, es[..j]), es[j])
    ensures Answer(After(s, es[..j]), es[j], r).Some? ==> ts <= Answer(After(s, es[..j]), es[j], r).value.time
  {
    Freshness(s, es, i, j, r, ts);
    Prefix(s, es, j + 1);
    assert es[..j + 1][..j] == es[..j] && es[..j + 1][j] == es[j];
    OwesOn(s, es, i, j, r, ts);
    forall e | e in es[..j + 1] ensures !FailedOn(e, r) { assert e in es; }
    StillThere(s, es[..j], r);
    UnfailedRun(s, es[..j + 1], r);
  }

  lemma {:induction false} StillThere(s: System, es: seq<Event>, r: nat)
    requires Trace(s, es)
    ensures r in s.replicas <==> r in After(s, es).replicas
  {
    if es != [] { StillThere(s, es[..|es| - 1], r); }
  }

  lemma Extend(s: System, es: seq<Event>, e: Event)
    requires Trace(s, es) && Enabled(After(s, es), e)
    ensures Trace(s, es + [e]) && After(s, es + [e]) == Apply(After(s, es), e)
  {}

  /** A replica has data when a notification is stored. */
  lemma NotifiedLater(s: System, old1: Snapshot) returns (es: seq<Event>)
    requires Initial(s) && 0 in s.replicas && old1.time == s.clock
    ensures Trace(s, es)
    ensures var t := After(s, es);
      t.clock == s.clock + 1 && t.stored == Some(s.clock + 1) && 0 in t.replicas
      && t.replicas[0] == Replica(Filled(Cache(s.clock, None, map[]), old1), false, s.clock, {}, {}, false)
  {
    es := [];
    Extend(s, es, FetchStarted(0, 0)); es := es + [FetchStarted(0, 0)];
    Extend(s, es, Fetched(0, old1)); es := es + [Fetched(0, old1)];
    Extend(s, es, Tick(1)); es := es + [Tick(1)];
    Extend(s, es, Notified); es := es + [Notified];
    Extend(s, es, Published(s.clock + 1)); es := es + [Published(s.clock + 1)];
  }

  /** With a failing fetch it does not: the stamp is set before the fetch, so a
      replica whose refresh failed takes itself to be up to date with old data. */
  lemma FailedFetchGoesUnnoticed(s: System, old1: Snapshot) returns (es: seq<Event>)
    requires Initial(s) && 0 in s.replicas && old1.time == s.clock
    ensures Trace(s, es) && |es| >= 2
    ensures var ts := s.clock + 1;
      es[|es| - 2] == Checked(0, ts, false) && es[|es| - 1] == Returned(0, 0, old1) && old1.time < ts
  {
    var ts := s.clock + 1;
    es := NotifiedLater(s, old1);
    Extend(s, es, FetchStarted(0, ts)); es := es + [FetchStarted(0, ts)];
    Extend(s, es, FetchFailed(0)); es := es + [FetchFailed(0)];
    Extend(s, es, KeyRead(0)); es := es + [KeyRead(0)];
    Extend(s, es, Checked(0, ts, false)); es := es + [Checked(0, ts, false)];
    Extend(s, es, Returned(0, 0, old1)); es := es + [Returned(0, 0, old1)];
  }

  // ------------------------------------------------------- which answers stale

  /** e answers a request to r, after es, with data from before second ts. */
  predicate AnswersStale(s: System, es: seq<Event>, e: Event, r: nat, ts: int) {
    && Trace(s, es) && Enabled(After(s, es), e)
    && var answer := Answer(After(s, es), e, r);
       answer.Some? && answer.value.time < ts
  }

  /** The data of r, or what a running fetch will bring, is as of ts. */
  predicate UpToDate(s: System, r: nat, ts: int) {
    && r in s.replicas && ts <= s.clock
    && var p := s.replicas[r];
       (p.busy ==> ts <= p.since) && (p.cache.data.Some? ==> ts <= p.cache.data.value.time)
  }

  lemma {:induction false} StaysUpToDate(s: System, es: seq<Event>, r: nat, ts: int)
    requires UpToDate(s, r, ts) && Trace(s, es)
    ensures UpToDate(After(s, es), r, ts)
  {
    if es != [] { StaysUpToDate(s, es[..|es| - 1], r, ts); }
  }

  /** After the answer "up to date" against ts, older data can still be served,
      at once or later, exactly when the replica holds data from before ts. */
  lemma StaleAnswerIff(s: System, r: nat, ts: int)
    requires Ok(s) && Enabled(s, Checked(r, ts, false))
    ensures var t, data := Apply(s, Checked(r, ts, false)), s.replicas[r].cache.data;
      (exists es, e :: AnswersStale(t, es, e, r, ts)) <==> data.Some? && data.value.time < ts
  {
    var t, p := Apply(s, Checked(r, ts, false)), s.replicas[r];
    assert ReplicaOk(p, s.clock);
    if p.cache.data.Some? && p.cache.data.value.time < ts {
      var e := if p.busy then FetchFailed(r) else Returned(r, 0, p.cache.data.value);
      assert After(t, []) == t;
      assert AnswersStale(t, [], e, r, ts);
    } else {
      forall es, e ensures !AnswersStale(t, es, e, r, ts) {
        if Trace(t, es) && Enabled(After(t, es), e) { StaysUpToDate(t, es, r, ts); }
      }
    }
  }

  /** A request that waits for no fetch is answered with such data exactly when
      none is running and the replica holds it; then the last one has failed. */
  lemma StaleAtOnceIff(s: System, r: nat, ts: int, data: Snapshot)
    requires Ok(s) && Enabled(s, Checked(r, ts, false)) && data.time < ts
    ensures var t, p := Apply(s, Checked(r, ts, false)), s.replicas[r];
      (exists q :: Enabled(t, Returned(r, q, data))) <==> !p.busy && p.cache.data == Some(data)
    ensures !s.replicas[r].busy && s.replicas[r].cache.data == Some(data) ==> s.replicas[r].failed
  {
    var t, p := Apply(s, Checked(r, ts, false)), s.replicas[r];
    assert ReplicaOk(p, s.clock);
    if !p.busy && p.cache.data == Some(data) {
      assert Enabled(t, Returned(r, 0, data));
    }
  }
}
