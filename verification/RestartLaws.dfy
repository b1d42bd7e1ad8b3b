/** What every run of the restart queue keeps: internal/app/restarts/queue.go, lines 84-261. */
module RestartLaws {
  import opened Wrappers
  import opened Restarts

  /** What a tick restarts: a world that resolves, was not started since it was asked for, and is
      known to have no players. */
  predicate Idle(n: int, q: Queued, worlds: Worlds)
    requires n in q
  {
    && n in worlds && !Overtaken(n, q, worlds)
    && worlds[n].players.Some? && worlds[n].players.value <= 0
  }

  /** The world was started after its restart was asked for. */
  predicate Overtaken(n: int, q: Queued, worlds: Worlds)
    requires n in q
  {
    n in worlds && worlds[n].started.Some? && q[n].since < worlds[n].started.value
  }

  /** The entries a pass restarts. */
  function Restarted(ps: seq<Pending>, worlds: Worlds): seq<Pending> {
    if ps == [] then []
    else
      var before, p := Restarted(ps[..|ps| - 1], worlds), ps[|ps| - 1];
      if FateOf(p, worlds).Restart? then before + [p] else before
  }

  lemma {:induction false} DueNumbers(ps: seq<Pending>, worlds: Worlds)
    ensures |Due(ps, worlds)| == |Restarted(ps, worlds)|
    ensures forall i | 0 <= i < |Due(ps, worlds)| :: Due(ps, worlds)[i] == Restarted(ps, worlds)[i].number
  {
    hide FateOf;
    if ps != [] {
      DueNumbers(ps[..|ps| - 1], worlds);
    }
  }

  lemma {:induction false} RestartedHas(ps: seq<Pending>, worlds: Worlds)
    ensures forall p :: p in Restarted(ps, worlds) <==> p in ps && FateOf(p, worlds).Restart?
  {
    hide FateOf;
    if ps != [] {
      RestartedHas(ps[..|ps| - 1], worlds);
      assert ps == ps[..|ps| - 1] + [ps[|ps| - 1]];
    }
  }

  lemma {:induction false} RestartedSorted(ps: seq<Pending>, worlds: Worlds)
    requires BySince(ps) && DistinctNumbers(ps)
    ensures BySince(Restarted(ps, worlds)) && DistinctNumbers(Restarted(ps, worlds))
  {
    hide FateOf;
    if ps != [] {
      var before, p := ps[..|ps| - 1], ps[|ps| - 1];
      DistinctBefore(ps);
      RestartedSorted(before, worlds);
      RestartedHas(before, worlds);
      assert forall x | x in before :: x.since <= p.since;
      var r := Restarted(before, worlds);
      assert forall i | 0 <= i < |r| :: r[i] in r;
    }
  }

  lemma FateIsIdle(p: Pending, q: Queued, worlds: Worlds)
    requires p.number in q && q[p.number] == p
    ensures FateOf(p, worlds).Restart? <==> Idle(p.number, q, worlds)
  {
  }

  /** THE RESTARTS A TICK ISSUES, EXACTLY: one for each pending world that is idle, the longest
      waiting first, and none for any other. */
  lemma TickRestartsTheIdle(all: seq<Pending>, q: Queued, worlds: Worlds)
    requires Numbered(q) && Lists(all, q) && BySince(all)
    ensures forall n :: n in Due(all, worlds) <==> n in q && Idle(n, q, worlds)
    ensures var d := Due(all, worlds);
            && (forall i, j | 0 <= i < j < |d| :: d[i] != d[j])
            && forall i, j | 0 <= i < j < |d| :: d[i] in q && d[j] in q && q[d[i]].since <= q[d[j]].since
  {
    hide Due, Idle, FateOf, Restarted;
    DueNumbers(all, worlds);
    RestartedHas(all, worlds);
    RestartedSorted(all, worlds);
    var d, r := Due(all, worlds), Restarted(all, worlds);
    assert forall i | 0 <= i < |r| :: r[i] in r;
    forall n | n in d ensures n in q && Idle(n, q, worlds) {
      var i :| 0 <= i < |d| && d[i] == n;
      FateIsIdle(r[i], q, worlds);
    }
    forall n | n in q && Idle(n, q, worlds) ensures n in d {
      FateIsIdle(q[n], q, worlds);
      assert q[n] in r;
      var i :| 0 <= i < |r| && r[i] == q[n];
      assert d[i] == n;
    }
  }

  /** WHAT A TICK LEAVES, EXACTLY. An entry goes when a restart has overtaken it, or when its world
      was idle and restarting it worked; every other entry stays as it was, with what blocks it. */
  lemma TickLeavesTheBlocked(q: Queued, worlds: Worlds, n: int)
    requires Numbered(q) && n in q
    ensures n !in AfterTick(q, worlds) <==>
              n in worlds && (Overtaken(n, q, worlds) || (Idle(n, q, worlds) && worlds[n].failure.None?))
    ensures n in AfterTick(q, worlds) ==>
              var p := AfterTick(q, worlds)[n];
              && p.number == n && p.slug == q[n].slug && p.reason == q[n].reason && p.since == q[n].since
              && (p.blocked == WorldNotFound <==> n !in worlds)
              && (p.blocked == OccupancyUnknown <==> n in worlds && worlds[n].players == None)
              && (forall m :: p.blocked == PlayersOnline(m) <==> n in worlds && worlds[n].players == Some(m) && m > 0)
              && forall e :: p.blocked == RestartFailed(e) <==> Idle(n, q, worlds) && worlds[n].failure == Some(e)
  {
  }

  /** SETTLING DROPS THE OVERTAKEN and leaves every other entry as it was. */
  lemma SettleDropsTheOvertaken(q: Queued, worlds: Worlds, n: int)
    ensures n in AfterSettle(q, worlds) <==> n in q && !Overtaken(n, q, worlds)
    ensures n in AfterSettle(q, worlds) ==> AfterSettle(q, worlds)[n] == q[n]
  {
  }

  /** A FORCED RESTART THAT WORKS leaves all entries but the world's; one that fails leaves them all. */
  lemma ForceDropsOne(q: Queued, worlds: Worlds, n: int)
    ensures n in AfterForce(q, n, worlds) <==> n in q && (n !in worlds || worlds[n].failure != None)
    ensures forall m :: m != n || n !in worlds || worlds[n].failure != None ==>
              (m in AfterForce(q, n, worlds) <==> m in q) && (m in q ==> AfterForce(q, n, worlds)[m] == q[m])
  {
  }

  /** A REQUEST QUEUES THE WORLD, or only renews the reason of one that is queued. */
  lemma RequestQueues(q: Queued, n: int, slug: string, reason: string, now: int)
    ensures var after := AfterRequest(q, n, slug, reason, now);
            && after.Keys == q.Keys + {n} && after[n].reason == reason
            && (n !in q ==> after[n].number == n && after[n].slug == slug && after[n].since == now
                            && after[n].blocked == NotBlocked)
            && (n in q ==> after[n].number == q[n].number && after[n].slug == q[n].slug
                           && after[n].since == q[n].since && after[n].blocked == q[n].blocked)
            && forall m | m in q && m != n :: after[m] == q[m]
  {
  }

  /** A tick adds no entry. */
  lemma TickAddsNothing(q: Queued, worlds: Worlds)
    ensures AfterTick(q, worlds).Keys <= q.Keys && AfterSettle(q, worlds).Keys <= q.Keys
  {
    hide Survives;
  }

  // ---- every run -------------------------------------------------------------

  datatype Event =
    | Requested(n: int, slug: string, reason: string, now: int)
    | Cancelled(n: int)
    | Settled(worlds: Worlds)
    | Forced(n: int, worlds: Worlds)
    | Ticked(worlds: Worlds)

  function Happen(q: Queued, e: Event): Queued {
    match e
    case Requested(n, slug, reason, now) => AfterRequest(q, n, slug, reason, now)
    case Cancelled(n) => q - {n}
    case Settled(worlds) => AfterSettle(q, worlds)
    case Forced(n, worlds) => AfterForce(q, n, worlds)
    case Ticked(worlds) => AfterTick(q, worlds)
  }

  function Run(events: seq<Event>): Queued {
    if events == [] then map[] else Happen(Run(events[..|events| - 1]), events[|events| - 1])
  }

  /** The i-th event asks for a restart of the world. */
  predicate Asks(events: seq<Event>, i: nat, n: int) {
    i < |events| && events[i].Requested? && events[i].n == n
  }

  /** An entry that outlives an event keeps its time, and its reason unless it is asked for again. */
  lemma EventKeepsEntry(q: Queued, e: Event, n: int)
    requires n in Happen(q, e)
    ensures n in q ==> Happen(q, e)[n].since == q[n].since
    ensures n in q && !(e.Requested? && e.n == n) ==> Happen(q, e)[n].reason == q[n].reason
    ensures n !in q ==> e.Requested? && e.n == n && Happen(q, e)[n].since == e.now
    ensures e.Requested? && e.n == n ==> Happen(q, e)[n].reason == e.reason
  {
    match e
    case Requested(m, slug, reason, now) =>
    case Cancelled(m) =>
    case Settled(worlds) =>
    case Forced(m, worlds) =>
    case Ticked(worlds) =>
      TickAddsNothing(q, worlds);
      hide FateOf, Idle;
      SurvivesCases(q[n], worlds);
  }

  /** SINCE IS THE FIRST REQUEST, IN EVERY RUN. A pending entry's time is that of the request that
      put it in the queue, which it has not left since; its reason is that of the last request. */
  lemma {:induction false} SinceIsFirstRequest(events: seq<Event>, n: int) returns (i: nat, j: nat)
    requires n in Run(events)
    ensures Asks(events, i, n) && Run(events)[n].since == events[i].now
    ensures n !in Run(events[..i]) && forall k | i < k <= |events| :: n in Run(events[..k])
    ensures i <= j && Asks(events, j, n) && Run(events)[n].reason == events[j].reason
    ensures forall k | j < k < |events| :: !Asks(events, k, n)
  {
    hide Happen, Run;
    var m := RunStep(events, n);
    var before := events[..m];
    assert events[..|events|] == events && forall k | 0 <= k <= m :: before[..k] == events[..k];
    EventKeepsEntry(Run(before), events[m], n);
    if n in Run(before) {
      i, j := SinceIsFirstRequest(before, n);
      if Asks(events, m, n) {
        j := m;
      }
      forall k | j < k < |events| ensures !Asks(events, k, n) {
        assert k < m ==> before[k] == events[k] && !Asks(before, k, n);
      }
    } else {
      i, j := m, m;
    }
  }

  lemma RunStep(events: seq<Event>, n: int) returns (m: nat)
    requires n in Run(events)
    ensures m < |events| && m == |events| - 1 && Run(events) == Happen(Run(events[..m]), events[m])
  {
    hide Happen;
    m := |events| - 1;
  }

  /** In every run entries are kept under their numbers. */
  lemma {:induction false} RunNumbered(events: seq<Event>)
    ensures Numbered(Run(events))
  {
    if events != [] {
      RunNumbered(events[..|events| - 1]);
      HappenNumbered(Run(events[..|events| - 1]), events[|events| - 1]);
      hide Happen;
    }
  }

  lemma HappenNumbered(q: Queued, e: Event)
    requires Numbered(q)
    ensures Numbered(Happen(q, e))
  {
    forall n | n in Happen(q, e) ensures Happen(q, e)[n].number == n {
      if e.Ticked? {
        SurvivesCases(q[n], e.worlds);
        hide FateOf, Survives;
      }
    }
  }
}
