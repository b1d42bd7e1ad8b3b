/** The queue of restarts that wait for a server to be empty: internal/app/restarts/queue.go. */
module Restarts {
  import opened Sets
  import opened Wrappers
  import Order

  /** Why a pending restart has not happened yet. */
  datatype Blocked =
    | NotBlocked | WorldNotFound | OccupancyUnknown
    | PlayersOnline(n: int)
    | RestartFailed(error: string)

  datatype Pending = Pending(number: int, slug: string, reason: string, since: int, blocked: Blocked)

  /** A world as the queue can see it: when it was last started and how many play on it, as far as
      that is known, and whether restarting it fails. */
  datatype World = World(started: Option<int>, players: Option<int>, failure: Option<string>)

  /** The worlds that resolve. */
  type Worlds = map<int, World>

  type Queued = map<int, Pending>

  /** Every entry is kept under its number. */
  predicate Numbered(q: Queued) {
    forall n | n in q :: q[n].number == n
  }

  // ---- one entry -------------------------------------------------------------

  datatype Fate = Block(why: Blocked) | Applied | Restart

  predicate StartedSince(w: World, since: int) {
    w.started.Some? && w.started.value > since
  }

  /** What a tick does about an entry before it restarts anything. */
  function FateOf(p: Pending, worlds: Worlds): Fate {
    if p.number !in worlds then Block(WorldNotFound)
    else if StartedSince(worlds[p.number], p.since) then Applied
    else if worlds[p.number].players.None? then Block(OccupancyUnknown)
    else if worlds[p.number].players.value > 0 then Block(PlayersOnline(worlds[p.number].players.value))
    else Restart
  }

  /** The entry after a tick, unless it is done with. */
  function Survives(p: Pending, worlds: Worlds): Option<Pending> {
    match FateOf(p, worlds)
    case Block(why) => Some(p.(blocked := why))
    case Applied => None
    case Restart =>
      var failure := worlds[p.number].failure;
      if failure.Some? then Some(p.(blocked := RestartFailed(failure.value))) else None
  }

  function AfterTick(q: Queued, worlds: Worlds): Queued {
    map n | n in q && Survives(q[n], worlds).Some? :: Survives(q[n], worlds).value
  }

  function AfterSettle(q: Queued, worlds: Worlds): Queued {
    map n | n in q && !(n in worlds && StartedSince(worlds[n], q[n].since)) :: q[n]
  }

  function AfterRequest(q: Queued, n: int, slug: string, reason: string, now: int): Queued {
    if n in q then q[n := q[n].(reason := reason)] else q[n := Pending(n, slug, reason, now, NotBlocked)]
  }

  /** Force restarts the world, pending or not, and drops the entry when that works. */
  function AfterForce(q: Queued, n: int, worlds: Worlds): Queued {
    if n in worlds && worlds[n].failure.None? then q - {n} else q
  }

  // ---- the list of entries ---------------------------------------------------

  predicate BySince(ps: seq<Pending>) {
    forall i, j | 0 <= i < j < |ps| :: ps[i].since <= ps[j].since
  }

  /** Every entry once. */
  ghost predicate Lists(ps: seq<Pending>, q: Queued) {
    && (forall p | p in ps :: p.number in q && q[p.number] == p)
    && (forall n | n in q :: q[n] in ps)
    && DistinctNumbers(ps)
  }

  predicate DistinctNumbers(ps: seq<Pending>) {
    forall i, j | 0 <= i < j < |ps| :: ps[i].number != ps[j].number
  }

  predicate Earlier(a: Pending, b: Pending) {
    a.since < b.since
  }

  lemma EarlierOrders()
    ensures Order.Orders(Earlier)
  {
  }

  lemma {:induction false} PlaceDistinct(ps: seq<Pending>, p: Pending)
    requires DistinctNumbers(ps) && forall x | x in ps :: x.number != p.number
    ensures DistinctNumbers(Order.Place(ps, Earlier, p))
  {
    if ps == [] || !Earlier(p, ps[|ps| - 1]) {
      DistinctAppend(ps, p);
    } else {
      hide DistinctNumbers;
      var before, last := ps[..|ps| - 1], ps[|ps| - 1];
      DistinctBefore(ps);
      PlaceDistinct(before, p);
      Order.PlaceHas(before, Earlier, p);
      assert last in ps;
      DistinctAppend(Order.Place(before, Earlier, p), last);
    }
  }

  lemma DistinctAppend(ps: seq<Pending>, p: Pending)
    requires DistinctNumbers(ps) && forall x | x in ps :: x.number != p.number
    ensures DistinctNumbers(ps + [p])
  {
    assert forall i | 0 <= i < |ps| :: ps[i] in ps;
  }

  lemma DistinctBefore(ps: seq<Pending>)
    requires ps != [] && DistinctNumbers(ps)
    ensures DistinctNumbers(ps[..|ps| - 1]) && forall x | x in ps[..|ps| - 1] :: x.number != ps[|ps| - 1].number
  {
  }

  lemma ListsOneMore(ps: seq<Pending>, q: Queued, rest: set<int>, n: int)
    requires Numbered(q) && rest <= q.Keys && n in rest && BySince(ps) && Lists(ps, q - rest)
    ensures var r := Order.Place(ps, Earlier, q[n]); BySince(r) && Lists(r, q - (rest - {n}))
  {
    hide Order.Place;
    EarlierOrders();
    Order.PlaceInOrder(ps, Earlier, q[n]);
    Order.PlaceHas(ps, Earlier, q[n]);
    assert forall x | x in ps :: x.number != n;
    PlaceDistinct(ps, q[n]);
    var r, u := Order.Place(ps, Earlier, q[n]), q - (rest - {n});
    assert forall k :: k in u <==> k == n || k in q - rest;
    assert forall p | p in r :: p.number in u && u[p.number] == p;
    forall k | k in u ensures u[k] in r {
      assert k == n || (q - rest)[k] in ps;
    }
  }

  // ---- the queue -------------------------------------------------------------

  /** The entries of a list from position i on. */
  function From(ps: seq<Pending>, i: nat): set<int>
    requires i <= |ps|
  {
    set j | i <= j < |ps| :: ps[j].number
  }

  class Queue {
    var pending: Queued
    /** The restarts issued, in order, whether or not they worked. */
    var issued: seq<int>

    constructor ()
      ensures pending == map[] && issued == []
    {
      pending, issued := map[], [];
    }

    method Request(n: int, slug: string, reason: string, now: int)
      requires Numbered(pending)
      modifies this`pending
      ensures pending == AfterRequest(old(pending), n, slug, reason, now) && Numbered(pending)
    {
      if n in pending {
        pending := pending[n := pending[n].(reason := reason)];
        return;
      }
      pending := pending[n := Pending(n, slug, reason, now, NotBlocked)];
    }

    method Cancel(n: int)
      requires Numbered(pending)
      modifies this`pending
      ensures pending == old(pending) - {n} && Numbered(pending)
    {
      pending := pending - {n};
    }

    /** The entries, the longest waiting first. */
    method All() returns (out: seq<Pending>)
      requires Numbered(pending)
      ensures Lists(out, pending) && BySince(out)
    {
      out := [];
      var rest := pending.Keys;
      assert pending - rest == map[];
      while rest != {}
        invariant rest <= pending.Keys
        invariant Lists(out, pending - rest) && BySince(out)
        decreases |rest|
      {
        hide Lists, BySince, Order.Place;
        Inhabited(rest);
        var n :| n in rest;
        ListsOneMore(out, pending, rest, n);
        out := Order.Place(out, Earlier, pending[n]);
        rest := rest - {n};
      }
      assert pending - rest == pending;
    }

    method Settle(worlds: Worlds)
      requires Numbered(pending)
      modifies this`pending
      ensures pending == AfterSettle(old(pending), worlds) && Numbered(pending)
    {
      var all := All();
      ghost var was := pending;
      for i := 0 to |all|
        invariant Numbered(pending)
        invariant forall n :: n in pending <==> n in was && (n in From(all, i) || n in AfterSettle(was, worlds))
        invariant forall n | n in pending :: pending[n] == was[n]
      {
        var p := all[i];
        assert p in all;
        NextEntry(all, i);
        if p.number in worlds && StartedSince(worlds[p.number], p.since) {
          Cancel(p.number);
        }
      }
      assert From(all, |all|) == {};
      SameQueue(pending, AfterSettle(was, worlds));
      assert pending == AfterSettle(was, worlds);
    }

    method Block(n: int, why: Blocked)
      requires Numbered(pending)
      modifies this`pending
      ensures pending == (if n in old(pending) then old(pending)[n := old(pending)[n].(blocked := why)]
                          else old(pending))
      ensures Numbered(pending)
    {
      if n in pending {
        pending := pending[n := pending[n].(blocked := why)];
      }
    }

    /** Restarts a world that resolves; the answer is the failure, if any. */
    method Roll(n: int, worlds: Worlds) returns (failure: Option<string>)
      modifies this`issued
      ensures n !in worlds ==> issued == old(issued) && failure == Some("not found")
      ensures n in worlds ==> issued == old(issued) + [n] && failure == worlds[n].failure
    {
      if n !in worlds {
        return Some("not found");
      }
      issued := issued + [n];
      return worlds[n].failure;
    }

    method Force(n: int, worlds: Worlds) returns (failure: Option<string>)
      requires Numbered(pending)
      modifies this
      ensures pending == AfterForce(old(pending), n, worlds) && Numbered(pending)
      ensures issued == old(issued) + if n in worlds then [n] else []
      ensures failure.None? <==> n in worlds && worlds[n].failure.None?
    {
      failure := Roll(n, worlds);
      if failure.Some? {
        return;
      }
      Cancel(n);
    }

    /** One pass over the queue, longest waiting first. */
    method Tick(worlds: Worlds)
      requires Numbered(pending)
      modifies this
      ensures pending == AfterTick(old(pending), worlds) && Numbered(pending)
      ensures exists all :: Lists(all, old(pending)) && BySince(all) && issued == old(issued) + Due(all, worlds)
    {
      hide Lists, BySince, From, Survives, FateOf;
      var all := All();
      ghost var was := pending;
      NothingDue(all, worlds, was);
      for i := 0 to |all|
        invariant Numbered(pending)
        invariant Half(pending, was, all, i, worlds)
        invariant issued == old(issued) + Due(all[..i], worlds)
      {
        var p := all[i];
        HalfStep(pending, was, all, i, worlds);
        DueStep(all, i, worlds);
        SurvivesCases(p, worlds);
        if p.number !in worlds {
          Block(p.number, WorldNotFound);
          continue;
        }
        if StartedSince(worlds[p.number], p.since) {
          Cancel(p.number);
          continue;
        }
        var players := worlds[p.number].players;
        if players.None? {
          Block(p.number, OccupancyUnknown);
          continue;
        }
        if players.value > 0 {
          Block(p.number, PlayersOnline(players.value));
          continue;
        }
        var failure := Roll(p.number, worlds);
        if failure.Some? {
          Block(p.number, RestartFailed(failure.value));
          continue;
        }
        Cancel(p.number);
      }
      assert all[..|all|] == all;
      WholeTick(pending, was, all, worlds);
    }
  }

  /** The restarts a pass over the entries issues. */
  function Due(ps: seq<Pending>, worlds: Worlds): seq<int> {
    if ps == [] then []
    else
      var before, p := Due(ps[..|ps| - 1], worlds), ps[|ps| - 1];
      if FateOf(p, worlds).Restart? then before + [p.number] else before
  }

  /** The queue when the first i entries were handled. */
  ghost predicate Half(q: Queued, was: Queued, all: seq<Pending>, i: nat, worlds: Worlds)
    requires i <= |all|
  {
    && (forall n | n in From(all, i) :: n in q && n in was && q[n] == was[n])
    && (forall n | n in q :: n in was)
    && forall n | n in was && n !in From(all, i) ::
         if Survives(was[n], worlds).Some? then n in q && q[n] == Survives(was[n], worlds).value else n !in q
  }

  lemma NextEntry(all: seq<Pending>, i: nat)
    requires i < |all| && DistinctNumbers(all)
    ensures From(all, i) == From(all, i + 1) + {all[i].number} && all[i].number !in From(all, i + 1)
  {
    forall n | n in From(all, i) ensures n == all[i].number || n in From(all, i + 1) {
      var j :| i <= j < |all| && all[j].number == n;
    }
  }

  lemma NothingDue(all: seq<Pending>, worlds: Worlds, was: Queued)
    requires Lists(all, was) && Numbered(was)
    ensures Half(was, was, all, 0, worlds) && Due(all[..0], worlds) == []
  {
    hide Survives, FateOf;
    forall n | n in From(all, 0) ensures n in was {
      var j :| 0 <= j < |all| && all[j].number == n;
      assert all[j] in all;
    }
    forall n | n in was ensures n in From(all, 0) {
      var j :| 0 <= j < |all| && all[j] == was[n];
      assert all[j].number == n;
    }
  }

  /** The next entry is the queue's own, and replacing it by what survives of it is the next step. */
  lemma HalfStep(q: Queued, was: Queued, all: seq<Pending>, i: nat, worlds: Worlds)
    requires i < |all| && Lists(all, was) && Half(q, was, all, i, worlds)
    ensures var p := all[i];
            && p.number in q && q[p.number] == p
            && if Survives(p, worlds).Some? then Half(q[p.number := Survives(p, worlds).value], was, all, i + 1, worlds)
               else Half(q - {p.number}, was, all, i + 1, worlds)
  {
    hide Survives, From;
    assert all[i] in all;
    NextEntry(all, i);
  }

  lemma DueStep(all: seq<Pending>, i: nat, worlds: Worlds)
    requires i < |all|
    ensures Due(all[..i + 1], worlds) ==
            Due(all[..i], worlds) + if FateOf(all[i], worlds).Restart? then [all[i].number] else []
  {
    hide FateOf;
    assert all[..i + 1][..i] == all[..i];
  }

  lemma SurvivesCases(p: Pending, worlds: Worlds)
    ensures FateOf(p, worlds) ==
            if p.number !in worlds then Fate.Block(WorldNotFound)
            else if StartedSince(worlds[p.number], p.since) then Applied
            else if worlds[p.number].players.None? then Fate.Block(OccupancyUnknown)
            else if worlds[p.number].players.value > 0 then Fate.Block(PlayersOnline(worlds[p.number].players.value))
            else Restart
    ensures Survives(p, worlds) ==
            match FateOf(p, worlds)
            case Block(why) => Some(p.(blocked := why))
            case Applied => None
            case Restart =>
              if worlds[p.number].failure.None? then None
              else Some(p.(blocked := RestartFailed(worlds[p.number].failure.value)))
  {
  }

  lemma WholeTick(q: Queued, was: Queued, all: seq<Pending>, worlds: Worlds)
    requires Half(q, was, all, |all|, worlds)
    ensures q == AfterTick(was, worlds)
  {
    hide Survives;
    assert From(all, |all|) == {};
    SameQueue(q, AfterTick(was, worlds));
  }

  lemma SameQueue(a: Queued, b: Queued)
    requires forall n :: n in a <==> n in b
    requires forall n | n in a :: a[n] == b[n]
    ensures a == b
  {
    assert forall n | n in a :: n in b && a[n] == b[n];
    assert forall n | n in b :: n in a;
  }
}
