/** What every interleaving of log workers keeps: internal/app/ingest/ingest.go and
    internal/infra/store/presence.go. */
module PresenceLaws {
  import opened Wrappers
  import opened Presence
  import opened Ingest

  // ---- the tables agree ------------------------------------------------------

  /** A player is flagged online just when he has a presence row, since the earliest of them;
      rows are of real instances and known players. */
  ghost predicate Agrees(t: Tables) {
    && (forall k | k in t.rows :: k.instance > 0 && k.id in t.players)
    && forall id | id in t.players :: PlayerAgrees(t.players[id], t.rows, id)
  }

  ghost predicate PlayerAgrees(p: Player, rows: map<Seat, int>, id: string) {
    (p.online <==> HasRow(rows, id)) && IsEarliest(rows, id, p.onlineSince)
  }

  /** No row is from the future. */
  predicate By(t: Tables, now: int) {
    forall k | k in t.rows :: t.rows[k] <= now
  }

  /** The rows of one player. */
  ghost predicate SameRows(a: map<Seat, int>, b: map<Seat, int>, id: string) {
    forall k: Seat | k.id == id && (k in a || k in b) :: k in a && k in b && a[k] == b[k]
  }

  lemma SameRowsAgree(p: Player, a: map<Seat, int>, b: map<Seat, int>, id: string)
    requires SameRows(a, b, id) && PlayerAgrees(p, a, id)
    ensures PlayerAgrees(p, b, id)
  {
    if HasRow(a, id) {
      var k :| k in a && k.id == id;
      assert k in b;
    }
    if p.onlineSince.Some? {
      var k :| k in a && k.id == id && a[k] == p.onlineSince.value;
      assert b[k] == p.onlineSince.value;
    }
  }

  /** A row of his own, put there now, is the earliest only when he had none. */
  lemma RowAgrees(p: Player, rows: map<Seat, int>, seat: Seat, now: int)
    requires PlayerAgrees(p, rows, seat.id) && forall k | k in rows :: rows[k] <= now
    ensures PlayerAgrees(p.(online := true, onlineSince := Coalesce(p.onlineSince, now)), WithRow(rows, seat, now),
                         seat.id)
  {
    var after := WithRow(rows, seat, now);
    assert seat in after && seat.id == seat.id;
    if p.onlineSince.Some? {
      var k :| k in rows && k.id == seat.id && rows[k] == p.onlineSince.value;
      assert after[k] == p.onlineSince.value;
    } else {
      assert seat !in rows;
      assert after[seat] == now;
    }
  }

  lemma RecomputedAgrees(p: Player, rows: map<Seat, int>, id: string)
    ensures PlayerAgrees(Recomputed(p, rows, id), rows, id)
  {
  }

  lemma NoRowAgrees(rows: map<Seat, int>, id: string, sessions: nat, character: string, now: int)
    requires !HasRow(rows, id)
    ensures PlayerAgrees(Player(false, None, sessions, character, now), rows, id)
  {
  }

  lemma OtherDetails(p: Player, rows: map<Seat, int>, id: string, sessions: nat, character: string, lastSeen: int)
    requires PlayerAgrees(p, rows, id)
    ensures PlayerAgrees(p.(sessions := sessions, character := character, lastSeen := lastSeen), rows, id)
  {
  }

  lemma UnknownHasNoRow(t: Tables, id: string)
    requires Agrees(t) && id !in t.players
    ensures !HasRow(t.rows, id)
  {
  }

  /** A player's row beside the others'. */
  lemma PutAgrees(t: Tables, u: Tables, id: string)
    requires Agrees(t) && id in u.players && u.players == t.players[id := u.players[id]]
    requires PlayerAgrees(u.players[id], u.rows, id)
    requires forall k | k in u.rows :: k.instance > 0 && (k in t.rows || k.id == id)
    requires forall j | j != id :: SameRows(t.rows, u.rows, j)
    ensures Agrees(u)
  {
    hide PlayerAgrees, SameRows;
    forall j | j in u.players ensures PlayerAgrees(u.players[j], u.rows, j) {
      if j != id {
        SameRowsAgree(t.players[j], t.rows, u.rows, j);
      }
    }
  }

  /** The row a statement starts from: the player's, or a new one. */
  lemma StartAgrees(t: Tables, id: string)
    requires Agrees(t)
    ensures PlayerAgrees(if id in t.players then t.players[id] else Player(false, None, 0, "", 0), t.rows, id)
  {
    if id !in t.players {
      UnknownHasNoRow(t, id);
      NoRowAgrees(t.rows, id, 0, "", 0);
    }
  }

  lemma OnlineAgrees(t: Tables, instance: int, id: string, now: int)
    requires Agrees(t) && By(t, now) && instance > 0
    ensures Agrees(AfterOnline(t, instance, id, now)) && By(AfterOnline(t, instance, id, now), now)
  {
    hide PlayerAgrees, HasRow;
    var u := AfterOnline(t, instance, id, now);
    var p := if id in t.players then t.players[id] else Player(false, None, 0, "", 0);
    StartAgrees(t, id);
    RowAgrees(p, t.rows, Seat(instance, id), now);
    var q := p.(online := true, onlineSince := Coalesce(p.onlineSince, now));
    OtherDetails(q, u.rows, id, q.sessions, q.character, now);
    PutAgrees(t, u, id);
  }

  lemma SeenAgrees(t: Tables, instance: int, id: string, character: string, joined: bool, now: int)
    requires Agrees(t) && By(t, now)
    ensures Agrees(AfterSeen(t, instance, id, character, joined, now))
            && By(AfterSeen(t, instance, id, character, joined, now), now)
  {
    hide PlayerAgrees, HasRow;
    var u := AfterSeen(t, instance, id, character, joined, now);
    var p := if id in t.players then t.players[id] else Player(false, None, 0, "", 0);
    StartAgrees(t, id);
    if instance > 0 && joined {
      RowAgrees(p, t.rows, Seat(instance, id), now);
      var q := p.(online := true, onlineSince := Coalesce(p.onlineSince, now));
      OtherDetails(q, u.rows, id, u.players[id].sessions, u.players[id].character, now);
    } else {
      OtherDetails(p, u.rows, id, u.players[id].sessions, u.players[id].character, now);
    }
    PutAgrees(t, u, id);
  }

  lemma OfflineAgrees(t: Tables, instance: int, id: string, now: int)
    requires Agrees(t) && By(t, now)
    ensures Agrees(AfterOffline(t, instance, id, now)) && By(AfterOffline(t, instance, id, now), now)
  {
    hide PlayerAgrees, HasRow, Earliest;
    var u := AfterOffline(t, instance, id, now);
    if id in t.players {
      var q := Recomputed(t.players[id], u.rows, id);
      RecomputedAgrees(t.players[id], u.rows, id);
      OtherDetails(q, u.rows, id, q.sessions, q.character, now);
      PutAgrees(t, u, id);
    } else {
      forall j | j in u.players ensures PlayerAgrees(u.players[j], u.rows, j) {
        SameRowsAgree(t.players[j], t.rows, u.rows, j);
      }
    }
  }

  lemma ClearAgrees(t: Tables, instance: int, now: int)
    requires Agrees(t) && By(t, now)
    ensures Agrees(AfterClear(t, instance)) && By(AfterClear(t, instance), now)
  {
    hide PlayerAgrees, HasRow, Recomputed;
    var u := AfterClear(t, instance);
    forall id | id in u.players ensures PlayerAgrees(u.players[id], u.rows, id) {
      if instance > 0 {
        RecomputedAgrees(t.players[id], u.rows, id);
      } else {
        AllOffline(t.players[id], t.rows, id);
      }
    }
  }

  lemma AllOffline(p: Player, rows: map<Seat, int>, id: string)
    requires PlayerAgrees(p, rows, id)
    ensures PlayerAgrees(if p.online then p.(online := false, onlineSince := None) else p, map[], id)
  {
  }

  /** WHEN THE FLAG AND THE ROWS PART. Flagging a player online keeps the tables in agreement just
      when the instance is a real one, or the player has a row already. */
  lemma OnlineAgreesExactly(t: Tables, instance: int, id: string, now: int)
    requires Agrees(t) && By(t, now)
    ensures Agrees(AfterSetOnline(t, instance, id, true, now)) <==> instance > 0 || HasRow(t.rows, id)
  {
    var u := AfterSetOnline(t, instance, id, true, now);
    if instance > 0 {
      OnlineAgrees(t, instance, id, now);
    } else if HasRow(t.rows, id) {
      var k :| k in t.rows && k.id == id;
      hide PlayerAgrees, HasRow;
      RowedPlayer(t, k, now);
      PutAgrees(t, u, id);
    } else {
      assert u.players[id].online && !HasRow(u.rows, id);
      assert !PlayerAgrees(u.players[id], u.rows, id);
    }
  }

  lemma RowedPlayer(t: Tables, k: Seat, now: int)
    requires Agrees(t) && k in t.rows
    ensures k.id in t.players
    ensures PlayerAgrees(t.players[k.id].(online := true, lastSeen := now,
                                          onlineSince := Coalesce(t.players[k.id].onlineSince, now)),
                         t.rows, k.id)
  {
  }

  // ---- workers side by side --------------------------------------------------

  /** What a running worker is in the middle of: the last player on its stream, and how long the
      record of events was when it began. */
  datatype Worker = Worker(last: string, begun: nat)

  datatype World = World(state: State, workers: map<int, Worker>, clock: int)

  datatype Event =
    | Begin(instance: int)
    | Reconnect(instance: int)
    | Read(instance: int, line: Line)
    | End(instance: int)

  function TimeOf(line: Line, clock: int): int {
    if line.Other? then clock else line.at
  }

  /** One worker an instance at a time, real instances, and a clock that does not run back. */
  predicate Possible(w: World, e: Event) {
    match e
    case Begin(n) => n > 0 && n !in w.workers
    case Reconnect(n) => n in w.workers
    case Read(n, line) => n in w.workers && TimeOf(line, w.clock) >= w.clock
    case End(n) => n in w.workers
  }

  ghost function Happen(w: World, e: Event): World
    requires Possible(w, e)
  {
    match e
    case Begin(n) => World(Cleared(w.state, n), w.workers[n := Worker("", |w.state.log|)], w.clock)
    case Reconnect(n) => w.(workers := w.workers[n := w.workers[n].(last := "")])
    case Read(n, line) =>
      var (after, last) := AfterLine(w.state, n, w.workers[n].last, line);
      World(after, w.workers[n := w.workers[n].(last := last)], TimeOf(line, w.clock))
    case End(n) => World(Cleared(w.state, n), w.workers - {n}, w.clock)
  }

  /** The world after the events, or None when one of them cannot happen. */
  ghost function Run(w: World, events: seq<Event>): Option<World> {
    if events == [] then Some(w)
    else
      var before := Run(w, events[..|events| - 1]);
      var e := events[|events| - 1];
      if before.Some? && Possible(before.value, e) then Some(Happen(before.value, e)) else None
  }

  /** The process has just started: no worker, nobody active, tables as they were left. */
  ghost predicate Started(w: World) {
    w.workers == map[] && w.state.active == {} && w.state.log == [] && Agrees(w.state.tables)
      && By(w.state.tables, w.clock)
  }

  // ---- the active set --------------------------------------------------------

  /** While its worker runs, an instance's active players are those with a row; nobody is active on
      an instance without a worker. */
  predicate ActiveAgrees(w: World) {
    && (forall k | k in w.state.active :: k.instance in w.workers)
    && (forall k | k in w.state.tables.rows && k.instance in w.workers :: k in w.state.active)
    && forall k | k in w.state.active :: k in w.state.tables.rows
  }

  lemma RowsAfterOnline(t: Tables, instance: int, id: string, now: int)
    requires instance > 0
    ensures AfterOnline(t, instance, id, now).rows.Keys == t.rows.Keys + {Seat(instance, id)}
  {
  }

  lemma RowsAfterSeen(t: Tables, instance: int, id: string, character: string, joined: bool, now: int)
    requires instance > 0
    ensures AfterSeen(t, instance, id, character, joined, now).rows.Keys ==
            if joined then t.rows.Keys + {Seat(instance, id)} else t.rows.Keys
  {
  }

  lemma RowsAfterOffline(t: Tables, instance: int, id: string, now: int)
    requires instance > 0
    ensures AfterOffline(t, instance, id, now).rows.Keys == t.rows.Keys - {Seat(instance, id)}
  {
  }

  /** What a line does to the active set and to the rows. */
  lemma LineSeats(s: State, instance: int, last: string, line: Line)
    requires instance > 0
    ensures var u := AfterLine(s, instance, last, line).0;
            match line
            case Connected(id, _) =>
              u.active == s.active + {Seat(instance, id)}
              && u.tables.rows.Keys == s.tables.rows.Keys + {Seat(instance, id)}
            case Closed(id, _) =>
              u.active == s.active - {Seat(instance, id)}
              && u.tables.rows.Keys == s.tables.rows.Keys - {Seat(instance, id)}
            case _ => u.active == s.active && u.tables.rows.Keys == s.tables.rows.Keys
  {
    hide AfterSeen, AfterOnline, AfterOffline;
    LineCases(s, instance, last, line);
    match line
    case Connected(id, at) =>
      var seen := AfterSeen(s.tables, instance, id, "", true, at);
      RowsAfterSeen(s.tables, instance, id, "", true, at);
      RowsAfterOnline(s.tables, instance, id, at);
      RowsAfterOnline(seen, instance, id, at);
    case Character(name, at) =>
      RowsAfterSeen(s.tables, instance, last, name, false, at);
    case Closed(id, at) =>
      RowsAfterOffline(s.tables, instance, id, at);
    case Other =>
  }

  lemma ClearedSeats(s: State, instance: int)
    requires instance > 0
    ensures forall k :: k in Cleared(s, instance).active <==> k in s.active && k.instance != instance
    ensures forall k :: k in Cleared(s, instance).tables.rows <==> k in s.tables.rows && k.instance != instance
    ensures Cleared(s, instance).log == s.log
  {
  }

  /** Workers run for real instances, and started no later than now. */
  predicate WorkersReal(w: World) {
    forall n | n in w.workers :: n > 0 && w.workers[n].begun <= |w.state.log|
  }

  lemma LogGrows(s: State, instance: int, last: string, line: Line)
    ensures s.log <= AfterLine(s, instance, last, line).0.log
  {
    hide AfterSeen, AfterSetOnline;
  }

  lemma EventKeepsWorkers(w: World, e: Event)
    requires Possible(w, e) && WorkersReal(w)
    ensures WorkersReal(Happen(w, e))
  {
    hide AfterLine;
    match e
    case Begin(n) => ClearedSeats(w.state, n);
    case Reconnect(n) =>
    case Read(n, line) => LogGrows(w.state, n, w.workers[n].last, line);
    case End(n) => ClearedSeats(w.state, n);
  }

  lemma EventKeepsActive(w: World, e: Event)
    requires Possible(w, e) && WorkersReal(w) && ActiveAgrees(w)
    ensures ActiveAgrees(Happen(w, e))
  {
    hide AfterLine, Cleared;
    match e
    case Begin(n) => ClearedSeats(w.state, n);
    case Reconnect(n) =>
    case Read(n, line) => LineSeats(w.state, n, w.workers[n].last, line);
    case End(n) => ClearedSeats(w.state, n);
  }

  // ---- the tables, over a run ------------------------------------------------

  lemma LineAgrees(s: State, instance: int, last: string, line: Line, clock: int)
    requires instance > 0 && Agrees(s.tables) && By(s.tables, clock) && TimeOf(line, clock) >= clock
    ensures Agrees(AfterLine(s, instance, last, line).0.tables)
    ensures By(AfterLine(s, instance, last, line).0.tables, TimeOf(line, clock))
  {
    hide AfterSeen, AfterOnline, AfterOffline, Agrees;
    LineCases(s, instance, last, line);
    match line
    case Connected(id, at) =>
      var seen := AfterSeen(s.tables, instance, id, "", true, at);
      SeenAgrees(s.tables, instance, id, "", true, at);
      OnlineAgrees(s.tables, instance, id, at);
      OnlineAgrees(seen, instance, id, at);
    case Character(name, at) =>
      SeenAgrees(s.tables, instance, last, name, false, at);
    case Closed(id, at) =>
      OfflineAgrees(s.tables, instance, id, at);
    case Other =>
  }

  lemma EventKeepsTables(w: World, e: Event)
    requires Possible(w, e) && WorkersReal(w) && Agrees(w.state.tables) && By(w.state.tables, w.clock)
    ensures Agrees(Happen(w, e).state.tables) && By(Happen(w, e).state.tables, Happen(w, e).clock)
  {
    hide AfterLine, Agrees, By, AfterClear;
    match e
    case Begin(n) => ClearAgrees(w.state.tables, n, w.clock);
    case Reconnect(n) =>
    case Read(n, line) => LineAgrees(w.state, n, w.workers[n].last, line, w.clock);
    case End(n) => ClearAgrees(w.state.tables, n, w.clock);
  }

  // ---- sessions --------------------------------------------------------------

  function Sessions(t: Tables, id: string): nat {
    if id in t.players then t.players[id].sessions else 0
  }

  function Joins(log: seq<Entry>, id: string): nat {
    if log == [] then 0
    else Joins(log[..|log| - 1], id) + if log[|log| - 1].Joined? && log[|log| - 1].id == id then 1 else 0
  }

  lemma JoinsOneMore(log: seq<Entry>, e: Entry, id: string)
    ensures Joins(log + [e], id) == Joins(log, id) + if e.Joined? && e.id == id then 1 else 0
  {
    assert (log + [e])[..|log|] == log;
  }

  lemma SessionsKept(t: Tables, instance: int, id: string, online: bool, now: int, j: string)
    ensures Sessions(AfterSetOnline(t, instance, id, online, now), j) == Sessions(t, j)
  {
    hide HasRow, Earliest;
  }

  lemma SessionsSeen(t: Tables, instance: int, id: string, character: string, joined: bool, now: int, j: string)
    ensures Sessions(AfterSeen(t, instance, id, character, joined, now), j) ==
            Sessions(t, j) + if joined && j == id then 1 else 0
  {
  }

  lemma SessionsCleared(t: Tables, instance: int, j: string)
    ensures Sessions(AfterClear(t, instance), j) == Sessions(t, j)
  {
    hide HasRow, Earliest;
  }

  /** A line adds to a player's sessions just what it adds to his joins. */
  lemma LineSessions(s: State, instance: int, last: string, line: Line, j: string)
    ensures var u := AfterLine(s, instance, last, line).0;
            Sessions(u.tables, j) - Joins(u.log, j) == Sessions(s.tables, j) - Joins(s.log, j)
  {
    hide AfterSeen, AfterSetOnline, Sessions, Joins;
    LineCases(s, instance, last, line);
    match line
    case Connected(id, at) =>
      var seen := AfterSeen(s.tables, instance, id, "", true, at);
      SessionsSeen(s.tables, instance, id, "", true, at, j);
      SessionsKept(s.tables, instance, id, true, at, j);
      SessionsKept(seen, instance, id, true, at, j);
      JoinsOneMore(s.log, Joined(instance, id), j);
    case Character(name, at) =>
      SessionsSeen(s.tables, instance, last, name, false, at, j);
    case Closed(id, at) =>
      SessionsKept(s.tables, instance, id, false, at, j);
      JoinsOneMore(s.log, Left(instance, id), j);
    case Other =>
  }

  lemma EventSessions(w: World, e: Event, j: string)
    requires Possible(w, e)
    ensures var u := Happen(w, e).state;
            Sessions(u.tables, j) - Joins(u.log, j) == Sessions(w.state.tables, j) - Joins(w.state.log, j)
  {
    hide AfterLine, AfterClear, Sessions, Joins;
    match e
    case Begin(n) => SessionsCleared(w.state.tables, n, j);
    case Reconnect(n) =>
    case Read(n, line) => LineSessions(w.state, n, w.workers[n].last, line, j);
    case End(n) => SessionsCleared(w.state.tables, n, j);
  }

  // ---- joins and leaves take turns -------------------------------------------

  /** Whether the player is on the instance after the entries, or None when two joins or two leaves
      of his follow each other, or he leaves first. */
  function Turns(log: seq<Entry>, seat: Seat): Option<bool> {
    if log == [] then Some(false)
    else
      var before, e := Turns(log[..|log| - 1], seat), log[|log| - 1];
      if e == Joined(seat.instance, seat.id) then (if before == Some(false) then Some(true) else None)
      else if e == Left(seat.instance, seat.id) then (if before == Some(true) then Some(false) else None)
      else before
  }

  lemma TurnsOneMore(log: seq<Entry>, e: Entry, seat: Seat)
    ensures Turns(log + [e], seat) ==
            var before := Turns(log, seat);
            if e == Joined(seat.instance, seat.id) then (if before == Some(false) then Some(true) else None)
            else if e == Left(seat.instance, seat.id) then (if before == Some(true) then Some(false) else None)
            else before
  {
    assert (log + [e])[..|log|] == log;
  }

  /** Since its worker began, a player's joins and leaves take turns, and end with a join just when
      he is active. */
  predicate TakeTurns(w: World, seat: Seat) {
    seat.instance in w.workers && w.workers[seat.instance].begun <= |w.state.log| ==>
      Turns(w.state.log[w.workers[seat.instance].begun..], seat) == Some(seat in w.state.active)
  }

  lemma LineTurns(s: State, instance: int, last: string, line: Line, begun: nat, seat: Seat)
    requires begun <= |s.log| && Turns(s.log[begun..], seat) == Some(seat in s.active)
    ensures var u := AfterLine(s, instance, last, line).0;
            begun <= |u.log| && Turns(u.log[begun..], seat) == Some(seat in u.active)
  {
    hide AfterSeen, AfterSetOnline, Turns;
    LineCases(s, instance, last, line);
    match line
    case Connected(id, at) =>
      TurnsOneMore(s.log[begun..], Joined(instance, id), seat);
      assert (s.log + [Joined(instance, id)])[begun..] == s.log[begun..] + [Joined(instance, id)];
    case Character(name, at) =>
    case Closed(id, at) =>
      TurnsOneMore(s.log[begun..], Left(instance, id), seat);
      assert (s.log + [Left(instance, id)])[begun..] == s.log[begun..] + [Left(instance, id)];
    case Other =>
  }

  lemma EventTurns(w: World, e: Event, seat: Seat)
    requires Possible(w, e) && WorkersReal(w) && ActiveAgrees(w) && TakeTurns(w, seat)
    ensures TakeTurns(Happen(w, e), seat)
  {
    hide AfterLine, Cleared, Turns;
    match e
    case Begin(n) =>
      ClearedSeats(w.state, n);
      NoTurns(w.state.log, seat);
    case Reconnect(n) =>
    case Read(n, line) =>
      if seat.instance in w.workers {
        LineTurns(w.state, n, w.workers[n].last, line, w.workers[seat.instance].begun, seat);
      }
    case End(n) => ClearedSeats(w.state, n);
  }

  lemma NoTurns(log: seq<Entry>, seat: Seat)
    ensures Turns(log[|log|..], seat) == Some(false)
  {
  }

  // ---- every run -------------------------------------------------------------

  lemma LastEvent(w: World, events: seq<Event>) returns (b: World, e: Event)
    requires events != [] && Run(w, events).Some?
    ensures Run(w, events[..|events| - 1]) == Some(b) && e == events[|events| - 1]
    ensures Possible(b, e) && Run(w, events) == Some(Happen(b, e))
  {
    hide Happen, Possible;
    b, e := Run(w, events[..|events| - 1]).value, events[|events| - 1];
  }

  /** PRESENCE AGREES IN EVERY RUN. Whatever the workers read and however they interleave and
      reconnect: a player is flagged online just when he has a presence row, since the earliest of
      them; and a running worker's active set is its instance's rows. */
  lemma {:induction false} RunAgrees(w: World, events: seq<Event>)
    requires Started(w) && Run(w, events).Some?
    ensures var u := Run(w, events).value;
            Agrees(u.state.tables) && By(u.state.tables, u.clock) && WorkersReal(u) && ActiveAgrees(u)
  {
    hide Agrees, By, Happen, Possible, Run;
    if events == [] {
      NoEvents(w);
    } else {
      hide WorkersReal, ActiveAgrees;
      var b, e := LastEvent(w, events);
      RunAgrees(w, events[..|events| - 1]);
      EventKeepsTables(b, e);
      EventKeepsWorkers(b, e);
      EventKeepsActive(b, e);
    }
  }

  lemma NoEvents(w: World)
    ensures Run(w, []) == Some(w)
  {
  }

  /** SESSIONS ARE JOINS IN EVERY RUN: a player's session counter grows by one with each join that
      is recorded, on whichever instance. */
  lemma {:induction false} RunSessions(w: World, events: seq<Event>, id: string)
    requires Started(w) && Run(w, events).Some?
    ensures var u := Run(w, events).value.state;
            Sessions(u.tables, id) == Sessions(w.state.tables, id) + Joins(u.log, id)
  {
    hide Agrees, By, Happen, Possible, Run, Sessions;
    if events == [] {
      NoEvents(w);
    } else {
      hide Joins;
      var b, e := LastEvent(w, events);
      RunSessions(w, events[..|events| - 1], id);
      EventSessions(b, e, id);
    }
  }

  /** JOINS AND LEAVES TAKE TURNS IN EVERY RUN, for each player and each worker since it began. */
  lemma {:induction false} RunTakesTurns(w: World, events: seq<Event>, seat: Seat)
    requires Started(w) && Run(w, events).Some?
    ensures TakeTurns(Run(w, events).value, seat)
  {
    hide Agrees, By, Happen, Possible, Run;
    if events == [] {
      NoEvents(w);
    } else {
      hide TakeTurns, WorkersReal, ActiveAgrees;
      var b, e := LastEvent(w, events);
      RunTakesTurns(w, events[..|events| - 1], seat);
      RunAgrees(w, events[..|events| - 1]);
      EventTurns(b, e, seat);
    }
  }

  /** So the count shown for a running instance is the number of its active players. */
  lemma CountIsActive(w: World, events: seq<Event>, instance: int)
    requires Started(w) && Run(w, events).Some? && instance in Run(w, events).value.workers
    ensures var u := Run(w, events).value.state;
            (set k | k in u.tables.rows && k.instance == instance) == (set k | k in u.active && k.instance == instance)
  {
    hide Run, Started;
    RunAgrees(w, events);
  }

  /** And the players counted online are those with a row on some instance. */
  lemma OnlineIsPresent(w: World, events: seq<Event>)
    requires Started(w) && Run(w, events).Some?
    ensures var t := Run(w, events).value.state.tables;
            (set id | id in t.players && t.players[id].online) == (set k | k in t.rows :: k.id)
  {
    hide Run, Started, By;
    RunAgrees(w, events);
    var t := Run(w, events).value.state.tables;
    forall id ensures id in t.players && t.players[id].online <==> exists k | k in t.rows :: k.id == id {
      assert id in t.players ==> PlayerAgrees(t.players[id], t.rows, id);
    }
  }
}
