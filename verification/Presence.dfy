/** The player roster and who is online, driven by the log workers: internal/infra/store/presence.go,
    internal/infra/store/queries.go, lines 11-46, and internal/app/ingest/ingest.go. */
module Presence {
  import opened Wrappers

  /** A player's row. */
  datatype Player = Player(online: bool, onlineSince: Option<int>, sessions: nat, character: string, lastSeen: int)

  /** The key of an instance_presence row, and of an entry of the active set. */
  datatype Seat = Seat(instance: int, id: string)

  /** The two tables. A presence row is kept as the time it is online since: rows are only ever
      inserted online. */
  datatype Tables = Tables(players: map<string, Player>, rows: map<Seat, int>)

  // ---- the statements --------------------------------------------------------

  ghost predicate HasRow(rows: map<Seat, int>, id: string) {
    exists k | k in rows :: k.id == id
  }

  ghost predicate IsEarliest(rows: map<Seat, int>, id: string, since: Option<int>) {
    match since
    case None => !HasRow(rows, id)
    case Some(s) =>
      (exists k | k in rows :: k.id == id && rows[k] == s) && forall k | k in rows && k.id == id :: s <= rows[k]
  }

  /** SELECT MIN(online_since) of a player's presence rows. */
  ghost function Earliest(rows: map<Seat, int>, id: string): (since: Option<int>)
    ensures IsEarliest(rows, id, since)
  {
    EarliestExists(rows, id);
    var s :| IsEarliest(rows, id, s);
    s
  }

  lemma {:induction false} EarliestExists(rows: map<Seat, int>, id: string)
    ensures exists s :: IsEarliest(rows, id, s)
    decreases |rows|
  {
    if HasRow(rows, id) {
      var k :| k in rows && k.id == id;
      var rest := rows - {k};
      EarliestExists(rest, id);
      var s :| IsEarliest(rest, id, s);
      var m := if s.Some? && s.value < rows[k] then s else Some(rows[k]);
      assert IsEarliest(rows, id, m) by {
        assert forall j | j in rows :: j == k || j in rest;
        if m == s {
          var j :| j in rest && j.id == id && rest[j] == s.value;
          assert rows[j] == s.value;
        }
      }
    } else {
      assert IsEarliest(rows, id, None);
    }
  }

  lemma EarliestUnique(rows: map<Seat, int>, id: string, a: Option<int>, b: Option<int>)
    requires IsEarliest(rows, id, a) && IsEarliest(rows, id, b)
    ensures a == b
  {
    if a.Some? && b.Some? {
      var j :| j in rows && j.id == id && rows[j] == a.value;
      var k :| k in rows && k.id == id && rows[k] == b.value;
    }
  }

  function Coalesce(since: Option<int>, now: int): Option<int> {
    if since.Some? then since else Some(now)
  }

  /** INSERT INTO instance_presence, keeping the time of a row that is there. */
  function WithRow(rows: map<Seat, int>, seat: Seat, now: int): map<Seat, int> {
    if seat in rows then rows else rows[seat := now]
  }

  function Without(rows: map<Seat, int>, instance: int): map<Seat, int> {
    map k | k in rows && k.instance != instance :: rows[k]
  }

  function WithoutPlayer(rows: map<Seat, int>, id: string): map<Seat, int> {
    map k | k in rows && k.id != id :: rows[k]
  }

  /** A player's row recomputed from the presence rows. */
  ghost function Recomputed(p: Player, rows: map<Seat, int>, id: string): Player {
    p.(online := HasRow(rows, id), onlineSince := Earliest(rows, id))
  }

  ghost function AfterOnline(t: Tables, instance: int, id: string, now: int): Tables {
    var p := if id in t.players then
               t.players[id].(online := true, onlineSince := Coalesce(t.players[id].onlineSince, now), lastSeen := now)
             else Player(true, Some(now), 0, "", now);
    Tables(t.players[id := p], if instance > 0 then WithRow(t.rows, Seat(instance, id), now) else t.rows)
  }

  ghost function AfterOffline(t: Tables, instance: int, id: string, now: int): Tables {
    var rows := if instance > 0 then t.rows - {Seat(instance, id)} else WithoutPlayer(t.rows, id);
    Tables(if id in t.players then t.players[id := Recomputed(t.players[id], rows, id).(lastSeen := now)]
           else t.players, rows)
  }

  ghost function AfterSetOnline(t: Tables, instance: int, id: string, online: bool, now: int): Tables {
    if online then AfterOnline(t, instance, id, now) else AfterOffline(t, instance, id, now)
  }

  ghost function AfterSeen(t: Tables, instance: int, id: string, character: string, joined: bool, now: int): Tables {
    var inc := if joined then 1 else 0;
    var seen := if id in t.players then
                  t.players[id].(lastSeen := now,
                                 character := if character == "" then t.players[id].character else character,
                                 sessions := t.players[id].sessions + inc)
                else Player(false, None, inc, character, now);
    if instance > 0 && joined then
      Tables(t.players[id := seen.(online := true, onlineSince := Coalesce(seen.onlineSince, now), lastSeen := now)],
             WithRow(t.rows, Seat(instance, id), now))
    else Tables(t.players[id := seen], t.rows)
  }

  /** UPDATE players: nobody is online any more. */
  function AllOffline(players: map<string, Player>): map<string, Player> {
    map id | id in players ::
      if players[id].online then players[id].(online := false, onlineSince := None) else players[id]
  }

  ghost function AfterClear(t: Tables, instance: int): Tables {
    if instance > 0 then
      var rows := Without(t.rows, instance);
      Tables(map id | id in t.players :: Recomputed(t.players[id], rows, id), rows)
    else
      Tables(AllOffline(t.players), map[])
  }

  lemma AfterSeenIs(t: Tables, instance: int, id: string, character: string, joined: bool, now: int)
    ensures var inc := if joined then 1 else 0;
            var seen := if id in t.players then
                          t.players[id].(lastSeen := now,
                                         character := if character == "" then t.players[id].character else character,
                                         sessions := t.players[id].sessions + inc)
                        else Player(false, None, inc, character, now);
            AfterSeen(t, instance, id, character, joined, now) ==
            if instance > 0 && joined then
              Tables(t.players[id := seen][id := seen.(online := true, onlineSince := Coalesce(seen.onlineSince, now),
                                                       lastSeen := now)],
                     if Seat(instance, id) in t.rows then t.rows else t.rows[Seat(instance, id) := now])
            else Tables(t.players[id := seen], t.rows)
  {
    hide Coalesce;
  }

  /** Every player recomputed from the rows that are left. */
  ghost predicate AllRecomputed(updated: map<string, Player>, players: map<string, Player>, rows: map<Seat, int>) {
    forall id | id in updated :: id in players && updated[id] == Recomputed(players[id], rows, id)
  }

  lemma RecomputedMore(updated: map<string, Player>, players: map<string, Player>, rows: map<Seat, int>, id: string,
                       since: Option<int>)
    requires AllRecomputed(updated, players, rows) && id in players && since == Earliest(rows, id)
    ensures AllRecomputed(updated[id := players[id].(online := since.Some?, onlineSince := since)], players, rows)
  {
    SinceMeansOnline(rows, id);
    hide Earliest, HasRow;
  }

  lemma NothingRecomputed(players: map<string, Player>, rows: map<Seat, int>)
    ensures AllRecomputed(map[], players, rows)
  {
  }

  lemma AfterClearIs(t: Tables, instance: int, updated: map<string, Player>)
    requires instance > 0 && updated.Keys == t.players.Keys
             && AllRecomputed(updated, t.players, Without(t.rows, instance))
    ensures AfterClear(t, instance) == Tables(updated, Without(t.rows, instance))
  {
    hide Without, Recomputed;
  }

  lemma AfterClearAll(t: Tables, instance: int)
    requires instance <= 0
    ensures AfterClear(t, instance) == Tables(AllOffline(t.players), map[])
  {
  }

  // ---- the store -------------------------------------------------------------

  class Store {
    var players: map<string, Player>
    var rows: map<Seat, int>

    constructor (players: map<string, Player>, rows: map<Seat, int>)
      ensures this.players == players && this.rows == rows
    {
      this.players := players;
      this.rows := rows;
    }

    ghost function Now(): Tables
      reads this
    {
      Tables(players, rows)
    }

    /** SELECT MIN(online_since): NULL when the player has no presence row. */
    method MinSince(id: string) returns (since: Option<int>)
      ensures since == Earliest(rows, id)
    {
      since := None;
      var rest := rows.Keys;
      while rest != {}
        invariant rest <= rows.Keys
        invariant IsEarliest(rows - rest, id, since)
        decreases |rest|
      {
        var k :| k in rest;
        if k.id == id && (since.None? || rows[k] < since.value) {
          EarlierRow(rows, rest, k, id, since);
          since := Some(rows[k]);
        } else {
          OtherRow(rows, rest, k, id, since);
        }
        rest := rest - {k};
      }
      assert rows - rest == rows;
      EarliestUnique(rows, id, since, Earliest(rows, id));
    }

    method SetOnline(instance: int, id: string, online: bool, now: int)
      modifies this
      ensures Now() == AfterSetOnline(old(Now()), instance, id, online, now)
    {
      hide Earliest, HasRow;
      if online {
        if instance > 0 && Seat(instance, id) !in rows {
          rows := rows[Seat(instance, id) := now];
        }
        if id in players {
          var p := players[id];
          players := players[id := p.(online := true, onlineSince := Coalesce(p.onlineSince, now), lastSeen := now)];
        } else {
          players := players[id := Player(true, Some(now), 0, "", now)];
        }
        return;
      }
      if instance > 0 {
        rows := rows - {Seat(instance, id)};
      } else {
        rows := map k | k in rows && k.id != id :: rows[k];
      }
      if id in players {
        var since := MinSince(id);
        SinceMeansOnline(rows, id);
        players := players[id := players[id].(online := since.Some?, onlineSince := since, lastSeen := now)];
      }
    }

    method UpsertSeen(instance: int, id: string, character: string, joined: bool, now: int)
      modifies this
      ensures Now() == AfterSeen(old(Now()), instance, id, character, joined, now)
    {
      hide AfterSeen, Coalesce, WithRow;
      AfterSeenIs(Now(), instance, id, character, joined, now);
      var inc := if joined then 1 else 0;
      if id in players {
        var p := players[id];
        players := players[id := p.(lastSeen := now, character := if character == "" then p.character else character,
                                    sessions := p.sessions + inc)];
      } else {
        players := players[id := Player(false, None, inc, character, now)];
      }
      ghost var seen := players[id];
      if instance > 0 && joined {
        if Seat(instance, id) !in rows {
          rows := rows[Seat(instance, id) := now];
        }
        var p := players[id];
        players := players[id := p.(online := true, onlineSince := Coalesce(p.onlineSince, now), lastSeen := now)];
      }
    }

    method ClearPresence(instance: int)
      modifies this
      ensures Now() == AfterClear(old(Now()), instance)
    {
      hide Earliest, HasRow, Recomputed, AllRecomputed, Without, AfterClear, AllOffline;
      ghost var before := Now();
      if instance > 0 {
        rows := Without(rows, instance);
        NothingRecomputed(players, rows);
        var updated: map<string, Player> := map[];
        var rest := players.Keys;
        while rest != {}
          invariant players == before.players && rows == Without(before.rows, instance) && rest <= players.Keys
          invariant updated.Keys == players.Keys - rest && AllRecomputed(updated, players, rows)
          decreases |rest|
        {
          var id :| id in rest;
          var since := MinSince(id);
          RecomputedMore(updated, players, rows, id, since);
          updated := updated[id := players[id].(online := since.Some?, onlineSince := since)];
          rest := rest - {id};
        }
        players := updated;
        AfterClearIs(before, instance, updated);
      } else {
        AfterClearAll(before, instance);
        rows := map[];
        players := AllOffline(players);
      }
    }
  }

  lemma SinceMeansOnline(rows: map<Seat, int>, id: string)
    ensures HasRow(rows, id) <==> Earliest(rows, id).Some?
  {
    hide Earliest;
    assert IsEarliest(rows, id, Earliest(rows, id));
  }

  lemma EarlierRow(rows: map<Seat, int>, rest: set<Seat>, k: Seat, id: string, since: Option<int>)
    requires rest <= rows.Keys && k in rest && k.id == id && IsEarliest(rows - rest, id, since)
    requires since.None? || rows[k] < since.value
    ensures IsEarliest(rows - (rest - {k}), id, Some(rows[k]))
  {
    assert forall j | j in rows - (rest - {k}) :: j == k || j in rows - rest;
  }

  lemma OtherRow(rows: map<Seat, int>, rest: set<Seat>, k: Seat, id: string, since: Option<int>)
    requires rest <= rows.Keys && k in rest && IsEarliest(rows - rest, id, since)
    requires !(k.id == id && (since.None? || rows[k] < since.value))
    ensures IsEarliest(rows - (rest - {k}), id, since)
  {
    assert forall j | j in rows - (rest - {k}) :: j == k || j in rows - rest;
    if since.Some? {
      var j :| j in rows - rest && j.id == id && (rows - rest)[j] == since.value;
      assert (rows - (rest - {k}))[j] == since.value;
    }
  }
}
