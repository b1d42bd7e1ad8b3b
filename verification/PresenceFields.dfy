/** What one log line leaves in the tables, row by row: internal/app/ingest/ingest.go, lines 116-155, with
    internal/infra/store/presence.go and queries.go, lines 11-46. */
module PresenceFields {
  import opened Wrappers
  import opened Presence
  import opened Ingest

  /** Every player and row but these are as they were. */
  ghost predicate OnlyTouches(was: Tables, now: Tables, id: string, instance: int) {
    && (forall j | j != id :: j in now.players <==> j in was.players)
    && (forall j | j != id && j in was.players :: now.players[j] == was.players[j])
    && (forall k: Seat | !Touches(k, id, instance) :: k in now.rows <==> k in was.rows)
    && (forall k: Seat | !Touches(k, id, instance) && k in was.rows :: now.rows[k] == was.rows[k])
  }

  /** His row on the instance, or every row of his when no instance is named. */
  predicate Touches(k: Seat, id: string, instance: int) {
    k.id == id && (instance <= 0 || k.instance == instance)
  }

  lemma SeenTouches(t: Tables, instance: int, id: string, character: string, joined: bool, now: int)
    ensures OnlyTouches(t, AfterSeen(t, instance, id, character, joined, now), id, instance)
  {
  }

  lemma OnlineTouches(t: Tables, instance: int, id: string, now: int)
    ensures OnlyTouches(t, AfterOnline(t, instance, id, now), id, instance)
  {
  }

  lemma OfflineTouches(t: Tables, instance: int, id: string, now: int)
    ensures OnlyTouches(t, AfterOffline(t, instance, id, now), id, instance)
  {
    hide Recomputed;
  }

  lemma TouchTwice(a: Tables, b: Tables, c: Tables, id: string, instance: int)
    requires OnlyTouches(a, b, id, instance) && OnlyTouches(b, c, id, instance)
    ensures OnlyTouches(a, c, id, instance)
  {
  }

  /** What a sighting leaves of the player. */
  lemma SeenPlayer(t: Tables, instance: int, id: string, character: string, joined: bool, now: int)
    ensures var u := AfterSeen(t, instance, id, character, joined, now);
            && id in u.players && u.players[id].lastSeen == now
            && u.players[id].sessions == (if id in t.players then t.players[id].sessions else 0) +
               (if joined then 1 else 0)
            && u.players[id].character ==
               (if character != "" then character else if id in t.players then t.players[id].character else "")
            && (instance > 0 && joined ==>
                  && u.players[id].online && Seat(instance, id) in u.rows
                  && (Seat(instance, id) in t.rows ==> u.rows == t.rows)
                  && (Seat(instance, id) !in t.rows ==> u.rows == t.rows[Seat(instance, id) := now])
                  && (u.players[id].onlineSince ==
                        if id in t.players && t.players[id].onlineSince.Some? then t.players[id].onlineSince
                          else Some(now)))
            && (instance <= 0 || !joined ==>
                  && u.rows == t.rows
                  && u.players[id].online == (id in t.players && t.players[id].online)
                  && u.players[id].onlineSince == if id in t.players then t.players[id].onlineSince else None)
  {
  }

  /** What flagging a player online leaves of him. */
  lemma OnlinePlayer(t: Tables, instance: int, id: string, now: int)
    ensures var u := AfterSetOnline(t, instance, id, true, now);
            && id in u.players && u.players[id].online && u.players[id].lastSeen == now
            && (u.players[id].onlineSince ==
                  if id in t.players && t.players[id].onlineSince.Some? then t.players[id].onlineSince else Some(now))
            && u.players[id].sessions == (if id in t.players then t.players[id].sessions else 0)
            && u.players[id].character == (if id in t.players then t.players[id].character else "")
            && (instance <= 0 || Seat(instance, id) in t.rows ==> u.rows == t.rows)
            && (instance > 0 && Seat(instance, id) !in t.rows ==> u.rows == t.rows[Seat(instance, id) := now])
  {
  }

  /** What flagging a player offline leaves of him: he is online while another row of his is left. */
  lemma OfflinePlayer(t: Tables, instance: int, id: string, now: int)
    requires instance > 0
    ensures var u := AfterSetOnline(t, instance, id, false, now);
            && u.rows == t.rows - {Seat(instance, id)}
            && (id in u.players <==> id in t.players)
            && (id in t.players ==>
                  && u.players[id].lastSeen == now && u.players[id].sessions == t.players[id].sessions
                  && u.players[id].character == t.players[id].character
                  && (u.players[id].online <==> exists k: Seat :: k in t.rows && k.id == id && k.instance != instance))
  {
    var rows := t.rows - {Seat(instance, id)};
    forall k: Seat ensures (k in rows && k.id == id) <==> (k in t.rows && k.id == id && k.instance != instance) {
      assert k.id == id && k.instance == instance ==> k == Seat(instance, id);
    }
    assert HasRow(rows, id) <==> exists k: Seat :: k in t.rows && k.id == id && k.instance != instance;
    hide Earliest;
  }

  // ---- one line ----------------------------------------------------------------

  /** A JOIN: the player is active, online and last seen now; a new one is counted and recorded. */
  lemma ConnectedLine(s: State, instance: int, last: string, id: string, at: int)
    requires instance > 0
    ensures var ((u, now), new_) := (AfterLine(s, instance, last, Connected(id, at)), Seat(instance, id) !in s.active);
            && now == id && u.active == s.active + {Seat(instance, id)}
            && u.log == (if new_ then s.log + [Joined(instance, id)] else s.log)
            && id in u.tables.players && u.tables.players[id].online && u.tables.players[id].lastSeen == at
            && u.tables.players[id].sessions ==
               (if id in s.tables.players then s.tables.players[id].sessions else 0) + (if new_ then 1 else 0)
            && u.tables.rows.Keys == s.tables.rows.Keys + {Seat(instance, id)}
            && OnlyTouches(s.tables, u.tables, id, instance)
  {
    hide AfterSeen, AfterOnline, AfterOffline, OnlyTouches;
    var seat := Seat(instance, id);
    var seen := if seat in s.active then s.tables else AfterSeen(s.tables, instance, id, "", true, at);
    if seat in s.active {
      NothingTouched(s.tables, id, instance);
    } else {
      SeenPlayer(s.tables, instance, id, "", true, at);
      SeenTouches(s.tables, instance, id, "", true, at);
    }
    OnlinePlayer(seen, instance, id, at);
    OnlineTouches(seen, instance, id, at);
    TouchTwice(s.tables, seen, AfterOnline(seen, instance, id, at), id, instance);
    assert seat in s.active ==> s.active + {seat} == s.active;
  }

  lemma NothingTouched(t: Tables, id: string, instance: int)
    ensures OnlyTouches(t, t, id, instance)
  {
  }

  /** A CHARACTER NAME is the last player's of the stream, if there is one, and nothing else changes of him but
      when he was last seen. */
  lemma CharacterLine(s: State, instance: int, last: string, name: string, at: int)
    ensures var (u, now) := AfterLine(s, instance, last, Character(name, at));
            && now == last && u.active == s.active && u.log == s.log && u.tables.rows == s.tables.rows
            && (last == "" ==> u == s)
            && (last != "" ==>
                  && last in u.tables.players && u.tables.players[last].lastSeen == at
                  && (name != "" ==> u.tables.players[last].character == name)
                  && (last in s.tables.players ==>
                        && u.tables.players[last].sessions == s.tables.players[last].sessions
                        && u.tables.players[last].online == s.tables.players[last].online
                        && (name == "" ==> u.tables.players[last].character == s.tables.players[last].character))
                  && OnlyTouches(s.tables, u.tables, last, instance))
  {
    hide AfterSeen, OnlyTouches;
    if last != "" {
      SeenPlayer(s.tables, instance, last, name, false, at);
      SeenTouches(s.tables, instance, last, name, false, at);
    }
  }

  /** A LEAVE: the player is not active there any more, and recorded as gone if he was. */
  lemma ClosedLine(s: State, instance: int, last: string, id: string, at: int)
    requires instance > 0
    ensures var (u, now) := AfterLine(s, instance, last, Closed(id, at));
            && now == last && u.active == s.active - {Seat(instance, id)}
            && u.log == (if Seat(instance, id) in s.active then s.log + [Left(instance, id)] else s.log)
            && u.tables.rows == s.tables.rows - {Seat(instance, id)}
            && (id in s.tables.players ==>
                  && id in u.tables.players && u.tables.players[id].lastSeen == at
                  && (u.tables.players[id].online <==>
                        exists k: Seat :: k in s.tables.rows && k.id == id && k.instance != instance))
            && OnlyTouches(s.tables, u.tables, id, instance)
  {
    hide AfterOnline, AfterOffline, OnlyTouches;
    OfflinePlayer(s.tables, instance, id, at);
    OfflineTouches(s.tables, instance, id, at);
  }

  /** ANY OTHER LINE changes nothing. */
  lemma OtherLine(s: State, instance: int, last: string)
    ensures AfterLine(s, instance, last, Other) == (s, last)
  {
  }

  /** CLEARING AN INSTANCE drops its rows and active players, records nothing, and leaves online whom another
      instance's row keeps so. */
  lemma ClearedInstance(s: State, instance: int)
    requires instance > 0
    ensures var u := Cleared(s, instance);
            && u.log == s.log
            && (forall k: Seat :: k in u.active <==> k in s.active && k.instance != instance)
            && (forall k: Seat :: k in u.tables.rows <==> k in s.tables.rows && k.instance != instance)
            && (forall k | k in u.tables.rows :: u.tables.rows[k] == s.tables.rows[k])
            && u.tables.players.Keys == s.tables.players.Keys
            && forall id | id in s.tables.players ::
                 && u.tables.players[id].sessions == s.tables.players[id].sessions
                 && u.tables.players[id].character == s.tables.players[id].character
                 && u.tables.players[id].lastSeen == s.tables.players[id].lastSeen
                 && (u.tables.players[id].online <==> exists k: Seat :: k in u.tables.rows && k.id == id)
  {
    hide Earliest;
  }
}
