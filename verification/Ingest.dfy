/** The workers that follow each server's log: internal/app/ingest/ingest.go. */
module Ingest {
  import opened Presence

  /** A line by the expression it matches, and when it is handled. */
  datatype Line =
    | Connected(id: string, at: int)
    | Character(name: string, at: int)
    | Closed(id: string, at: int)
    | Other

  /** A recorded event, with the instance of the worker that recorded it. */
  datatype Entry = Joined(instance: int, id: string) | Left(instance: int, id: string)

  /** The active set, the tables and the recorded events. */
  datatype State = State(active: set<Seat>, tables: Tables, log: seq<Entry>)

  /** One line: the state after it, and the last player that connected on the stream. */
  ghost function AfterLine(s: State, instance: int, last: string, line: Line): (State, string) {
    match line
    case Connected(id, at) =>
      var seat := Seat(instance, id);
      var greeted := if seat in s.active then s
                     else State(s.active + {seat}, AfterSeen(s.tables, instance, id, "", true, at),
                                s.log + [Joined(instance, id)]);
      (greeted.(tables := AfterSetOnline(greeted.tables, instance, id, true, at)), id)
    case Character(name, at) =>
      (if last == "" then s else s.(tables := AfterSeen(s.tables, instance, last, name, false, at)), last)
    case Closed(id, at) =>
      var seat := Seat(instance, id);
      (State(s.active - {seat}, AfterSetOnline(s.tables, instance, id, false, at),
             if seat in s.active then s.log + [Left(instance, id)] else s.log), last)
    case Other => (s, last)
  }

  ghost function AfterLines(s: State, instance: int, lines: seq<Line>): (State, string) {
    if lines == [] then (s, "")
    else
      var (before, last) := AfterLines(s, instance, lines[..|lines| - 1]);
      AfterLine(before, instance, last, lines[|lines| - 1])
  }

  /** Clearing an instance, in memory and in the tables. */
  ghost function Cleared(s: State, instance: int): State {
    State((set k | k in s.active && k.instance != instance), AfterClear(s.tables, instance), s.log)
  }

  ghost function AfterStreams(s: State, instance: int, streams: seq<seq<Line>>): State {
    if streams == [] then s
    else AfterLines(AfterStreams(s, instance, streams[..|streams| - 1]), instance, streams[|streams| - 1]).0
  }

  /** The package's active set, the store and the recorded events. */
  class Workers {
    const store: Store
    var active: set<Seat>
    var log: seq<Entry>

    constructor (store: Store)
      ensures this.store == store && active == {} && log == []
    {
      this.store := store;
      active, log := {}, [];
    }

    ghost function Now(): State
      reads this, store
    {
      State(active, store.Now(), log)
    }

    /** One stream; a cancelled context only makes it shorter. */
    method Consume(instance: int, lines: seq<Line>)
      modifies this, store
      ensures Now() == AfterLines(old(Now()), instance, lines).0
    {
      hide AfterSetOnline, AfterSeen, AfterLines, AfterLine, Store.Now;
      var last := "";
      NoLines(Now(), instance);
      for i := 0 to |lines|
        invariant (Now(), last) == AfterLines(old(Now()), instance, lines[..i])
      {
        LinesStep(old(Now()), instance, lines, i);
        LineCases(Now(), instance, last, lines[i]);
        match lines[i]
        case Connected(id, at) =>
          last := id;
          if Seat(instance, id) !in active {
            active := active + {Seat(instance, id)};
            store.UpsertSeen(instance, id, "", true, at);
            log := log + [Joined(instance, id)];
          }
          store.SetOnline(instance, id, true, at);
        case Character(name, at) =>
          if last != "" {
            store.UpsertSeen(instance, last, name, false, at);
          }
        case Closed(id, at) =>
          var wasActive := Seat(instance, id) in active;
          active := active - {Seat(instance, id)};
          store.SetOnline(instance, id, false, at);
          if wasActive {
            log := log + [Left(instance, id)];
          }
        case Other =>
      }
      assert lines[..|lines|] == lines;
    }

    method Clear(instance: int)
      modifies this, store
      ensures Now() == Cleared(old(Now()), instance)
    {
      hide AfterClear, Store.Now;
      active := set k | k in active && k.instance != instance;
      store.ClearPresence(instance);
    }

    /** A worker's life: it starts and ends with a clear, and reconnects in between. */
    method Run(instance: int, streams: seq<seq<Line>>)
      modifies this, store
      ensures Now() == Cleared(AfterStreams(Cleared(old(Now()), instance), instance, streams), instance)
    {
      hide *;
      Clear(instance);
      label Begun:
      ghost var begun := Now();
      NoStreams(begun, instance);
      for i := 0 to |streams|
        invariant Now() == AfterStreams(begun, instance, streams[..i])
      {
        StreamsStep(begun, instance, streams, i);
        Consume(instance, streams[i]);
      }
      assert streams[..|streams|] == streams;
      Clear(instance);
    }
  }

  lemma NoLines(s: State, instance: int)
    ensures AfterLines(s, instance, []) == (s, "")
  {
  }

  lemma LinesStep(s: State, instance: int, lines: seq<Line>, i: nat)
    requires i < |lines|
    ensures var (before, last) := AfterLines(s, instance, lines[..i]);
            AfterLines(s, instance, lines[..i + 1]) == AfterLine(before, instance, last, lines[i])
  {
    hide AfterLine;
    assert lines[..i + 1][..i] == lines[..i];
  }

  lemma LineCases(s: State, instance: int, last: string, line: Line)
    ensures AfterLine(s, instance, last, line) ==
            match line
            case Connected(id, at) =>
              var seat := Seat(instance, id);
              var greeted := if seat in s.active then s
                             else State(s.active + {seat}, AfterSeen(s.tables, instance, id, "", true, at),
                                        s.log + [Joined(instance, id)]);
              (greeted.(tables := AfterSetOnline(greeted.tables, instance, id, true, at)), id)
            case Character(name, at) =>
              (if last == "" then s else s.(tables := AfterSeen(s.tables, instance, last, name, false, at)), last)
            case Closed(id, at) =>
              var seat := Seat(instance, id);
              (State(s.active - {seat}, AfterSetOnline(s.tables, instance, id, false, at),
                     if seat in s.active then s.log + [Left(instance, id)] else s.log), last)
            case Other => (s, last)
  {
    hide AfterSeen, AfterSetOnline;
  }

  lemma NoStreams(s: State, instance: int)
    ensures AfterStreams(s, instance, []) == s
  {
  }

  lemma StreamsStep(s: State, instance: int, streams: seq<seq<Line>>, i: nat)
    requires i < |streams|
    ensures AfterStreams(s, instance, streams[..i + 1]) ==
            AfterLines(AfterStreams(s, instance, streams[..i]), instance, streams[i]).0
  {
    hide AfterLines;
    assert streams[..i + 1][..i] == streams[..i];
  }
}
