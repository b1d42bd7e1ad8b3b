/** Going back one update: internal/app/modupdates/checker.go, lines 545-622, and
    internal/infra/store/restore.go. */
module UndoLaws {
  import opened Text
  import opened Wrappers
  import opened ModRefs
  import opened ModLists
  import opened Updates
  import opened ModListLaws

  // ---- the stored row --------------------------------------------------------

  /** A RESTORE POINT KEEPS A LIST, EXACTLY: unless an entry holds a line break, or the list is
      one empty entry. */
  lemma RestoreRoundTrip(list: seq<string>)
    ensures SplitRestore(Join(list, "\n")) == list <==> FreeOf(list, '\n') && list != [""]
  {
    var row := Join(list, "\n");
    SplitFree(row, '\n');
    assert ['\n'] == "\n";
    if list != [] && FreeOf(list, '\n') {
      SplitJoin(list, '\n');
      SplitOne("", '\n');
    }
    hide Split;
  }

  // ---- the list as it is read after an update --------------------------------

  function Total(s: seq<string>): nat {
    if s == [] then 0 else Total(s[..|s| - 1]) + |s[|s| - 1]| + 1
  }

  lemma {:induction false} TotalAppend(a: seq<string>, b: seq<string>)
    ensures Total(a + b) == Total(a) + Total(b)
  {
    if b == [] {
      assert a + b == a;
    } else {
      TotalAppend(a, b[..|b| - 1]);
      assert (a + b)[..|a + b| - 1] == a + b[..|b| - 1];
    }
  }

  /** The total only depends on which entries there are. */
  lemma {:induction false} TotalOfSame(a: seq<string>, b: seq<string>)
    requires multiset(a) == multiset(b)
    ensures Total(a) == Total(b)
  {
    if a == [] {
      assert |multiset(b)| == 0;
    } else {
      var n := |a| - 1;
      var x := a[n];
      assert a == a[..n] + [x];
      assert x in multiset(b);
      var i :| 0 <= i < |b| && b[i] == x;
      Removing(b, i);
      TotalOfSame(a[..n], b[..i] + b[i + 1..]);
    }
  }

  lemma Removing(b: seq<string>, i: nat)
    requires i < |b|
    ensures multiset(b[..i] + b[i + 1..]) == multiset(b) - multiset{b[i]}
    ensures Total(b) == Total(b[..i] + b[i + 1..]) + |b[i]| + 1
  {
    assert b == b[..i] + [b[i]] + b[i + 1..];
    hide Total;
    TotalAppend(b[..i] + [b[i]], b[i + 1..]);
    TotalAppend(b[..i], [b[i]]);
    TotalAppend(b[..i], b[i + 1..]);
    OneTotal(b[i]);
  }

  lemma OneTotal(x: string)
    ensures Total([x]) == |x| + 1
  {
    assert [x][..0] == [];
  }

  /** An entry that is read as it was written, give or take white space. */
  predicate Kept(e: string) {
    Outright(Trim(e))
  }

  lemma BackKeeps(e: string)
    ensures Total(TrimAll(Back(e))) <= |Trim(e)| + 1
    ensures Total(TrimAll(Back(e))) == |Trim(e)| + 1 <==> Kept(e)
    ensures Kept(e) ==> TrimAll(Back(e)) == [Trim(e)]
  {
    var t := Trim(e);
    TrimOfTrimmed(t);
    var u := TrimSuffix(t, "?");
    TrimLength(u);
    OneTotal(Trim(u));
    hide Trim, Trimmed;
    if t != "" && t[0] != '#' {
      assert TrimAll([u]) == [Trim(u)];
    }
  }

  lemma TrimAllAppend(a: seq<string>, b: seq<string>)
    ensures TrimAll(a + b) == TrimAll(a) + TrimAll(b)
  {
    hide Trim;
  }

  lemma {:induction false} BackAllKeeps(entries: seq<string>)
    ensures Total(TrimAll(BackAll(entries))) <= Total(TrimAll(entries))
    ensures Total(TrimAll(BackAll(entries))) == Total(TrimAll(entries)) <==> forall e | e in entries :: Kept(e)
    ensures (forall e | e in entries :: Kept(e)) ==> TrimAll(BackAll(entries)) == TrimAll(entries)
  {
    hide Trim, Kept, Back;
    if entries != [] {
      var n := |entries| - 1;
      var before, e := entries[..n], entries[n];
      assert entries == before + [e];
      BackAllKeeps(before);
      BackKeeps(e);
      TrimAllAppend(before, [e]);
      TrimAllAppend(BackAll(before), Back(e));
      assert TrimAll([e]) == [Trim(e)];
      TotalAppend(TrimAll(before), [Trim(e)]);
      TotalAppend(TrimAll(BackAll(before)), TrimAll(Back(e)));
      OneTotal(Trim(e));
    }
  }

  /** The list just written matches what is read back when every entry is kept, and only then. */
  lemma {:induction false} WrittenMatches(out: seq<string>)
    requires FreeOf(out, '\n')
    ensures multiset(TrimAll(Installed(Unlines(Stored(out))))) == multiset(TrimAll(out)) <==>
            forall e | e in out :: Kept(e)
  {
    hide *;
    ReadsBackAll(out);
    BackAllKeeps(out);
    if multiset(TrimAll(BackAll(out))) == multiset(TrimAll(out)) {
      TotalOfSame(TrimAll(BackAll(out)), TrimAll(out));
    }
  }

  lemma ReadsBackAll(entries: seq<string>)
    requires FreeOf(entries, '\n')
    ensures Installed(Unlines(Stored(entries))) == BackAll(entries)
  {
    hide Split, ListedAll, Stored, BackAll, Unlines;
    StoredFree(entries);
    SplitUnlines(Stored(entries));
    LastBlank(Stored(entries));
    StoredListed(entries);
  }

  // ---- undoing ---------------------------------------------------------------

  /** The state after an update that changed the list. */
  predicate JustUpdated(s: State, u: State, out: seq<string>) {
    u.text == Unlines(Stored(out)) && u.text != s.text
    && u.saved == Some(SavedPoint(Join(Installed(s.text), "\n"), Join(out, "\n")))
  }

  /** What an update leaves: the rewritten list with its restore point, or the list it found. */
  lemma ApplyLeaves(s: State, keys: seq<string>, check: Option<seq<Update>>, trees: Trees, game: Game)
    ensures var (u, r) := AfterApply(s, keys, check, trees, game);
            if r.Ok? && r.value != [] then
              && r.value == Targets(Available(s.report, check), keys)
              && Rewritten(Installed(s.text), r.value, trees, game).Ok?
              && JustUpdated(s, u, Rewritten(Installed(s.text), r.value, trees, game).value)
            else u.text == s.text && u.saved == s.saved
  {
    hide Targets, Rewritten, Installed, Unlines, Stored, Forgotten, Join;
  }

  /** UNDO AFTER AN UPDATE, EXACTLY. When nothing else edited the list, undo goes back unless an
      entry the update wrote does not read as it was written; and the list it leaves reads as the
      list before the update unless that list held an entry that does not. */
  lemma UndoRestores(s: State, u: State, out: seq<string>, check: Option<seq<Update>>)
    requires JustUpdated(s, u, out) && FreeOf(out, '\n') && out != [""]
    ensures var (after, p) := AfterUndo(u, check);
            && (p.Some? <==> forall e | e in out :: Kept(e))
            && after.saved == None
            && if p.Some? then
                 Installed(after.text) == Installed(s.text) <==> forall e | e in Installed(s.text) :: Outright(e)
               else after.text == u.text
  {
    hide *;
    var previous := Installed(s.text);
    UpdatedParts(s, u, out);
    UndoCases(u, check);
    RestoreRoundTrip(out);
    UntouchedMeans(u.saved.value, u.text);
    WrittenMatches(out);
    InstalledFree(s.text);
    RestoreRoundTrip(previous);
    CleanMeans(previous);
    ReplaceReadsBack(previous);
    if previous == [""] {
      EmptyEntryIsLost();
    }
  }

  lemma UpdatedParts(s: State, u: State, out: seq<string>)
    requires JustUpdated(s, u, out)
    ensures u.text == Unlines(Stored(out))
    ensures u.saved == Some(SavedPoint(Join(Installed(s.text), "\n"), Join(out, "\n")))
  {
  }

  lemma UntouchedMeans(row: SavedPoint, text: string)
    ensures Untouched(row, text) <==>
            multiset(TrimAll(Installed(text))) == multiset(TrimAll(SplitRestore(row.applied)))
    ensures PointOf(row) == RestorePoint(SplitRestore(row.previous), SplitRestore(row.applied))
  {
    hide TrimAll, Installed, SplitRestore;
  }

  lemma InstalledFree(text: string)
    ensures FreeOf(Installed(text), '\n')
  {
    SplitFree(text, '\n');
    hide Split, ListedAll;
    ListedFree(Split(text, '\n'));
  }

  lemma CleanMeans(entries: seq<string>)
    requires FreeOf(entries, '\n')
    ensures (forall e | e in entries :: Clean(e)) <==> (forall e | e in entries :: Outright(e))
  {
    hide Outright;
  }

  lemma EmptyEntryIsLost()
    ensures !Outright("")
    ensures SplitRestore(Join([""], "\n")) == [] && Installed(Unlines(Stored([]))) == []
  {
    SplitOne("", '\n');
    TrimOfTrimmed("");
    assert [""][..0] == [];
  }

  /** AN EDITED LIST IS LEFT ALONE. Undo refuses, and drops the point, exactly when what is
      installed is not, entry for entry in any order, what the update wrote. */
  lemma UndoRefusesEdits(s: State, previous: seq<string>, out: seq<string>, check: Option<seq<Update>>)
    requires s.saved == Some(SavedPoint(Join(previous, "\n"), Join(out, "\n"))) && FreeOf(out, '\n') && out != [""]
    ensures var (after, p) := AfterUndo(s, check);
            && (p.None? <==> multiset(TrimAll(Installed(s.text))) != multiset(TrimAll(out)))
            && after.saved == None
            && (p.None? ==> after.text == s.text && after.report == s.report)
  {
    hide *;
    UndoCases(s, check);
    RestoreRoundTrip(out);
    UntouchedMeans(s.saved.value, s.text);
  }

  /** ONE STEP ONLY. After an undo, whatever it did and however the list is edited since, the next
      one is refused and leaves the list alone, until an update writes a new point. */
  lemma SecondUndoRefused(s: State, check: Option<seq<Update>>, text: string, report: seq<Update>)
    ensures var once := AfterUndo(s, check).0;
            var edited := once.(text := text, report := report);
            AfterUndo(edited, check) == (edited, None)
  {
  }

  // ---- every run -------------------------------------------------------------

  /** What can happen to the instance: updates, undos, and edits by anything else. */
  datatype Event =
    | Applied(keys: seq<string>, check: Option<seq<Update>>, trees: Trees)
    | Undone(check: Option<seq<Update>>)
    | Edited(text: string)
    | Refreshed(report: seq<Update>)

  ghost function Happen(s: State, e: Event, game: Game): State {
    match e
    case Applied(keys, check, trees) => AfterApply(s, keys, check, trees, game).0
    case Undone(check) => AfterUndo(s, check).0
    case Edited(text) => s.(text := text)
    case Refreshed(report) => s.(report := report)
  }

  ghost function Run(s: State, events: seq<Event>, game: Game): State {
    if events == [] then s else Happen(Run(s, events[..|events| - 1], game), events[|events| - 1], game)
  }

  /** The j-th event changes the list. */
  ghost predicate Changes(s: State, events: seq<Event>, j: nat, game: Game)
    requires j < |events|
  {
    Run(s, events[..j + 1], game).text != Run(s, events[..j], game).text
  }

  /** The i-th event is an update that changed the list, and the last one, with no undo since. */
  ghost predicate LastChange(s: State, events: seq<Event>, i: nat, game: Game) {
    && i < |events| && events[i].Applied? && Changes(s, events, i, game)
    && forall j | i < j < |events| :: !events[j].Undone? && (events[j].Applied? ==> !Changes(s, events, j, game))
  }

  /** IN EVERY RUN a restore point holds the list as it was just before the last update that
      changed it, and no undo came after that update. */
  lemma {:induction false} PointIsLastChange(s: State, events: seq<Event>, game: Game) returns (i: nat)
    requires s.saved == None && Run(s, events, game).saved.Some?
    ensures LastChange(s, events, i, game)
    ensures Run(s, events, game).saved.value.previous == Join(Installed(Run(s, events[..i], game).text), "\n")
  {
    hide AfterApply, AfterUndo, Join, Installed, Rewritten, Targets, Stored, Unlines;
    var n := |events| - 1;
    var before, e := Run(s, events[..n], game), events[n];
    assert events[..n + 1] == events;
    match e
    case Applied(keys, check, trees) =>
      ApplyLeaves(before, keys, check, trees, game);
      if AfterApply(before, keys, check, trees, game).1.Ok?
        && AfterApply(before, keys, check, trees, game).1.value != [] {
        i := n;
      } else {
        i := PointIsLastChange(s, events[..n], game);
        LastChangeStays(s, events, i, game);
      }
    case Undone(check) =>
      UndoCases(before, check);
      assert false;
    case Edited(text) =>
      i := PointIsLastChange(s, events[..n], game);
      LastChangeStays(s, events, i, game);
    case Refreshed(report) =>
      i := PointIsLastChange(s, events[..n], game);
      LastChangeStays(s, events, i, game);
  }

  lemma SameChange(s: State, events: seq<Event>, n: nat, j: nat, game: Game)
    requires j < n <= |events|
    ensures Changes(s, events[..n], j, game) == Changes(s, events, j, game)
  {
    hide Run;
    assert events[..n][..j] == events[..j] && events[..n][..j + 1] == events[..j + 1];
  }

  lemma LastChangeStays(s: State, events: seq<Event>, i: nat, game: Game)
    requires events != []
    requires LastChange(s, events[..|events| - 1], i, game)
    requires !events[|events| - 1].Undone?
    requires events[|events| - 1].Applied? ==> !Changes(s, events, |events| - 1, game)
    ensures LastChange(s, events, i, game) && events[..|events| - 1][..i] == events[..i]
  {
    hide Changes;
    var n := |events| - 1;
    SameChange(s, events, n, i, game);
    forall j | i < j < n
      ensures !events[j].Undone? && (events[j].Applied? ==> !Changes(s, events, j, game))
    {
      SameChange(s, events, n, j, game);
      assert events[..n][j] == events[j];
    }
  }
}
