/** Merging a whole directory: internal/infra/bepinex/merge.go, lines 11-63. */
module MergeDirs {
  import opened Wrappers
  import opened Overrides
  import opened ConfigFiles
  import opened OverrideText
  import opened Merge
  import opened MergeTheorems
  import opened MergeBreaks
  import Order

  type Files = map<string, string>

  /** A directory on disk; reading or writing some names fails. */
  class Directory {
    var files: Files
    const denied: set<string>

    constructor (files: Files, denied: set<string>)
      ensures this.files == files && this.denied == denied
    {
      this.files := files;
      this.denied := denied;
    }
  }

  /** What became of a file; a write that fails keeps the report of the merge. */
  datatype FileOutcome =
    | Skipped
    | Failed(merged: Option<MergeReport>)
    | Unchanged(report: MergeReport)
    | Changed(report: MergeReport)

  datatype FileResult = FileResult(name: string, outcome: FileOutcome)

  function Body(files: Files, name: string): string {
    if name in files then files[name] else ""
  }

  /** What one turn of the loop does with a file. */
  ghost function FileOutcomeOf(files: Files, readDenied: set<string>, writeDenied: set<string>, text: string,
                               name: string): FileOutcome {
    var items := Recorded(text);
    var body := Body(files, name);
    var report := ReportOf(FileOf("", FileLines(body)), Listing(items));
    if items == map[] then Skipped
    else if name in readDenied then Failed(None)
    else if Merged(body, items) == body then Unchanged(report)
    else if name in writeDenied then Failed(Some(report))
    else Changed(report)
  }

  /** The files the loop writes. */
  ghost function Writes(files: Files, readDenied: set<string>, writeDenied: set<string>, overrides: Files): Files {
    map name | name in overrides && FileOutcomeOf(files, readDenied, writeDenied, overrides[name], name).Changed?
      :: Merged(Body(files, name), Recorded(overrides[name]))
  }

  /** The names in increasing order, each once. */
  predicate Increasing(names: seq<string>) {
    forall i, j | 0 <= i < j < |names| :: Order.Less(names[i], names[j])
  }

  /** sort.Strings on the keys of a map. */
  method SortedNames(keys: set<string>) returns (names: seq<string>)
    ensures Increasing(names) && forall x :: x in names <==> x in keys
  {
    names := [];
    var rest := keys;
    while rest != {}
      invariant rest <= keys && multiset(names) == multiset(keys - rest)
      decreases |rest|
    {
      var name :| name in rest;
      names := names + [name];
      assert keys - (rest - {name}) == (keys - rest) + {name};
      rest := rest - {name};
    }
    assert keys - rest == keys;
    Order.LessOrders();
    names := Order.SortBy(names, Order.Less);
    SortedIncreases(names, keys);
  }

  lemma SortedIncreases(names: seq<string>, keys: set<string>)
    requires Order.InOrder(names, Order.Less) && multiset(names) == multiset(keys)
    ensures Increasing(names) && forall x :: x in names <==> x in keys
  {
    hide Order.Less;
    forall x ensures x in names <==> x in keys {
      assert x in names <==> x in multiset(names);
    }
    forall i, j | 0 <= i < j < |names| ensures Order.Less(names[i], names[j]) {
      Order.LessTotal(names[i], names[j]);
      if names[i] == names[j] {
        TwicePlaced(names, i, j);
        assert false;
      }
    }
  }

  lemma TwicePlaced(names: seq<string>, i: nat, j: nat)
    requires i < j < |names| && names[i] == names[j]
    ensures multiset(names)[names[i]] >= 2
  {
    assert names == names[..i] + [names[i]] + names[i + 1..j] + [names[j]] + names[j + 1..];
  }

  /** Every override file's result, in the order of the names. */
  ghost predicate Reports(results: seq<FileResult>, files: Files, readDenied: set<string>, writeDenied: set<string>,
                          overrides: Files) {
    && (forall i, j | 0 <= i < j < |results| :: Order.Less(results[i].name, results[j].name))
    && (forall r | r in results :: r.name in overrides
         && r.outcome == FileOutcomeOf(files, readDenied, writeDenied, overrides[r.name], r.name))
    && forall name | name in overrides :: exists r | r in results :: r.name == name
  }

  /** MergeDir: merges every override file; out may be the generated directory itself. */
  method MergeDir(generated: Directory, out: Directory, overrides: Files) returns (results: seq<FileResult>)
    modifies out
    ensures Reports(results, old(generated.files), generated.denied, out.denied, overrides)
    ensures out.files ==
            old(out.files) + Writes(old(generated.files), generated.denied, out.denied, overrides)
  {
    hide *;
    ghost var before, start := generated.files, out.files;
    ghost var writes := Writes(before, generated.denied, out.denied, overrides);
    results := [];
    var names := SortedNames(overrides.Keys);
    NothingDone(before, generated.denied, out.denied, overrides, start, names);
    for i := 0 to |names|
      invariant Listed(results, before, generated.denied, out.denied, overrides, names, i)
      invariant out.files == start + (writes - Left(names, i))
      invariant generated.files == (if generated == out then out.files else before)
      invariant generated == out ==> start == before
    {
      var name := names[i];
      LeftStep(names, i);
      assert name in names;
      var body := Body(generated.files, name);
      SameBody(writes, start, out.files, Left(names, i), name);
      var outcome, merged := MergeOne(name, body, overrides[name], generated.denied, out.denied, before);
      WriteStep(before, generated.denied, out.denied, overrides, name);
      WriteOne(writes, start, Left(names, i), Left(names, i + 1), name);
      ListOne(results, before, generated.denied, out.denied, overrides, names, i, outcome);
      if outcome.Changed? {
        out.files := out.files[name := merged];
      }
      results := results + [FileResult(name, outcome)];
    }
    AllDone(results, before, generated.denied, out.denied, overrides, names, writes);
  }

  /** The names the loop has yet to handle. */
  function Left(names: seq<string>, i: nat): set<string>
    requires i <= |names|
  {
    set n | n in names[i..]
  }

  /** The results of the names before i. */
  ghost predicate Listed(results: seq<FileResult>, files: Files, readDenied: set<string>, writeDenied: set<string>,
                         overrides: Files, names: seq<string>, i: nat) {
    && |results| == i <= |names|
    && forall j | 0 <= j < i :: names[j] in overrides
         && results[j].name == names[j]
         && results[j].outcome == FileOutcomeOf(files, readDenied, writeDenied, overrides[names[j]], names[j])
  }

  lemma NothingDone(files: Files, readDenied: set<string>, writeDenied: set<string>, overrides: Files, start: Files,
                    names: seq<string>)
    requires forall x :: x in names <==> x in overrides.Keys
    ensures Listed([], files, readDenied, writeDenied, overrides, names, 0)
    ensures start == start + (Writes(files, readDenied, writeDenied, overrides) - Left(names, 0))
  {
    hide FileOutcomeOf, Merged, Recorded;
    assert names[0..] == names;
    assert Writes(files, readDenied, writeDenied, overrides) - Left(names, 0) == map[];
  }

  lemma LeftStep(names: seq<string>, i: nat)
    requires i < |names| && Increasing(names)
    ensures Left(names, i) == Left(names, i + 1) + {names[i]} && names[i] !in Left(names, i + 1)
  {
    hide Order.Less;
    assert names[i..] == [names[i]] + names[i + 1..];
    Order.LessIrreflexive(names[i]);
    var rest := names[i + 1..];
    assert forall j | 0 <= j < |rest| :: rest[j] == names[i + 1 + j] && Order.Less(names[i], names[i + 1 + j]);
  }

  lemma SameBody(writes: Files, start: Files, files: Files, left: set<string>, name: string)
    requires files == start + (writes - left) && name in left
    ensures Body(files, name) == Body(start, name)
  {
  }

  lemma WriteOne(writes: Files, start: Files, left: set<string>, less: set<string>, name: string)
    requires left == less + {name} && name !in less
    ensures start + (writes - less) ==
            if name in writes then (start + (writes - left))[name := writes[name]] else start + (writes - left)
  {
  }

  lemma ListOne(results: seq<FileResult>, files: Files, readDenied: set<string>, writeDenied: set<string>,
                overrides: Files, names: seq<string>, i: nat, outcome: FileOutcome)
    requires Listed(results, files, readDenied, writeDenied, overrides, names, i) && i < |names|
             && names[i] in overrides
    requires outcome == FileOutcomeOf(files, readDenied, writeDenied, overrides[names[i]], names[i])
    ensures Listed(results + [FileResult(names[i], outcome)], files, readDenied, writeDenied, overrides, names, i + 1)
  {
    hide FileOutcomeOf;
  }

  lemma AllDone(results: seq<FileResult>, files: Files, readDenied: set<string>, writeDenied: set<string>,
                overrides: Files, names: seq<string>, writes: Files)
    requires Increasing(names) && forall x :: x in names <==> x in overrides.Keys
    requires Listed(results, files, readDenied, writeDenied, overrides, names, |names|)
    ensures Reports(results, files, readDenied, writeDenied, overrides)
    ensures writes - Left(names, |names|) == writes
  {
    hide FileOutcomeOf, Order.Less;
    forall name | name in overrides ensures exists r | r in results :: r.name == name {
      assert name in names;
      var j :| 0 <= j < |names| && names[j] == name;
      assert results[j] in results && results[j].name == name;
    }
  }

  lemma WriteStep(files: Files, readDenied: set<string>, writeDenied: set<string>, overrides: Files, name: string)
    requires name in overrides
    ensures var outcome := FileOutcomeOf(files, readDenied, writeDenied, overrides[name], name);
            var w := Writes(files, readDenied, writeDenied, overrides);
            && (outcome.Changed? <==> name in w)
            && (outcome.Changed? ==> w[name] == Merged(Body(files, name), Recorded(overrides[name])))
  {
    hide FileOutcomeOf, Merged, Recorded;
  }

  method MergeOne(name: string, current: string, text: string, readDenied: set<string>, writeDenied: set<string>,
                  ghost files: Files)
    returns (outcome: FileOutcome, merged: string)
    requires current == Body(files, name)
    ensures outcome == FileOutcomeOf(files, readDenied, writeDenied, text, name)
    ensures outcome.Changed? ==> merged == Merged(current, Recorded(text))
  {
    merged := "";
    var items := ParseOverrideSet(text);
    if |items.items| == 0 {
      outcome := Skipped;
      return;
    }
    if name in readDenied {
      outcome := Failed(None);
      return;
    }
    var report;
    var f := ParseConfigFile("", current);
    MergedIs(current, items.items);
    merged, report := MergeFile(f, items);
    if merged == current {
      outcome := Unchanged(report);
    } else if name in writeDenied {
      outcome := Failed(Some(report));
    } else {
      outcome := Changed(report);
    }
  }

  /** WHAT BECOMES OF A FILE: skipped without overrides; failed when it cannot be read, or when a merge that
      changes it cannot be written, which keeps the report; unchanged when the merge is what was there. */
  lemma WhatBecomes(files: Files, readDenied: set<string>, writeDenied: set<string>, text: string, name: string)
    ensures var r, items := FileOutcomeOf(files, readDenied, writeDenied, text, name), Recorded(text);
            var body := if name in files then files[name] else "";
            var same, report := Merged(body, items) == body, ReportOf(FileOf("", FileLines(body)), Listing(items));
            && (r == Skipped <==> items == map[])
            && (r == Failed(None) <==> items != map[] && name in readDenied)
            && (r == Unchanged(report) <==> items != map[] && name !in readDenied && same)
            && (r == Failed(Some(report)) <==> items != map[] && name !in readDenied && !same && name in writeDenied)
            && (r == Changed(report) <==> items != map[] && name !in readDenied && !same && name !in writeDenied)
  {
    hide Merged, Recorded, ReportOf, FileOf, FileLines, Listing;
  }

  // ---- a second pass -----------------------------------------------------------

  /** Reading and writing the file both work, and there is something to substitute. */
  predicate Handled(denied: set<string>, overrides: Files, name: string) {
    name in overrides && Recorded(overrides[name]) != map[] && name !in denied
  }

  /** A SECOND PASS over the directory just merged writes exactly the files in which a line that ends
      in a carriage return is kept above another line; otherwise nothing. */
  lemma SecondPassWrites(files: Files, denied: set<string>, overrides: Files, name: string)
    ensures var merged := files + Writes(files, denied, denied, overrides);
            name in Writes(merged, denied, denied, overrides) <==>
              Handled(denied, overrides, name) && KeepsCr(FileLines(Body(files, name)), Recorded(overrides[name]), 0)
  {
    var merged := files + Writes(files, denied, denied, overrides);
    hide *;
    WritesOnly(merged, denied, overrides, name);
    WritesOnly(files, denied, overrides, name);
    if Handled(denied, overrides, name) {
      HandledParts(denied, overrides, name);
      RecordedIsWellFormed(overrides[name]);
      MergedBody(files, Writes(files, denied, denied, overrides), name);
      MergeAgainExactly(Body(files, name), Recorded(overrides[name]));
    }
  }

  lemma MergedBody(files: Files, writes: Files, name: string)
    ensures Body(files + writes, name) == if name in writes then writes[name] else Body(files, name)
  {
  }

  lemma WritesOnly(files: Files, denied: set<string>, overrides: Files, name: string)
    ensures var w := Writes(files, denied, denied, overrides);
            && (name in w <==> Handled(denied, overrides, name)
                               && Merged(Body(files, name), Recorded(overrides[name])) != Body(files, name))
            && (name in w ==> w[name] == Merged(Body(files, name), Recorded(overrides[name])))
  {
    hide Merged, Recorded, ReportOf, FileOf, FileLines;
  }

  /** So a directory without stray carriage returns is at rest after one pass. */
  lemma SecondPassWritesNothing(files: Files, denied: set<string>, overrides: Files)
    requires forall name | name in overrides :: NoStrayCr(Body(files, name))
    ensures Writes(files + Writes(files, denied, denied, overrides), denied, denied, overrides) == map[]
  {
    hide *;
    var again := Writes(files + Writes(files, denied, denied, overrides), denied, denied, overrides);
    forall name ensures name !in again {
      SecondPassWrites(files, denied, overrides, name);
      if Handled(denied, overrides, name) {
        HandledParts(denied, overrides, name);
        RecordedIsWellFormed(overrides[name]);
        PlainFileSettles(Body(files, name), Recorded(overrides[name]));
      }
    }
  }

  lemma HandledParts(denied: set<string>, overrides: Files, name: string)
    requires Handled(denied, overrides, name)
    ensures name in overrides
  {
  }

  /** With separate directories the generated files stay as they are, so every further pass writes what
      the first one wrote and leaves the output as it is. */
  lemma PassApartSettles(generated: Files, out: Files, readDenied: set<string>, writeDenied: set<string>,
                         overrides: Files)
    ensures var w := Writes(generated, readDenied, writeDenied, overrides);
            (out + w) + w == out + w
            && forall name | name in w :: (out + w)[name] == Merged(Body(generated, name), Recorded(overrides[name]))
  {
    hide FileOutcomeOf, Merged, Recorded;
  }
}
