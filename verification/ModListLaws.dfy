/** What installing, removing and replacing mods keep: internal/app/instances/manager.go,
    lines 1070-1091 and 1146-1532. */
module ModListLaws {
  import opened Text
  import opened Wrappers
  import opened ModRefs
  import opened ModLists

  // ---- rows ------------------------------------------------------------------

  lemma FindIs(rows: seq<Row>, key: string, i: nat)
    requires i < |rows| && rows[i].key == Some(key)
    requires forall j | 0 <= j < i :: rows[j].key != Some(key)
    ensures Find(rows, key) == i
  {
  }

  /** More rows at the end, and the same mods in the same order before them. */
  predicate Extends(a: seq<Row>, b: seq<Row>) {
    |a| <= |b| && forall i | 0 <= i < |a| :: b[i].key == a[i].key
  }

  lemma FindExtends(a: seq<Row>, b: seq<Row>, key: string)
    requires Extends(a, b)
    ensures Find(a, key) < |a| ==> Find(b, key) == Find(a, key)
    ensures Find(a, key) == |a| ==> Find(b, key) >= |a|
  {
    var i := Find(a, key);
    if i < |a| {
      assert forall j | 0 <= j < i :: b[j].key == a[j].key;
      FindIs(b, key, i);
    } else {
      assert forall j | 0 <= j < |a| :: b[j].key == a[j].key && a[j].key != Some(key);
    }
  }

  /** Every appended row is the first one of its mod, and was asked for. */
  predicate FreshFrom(rows: seq<Row>, n: nat, wanted: seq<string>, game: Game) {
    n <= |rows| && forall i | n <= i < |rows| ::
      rows[i].key.Some? && Find(rows, rows[i].key.value) == i && Asked(rows[i].key, wanted, game)
  }

  predicate Asked(key: Option<string>, wanted: seq<string>, game: Game) {
    exists j | 0 <= j < |wanted| :: KeyOf(wanted[j], game) == key
  }

  /** A mod that is asked for has a row. */
  predicate Placed(rows: seq<Row>, w: string, game: Game) {
    KeyOf(w, game).Some? ==> Find(rows, KeyOf(w, game).value) < |rows|
  }

  /** The row of the mod the operator typed carries the version he typed. */
  predicate Pinned(rows: seq<Row>, typed: string, game: Game) {
    var r := ParseModRef(typed, game);
    r.Some? && r.value.ver != "" ==>
      var i := Find(rows, r.value.Key());
      i < |rows| && rows[i].line == r.value.Entry()
  }

  /** One step: rows are kept but for the repinned one, and what was asked for is there. */
  lemma PlaceStep(rows: seq<Row>, w: string, typed: bool, cat: Catalogue, game: Game)
    requires Place(rows, w, typed, cat, game).Ok?
    ensures var p := Place(rows, w, typed, cat, game).value;
            && Extends(rows, p) && |p| <= |rows| + 1
            && Placed(p, w, game)
            && (typed ==> Pinned(p, w, game))
            && (!typed ==> p[..|rows|] == rows)
            && (|p| > |rows| ==> p[..|rows|] == rows && p[|rows|].key == KeyOf(w, game) && p[|rows|].key.Some?
                                 && Find(rows, p[|rows|].key.value) == |rows|)
            && forall i | 0 <= i < |rows| && !(KeyOf(w, game).Some? && i == Find(rows, KeyOf(w, game).value)) ::
               p[i] == rows[i]
  {
    hide *;
    PlaceCases(rows, w, typed, cat, game);
    KeyOfCases(w, game);
    var p := Place(rows, w, typed, cat, game).value;
    var parsed := ParseModRef(w, game);
    if parsed.None? {
      NothingPlacedStep(rows, w, game);
    } else {
      var r := parsed.value;
      var i := Find(rows, r.Key());
      if i < |rows| {
        FoundStep(rows, p, w, typed, r, i, game);
      } else {
        VersionedKeeps(r, cat);
        AddedStep(rows, Row(Some(r.Key()), Versioned(r, cat).value.Entry()), w, r, Versioned(r, cat).value, game);
      }
    }
  }

  lemma NothingPlacedStep(rows: seq<Row>, w: string, game: Game)
    requires ParseModRef(w, game).None?
    ensures Extends(rows, rows) && Placed(rows, w, game) && Pinned(rows, w, game) && rows[..|rows|] == rows
  {
    hide ParseModRef, Find;
  }

  lemma FoundStep(rows: seq<Row>, p: seq<Row>, w: string, typed: bool, r: ModRef, i: nat, game: Game)
    requires ParseModRef(w, game) == Some(r) && i == Find(rows, r.Key()) < |rows|
    requires p == if typed && r.ver != "" then rows[i := rows[i].(line := r.Entry())] else rows
    ensures Extends(rows, p) && |p| == |rows| && Placed(p, w, game) && (typed ==> Pinned(p, w, game))
    ensures (!typed ==> p[..|rows|] == rows) && forall j | 0 <= j < |rows| && j != i :: p[j] == rows[j]
  {
    hide ParseModRef, Find;
    FindExtends(rows, p, r.Key());
  }

  lemma AddedStep(rows: seq<Row>, row: Row, w: string, r: ModRef, v: ModRef, game: Game)
    requires ParseModRef(w, game) == Some(r) && Find(rows, r.Key()) == |rows|
    requires row == Row(Some(r.Key()), v.Entry()) && (r.ver != "" ==> v == r)
    ensures var p := rows + [row];
            && Extends(rows, p) && Placed(p, w, game) && Pinned(p, w, game) && p[..|rows|] == rows
            && p[|rows|].key == KeyOf(w, game) == Some(r.Key())
            && forall j | 0 <= j < |rows| :: p[j] == rows[j]
  {
    hide ParseModRef, Find;
    FindNothing(rows, r.Key());
    FindIs(rows + [row], r.Key(), |rows|);
  }

  lemma FindNothing(rows: seq<Row>, key: string)
    requires Find(rows, key) == |rows|
    ensures forall j | 0 <= j < |rows| :: rows[j].key != Some(key)
  {
  }

  lemma VersionedKeeps(r: ModRef, cat: Catalogue)
    ensures Versioned(r, cat).Ok? ==> Versioned(r, cat).value.Key() == r.Key()
    ensures r.ver != "" ==> Versioned(r, cat) == Ok(r)
  {
  }

  lemma ExtendsMore(a: seq<Row>, b: seq<Row>, c: seq<Row>)
    requires Extends(a, b) && Extends(b, c)
    ensures Extends(a, c)
  {
  }

  /** The last wanted mod is placed after all the others. */
  lemma PlaceAllStep(rows: seq<Row>, wanted: seq<string>, cat: Catalogue, game: Game) returns (b: seq<Row>)
    requires wanted != [] && PlaceAll(rows, wanted, cat, game).Ok?
    ensures var n := |wanted| - 1;
            && PlaceAll(rows, wanted[..n], cat, game) == Ok(b)
            && PlaceAll(rows, wanted, cat, game) == Place(b, wanted[n], n == 0, cat, game)
            && (n == 0 ==> b == rows)
  {
    hide Place;
    b := PlaceAll(rows, wanted[..|wanted| - 1], cat, game).value;
  }

  /** ONE ROW PER MOD. The rows that were there keep their mods and their order; every row that is
      added was asked for, and is the only one of its mod. */
  lemma {:induction false} InstalledRows(rows: seq<Row>, wanted: seq<string>, cat: Catalogue, game: Game)
    requires PlaceAll(rows, wanted, cat, game).Ok?
    ensures var p := PlaceAll(rows, wanted, cat, game).value;
            Extends(rows, p) && FreshFrom(p, |rows|, wanted, game)
  {
    if wanted != [] {
      hide PlaceAll, Place, Find, KeyOf;
      var n := |wanted| - 1;
      var b := PlaceAllStep(rows, wanted, cat, game);
      InstalledRows(rows, wanted[..n], cat, game);
      var p := PlaceAll(rows, wanted, cat, game).value;
      PlaceStep(b, wanted[n], n == 0, cat, game);
      ExtendsMore(rows, b, p);
      StepFresh(b, p, |rows|, wanted, game);
    }
  }

  lemma StepFresh(b: seq<Row>, p: seq<Row>, n: nat, wanted: seq<string>, game: Game)
    requires wanted != [] && FreshFrom(b, n, wanted[..|wanted| - 1], game)
    requires Extends(b, p) && |b| <= |p| <= |b| + 1
    requires |p| > |b| ==> p[|b|].key.Some? && p[|b|].key == KeyOf(wanted[|wanted| - 1], game)
                           && Find(b, p[|b|].key.value) == |b|
    ensures FreshFrom(p, n, wanted, game)
  {
    hide Find, KeyOf, Asked, Extends;
    forall i | n <= i < |p|
      ensures p[i].key.Some? && Find(p, p[i].key.value) == i && Asked(p[i].key, wanted, game)
    {
      if i < |b| {
        SameKey(b, p, i);
        FindExtends(b, p, p[i].key.value);
        AskedMore(b[i].key, wanted, game);
      } else {
        NewRowFirst(b, p, p[i].key.value);
        AskedLast(wanted, game);
      }
    }
  }

  lemma SameKey(a: seq<Row>, b: seq<Row>, i: nat)
    requires Extends(a, b) && i < |a|
    ensures i < |b| && b[i].key == a[i].key
  {
  }

  lemma NewRowFirst(b: seq<Row>, p: seq<Row>, key: string)
    requires Extends(b, p) && |p| == |b| + 1 && p[|b|].key == Some(key) && Find(b, key) == |b|
    ensures Find(p, key) == |b|
  {
    hide Find;
    FindNothing(b, key);
    assert forall j | 0 <= j < |b| :: p[j].key == b[j].key;
    FindIs(p, key, |b|);
  }

  lemma AskedLast(wanted: seq<string>, game: Game)
    requires wanted != []
    ensures Asked(KeyOf(wanted[|wanted| - 1], game), wanted, game)
  {
    hide KeyOf;
  }

  lemma AskedMore(key: Option<string>, wanted: seq<string>, game: Game)
    requires wanted != [] && Asked(key, wanted[..|wanted| - 1], game)
    ensures Asked(key, wanted, game)
  {
    hide KeyOf;
    var j :| 0 <= j < |wanted| - 1 && KeyOf(wanted[..|wanted| - 1][j], game) == key;
    assert KeyOf(wanted[j], game) == key;
  }

  /** Everything asked for is there. */
  lemma {:induction false} AllPlaced(rows: seq<Row>, wanted: seq<string>, cat: Catalogue, game: Game, w: string)
    requires PlaceAll(rows, wanted, cat, game).Ok? && w in wanted
    ensures Placed(PlaceAll(rows, wanted, cat, game).value, w, game)
  {
    hide PlaceAll, Place, Find, KeyOf;
    var n := |wanted| - 1;
    var b := PlaceAllStep(rows, wanted, cat, game);
    var p := PlaceAll(rows, wanted, cat, game).value;
    PlaceStep(b, wanted[n], n == 0, cat, game);
    if w != wanted[n] {
      assert w in wanted[..n];
      AllPlaced(rows, wanted[..n], cat, game, w);
      if KeyOf(w, game).Some? {
        FindExtends(b, p, KeyOf(w, game).value);
      }
    }
  }

  predicate Typed(rows: seq<Row>, w: string, game: Game, i: nat) {
    KeyOf(w, game).Some? && i == Find(rows, KeyOf(w, game).value)
  }

  /** Only the typed mod's row may change, and it carries the typed version when there is one. */
  lemma {:induction false} OthersKept(rows: seq<Row>, wanted: seq<string>, cat: Catalogue, game: Game)
    requires wanted != [] && PlaceAll(rows, wanted, cat, game).Ok?
    ensures var p := PlaceAll(rows, wanted, cat, game).value;
            && Pinned(p, wanted[0], game)
            && |rows| <= |p| && forall i | 0 <= i < |rows| && !Typed(rows, wanted[0], game, i) :: p[i] == rows[i]
  {
    hide PlaceAll, Place, Find, KeyOf;
    var n := |wanted| - 1;
    var b := PlaceAllStep(rows, wanted, cat, game);
    var p := PlaceAll(rows, wanted, cat, game).value;
    PlaceStep(b, wanted[n], n == 0, cat, game);
    if n > 0 {
      OthersKept(rows, wanted[..n], cat, game);
      assert wanted[..n][0] == wanted[0];
      assert forall i | 0 <= i < |b| :: p[i] == p[..|b|][i];
      PinnedStays(b, p, wanted[0], game);
    }
  }

  lemma PinnedStays(b: seq<Row>, p: seq<Row>, w: string, game: Game)
    requires Pinned(b, w, game) && Extends(b, p) && p[..|b|] == b
    ensures Pinned(p, w, game)
  {
    hide Find, ParseModRef;
    var r := ParseModRef(w, game);
    if r.Some? && r.value.ver != "" {
      FindExtends(b, p, r.value.Key());
      var i := Find(b, r.value.Key());
      assert p[..|b|][i] == b[i];
    }
  }

  /** Placing what is placed already, with the typed version pinned, changes nothing. */
  lemma {:induction false} PlacedAgain(rows: seq<Row>, wanted: seq<string>, cat: Catalogue, game: Game)
    requires forall w | w in wanted :: Placed(rows, w, game)
    requires wanted != [] ==> Pinned(rows, wanted[0], game)
    ensures PlaceAll(rows, wanted, cat, game) == Ok(rows)
  {
    if wanted != [] {
      hide Place, Find, KeyOf;
      var n := |wanted| - 1;
      assert n > 0 ==> wanted[..n][0] == wanted[0];
      assert forall w | w in wanted[..n] :: w in wanted;
      PlacedAgain(rows, wanted[..n], cat, game);
      assert Placed(rows, wanted[n], game);
      PlaceCases(rows, wanted[n], n == 0, cat, game);
      KeyOfCases(wanted[n], game);
      var r := ParseModRef(wanted[n], game);
      if n == 0 && r.Some? && r.value.ver != "" {
        LineRepinned(rows, Find(rows, r.value.Key()), r.value.Entry());
      }
    }
  }

  // ---- rows and text ---------------------------------------------------------

  /** One line of the file, and what it reads as. */
  predicate Fits(row: Row, game: Game) {
    '\n' !in row.line && !Blank(row.line) && row == RowOf(row.line, game)
  }

  /** The rows are what the lines read as. */
  predicate Faithful(rows: seq<Row>, game: Game) {
    forall i | 0 <= i < |rows| :: Fits(rows[i], game)
  }

  lemma {:induction false} RowsFaithful(ls: seq<string>, game: Game)
    requires FreeOf(ls, '\n')
    ensures Faithful(RowsOf(ls, game), game)
  {
    hide Blank, RowOf;
    if ls != [] {
      RowsFaithful(ls[..|ls| - 1], game);
      RowOfLine(ls[|ls| - 1], game);
    }
  }

  lemma RowOfLine(line: string, game: Game)
    ensures RowOf(line, game).line == line
  {
  }

  lemma TextFaithful(text: string, game: Game)
    ensures Faithful(Rows(text, game), game)
  {
    SplitFree(text, '\n');
    hide Split;
    RowsFaithful(Split(text, '\n'), game);
  }

  lemma {:induction false} LinesReadBack(rows: seq<Row>, game: Game)
    requires Faithful(rows, game)
    ensures RowsOf(LinesOf(rows), game) == rows
  {
    hide Blank, RowOf;
    var n := |rows| - 1;
    if rows != [] {
      LinesReadBack(rows[..n], game);
      assert rows == rows[..n] + [rows[n]];
      LinesOneMore(rows[..n], rows[n]);
      assert LinesOf(rows)[..n] == LinesOf(rows[..n]);
    }
  }

  lemma BlankLast(ls: seq<string>, game: Game)
    ensures RowsOf(ls + [""], game) == RowsOf(ls, game)
  {
    assert (ls + [""])[..|ls|] == ls;
    TrimOfTrimmed("");
    hide Trim;
  }

  lemma RowsFree(rows: seq<Row>, game: Game)
    requires Faithful(rows, game)
    ensures FreeOf(LinesOf(rows), '\n')
  {
    hide Blank, RowOf;
  }

  /** Faithful rows are read back from the file they are written to. */
  lemma WrittenRows(rows: seq<Row>, game: Game)
    requires Faithful(rows, game)
    ensures Rows(Unlines(LinesOf(rows)), game) == rows
  {
    RowsFree(rows, game);
    SplitUnlines(LinesOf(rows));
    BlankLast(LinesOf(rows), game);
    LinesReadBack(rows, game);
  }

  lemma SameLinesSameRows(a: seq<Row>, b: seq<Row>, game: Game)
    requires Faithful(a, game) && Faithful(b, game) && LinesOf(a) == LinesOf(b)
    ensures a == b
  {
    LinesReadBack(a, game);
    LinesReadBack(b, game);
  }

  // ---- which mods are found again --------------------------------------------

  /** The stored line is one line and is found again under its mod. */
  predicate Storable(r: ModRef, game: Game) {
    '\n' !in r.Entry() && KeyOf(r.Entry(), game) == Some(r.Key())
  }

  /** What is written for a wanted mod is storable. */
  predicate Writable(w: string, cat: Catalogue, game: Game) {
    var r := ParseModRef(w, game);
    r.Some? && Versioned(r.value, cat).Ok? ==> Storable(Versioned(r.value, cat).value, game)
  }

  /** A reference that prints and parses back is storable. */
  lemma PrintableIsStorable(r: ModRef, game: Game)
    requires Printable(r, game) && '\n' !in r.Entry()
    ensures Storable(r, game)
  {
    hide Printable, ParseModRef;
    EntryReads(r, game);
  }

  lemma KeyedIsVisible(line: string, game: Game)
    requires KeyOf(line, game).Some?
    ensures !Blank(line)
  {
    hide Trim, ParseBare;
  }

  lemma StorableRow(r: ModRef, game: Game)
    requires Storable(r, game)
    ensures Fits(Row(Some(r.Key()), r.Entry()), game)
  {
    hide Blank;
    KeyedIsVisible(r.Entry(), game);
  }

  lemma PlaceFaithful(rows: seq<Row>, w: string, typed: bool, cat: Catalogue, game: Game)
    requires Faithful(rows, game) && Writable(w, cat, game) && Place(rows, w, typed, cat, game).Ok?
    ensures Faithful(Place(rows, w, typed, cat, game).value, game)
  {
    hide Place, ParseModRef, Find, Versioned, RowOf, Storable, Blank, Fits;
    PlaceCases(rows, w, typed, cat, game);
    var parsed := ParseModRef(w, game);
    if parsed.Some? {
      VersionedKeeps(parsed.value, cat);
      if Versioned(parsed.value, cat).Ok? {
        StorableRow(Versioned(parsed.value, cat).value, game);
      }
    }
  }

  lemma {:induction false} PlacedFaithful(rows: seq<Row>, wanted: seq<string>, cat: Catalogue, game: Game)
    requires Faithful(rows, game) && PlaceAll(rows, wanted, cat, game).Ok?
    requires forall w | w in wanted :: Writable(w, cat, game)
    ensures Faithful(PlaceAll(rows, wanted, cat, game).value, game)
  {
    hide Place, Writable, Faithful;
    if wanted != [] {
      var n := |wanted| - 1;
      var b := PlaceAllStep(rows, wanted, cat, game);
      PlacedFaithful(rows, wanted[..n], cat, game);
      PlaceFaithful(b, wanted[n], n == 0, cat, game);
    }
  }

  // ---- the laws --------------------------------------------------------------

  predicate AllWritable(slug: string, deps: seq<string>, cat: Catalogue, game: Game) {
    forall w | w in [Trim(slug)] + deps :: Writable(w, cat, game)
  }

  /** The file an install writes reads as exactly the rows it placed. */
  lemma InstalledText(text: string, slug: string, deps: seq<string>, cat: Catalogue, game: Game) returns (p: seq<Row>)
    requires AllWritable(slug, deps, cat, game) && Answer(Rows(text, game), slug, deps, cat, game).Ok?
    ensures PlaceAll(Rows(text, game), [Trim(slug)] + deps, cat, game) == Ok(p)
    ensures Faithful(p, game) && Rows(AfterInstall(text, slug, deps, cat, game), game) == p
  {
    hide PlaceAll, Writable, Rows, Faithful, LinesOf, Unlines, Trim;
    var rows := Rows(text, game);
    p := PlaceAll(rows, [Trim(slug)] + deps, cat, game).value;
    TextFaithful(text, game);
    PlacedFaithful(rows, [Trim(slug)] + deps, cat, game);
    WrittenRows(p, game);
    if LinesOf(p) == LinesOf(rows) {
      SameLinesSameRows(p, rows, game);
    }
  }

  /** NEVER A SECOND LINE FOR A MOD, in the file as it is read back. */
  lemma InstallAddsNoDouble(text: string, slug: string, deps: seq<string>, cat: Catalogue, game: Game)
    requires AllWritable(slug, deps, cat, game) && Answer(Rows(text, game), slug, deps, cat, game).Ok?
    ensures var before, after := Rows(text, game), Rows(AfterInstall(text, slug, deps, cat, game), game);
            && Extends(before, after) && FreshFrom(after, |before|, [Trim(slug)] + deps, game)
            && Answer(before, slug, deps, cat, game) == Ok(|after| - |before|)
            && Pinned(after, Trim(slug), game)
            && (forall w | w in [Trim(slug)] + deps :: Placed(after, w, game))
            && forall i | 0 <= i < |before| && !Typed(before, Trim(slug), game, i) :: after[i] == before[i]
  {
    hide AllWritable, PlaceAll, Rows, Faithful, Trim, AfterInstall, FreshFrom, Extends, Pinned, Placed, Typed;
    var wanted := [Trim(slug)] + deps;
    var p := InstalledText(text, slug, deps, cat, game);
    InstalledRows(Rows(text, game), wanted, cat, game);
    OthersKept(Rows(text, game), wanted, cat, game);
    forall w | w in wanted ensures Placed(p, w, game) {
      AllPlaced(Rows(text, game), wanted, cat, game, w);
    }
  }

  /** REPEATING AN INSTALL CHANGES NOTHING, whatever the catalogue answers the second time. */
  lemma InstallAgain(text: string, slug: string, deps: seq<string>, cat: Catalogue, cat': Catalogue, game: Game)
    requires AllWritable(slug, deps, cat, game) && Answer(Rows(text, game), slug, deps, cat, game).Ok?
    ensures var once := AfterInstall(text, slug, deps, cat, game);
            && AfterInstall(once, slug, deps, cat', game) == once
            && Answer(Rows(once, game), slug, deps, cat', game) == Ok(0)
  {
    hide AllWritable, PlaceAll, Rows, Faithful, Trim, FreshFrom, Extends, Pinned, Placed, Typed, LinesOf, Unlines;
    InstallAddsNoDouble(text, slug, deps, cat, game);
    var once := AfterInstall(text, slug, deps, cat, game);
    PlacedAgain(Rows(once, game), [Trim(slug)] + deps, cat', game);
  }

  // ---- installing and removing -----------------------------------------------

  /** The mod has a row exactly when some line of the file is its. */
  lemma {:induction false} ListedHasRow(ls: seq<string>, key: string, game: Game)
    ensures ListsAny(ls, Some(key), game) <==> Find(RowsOf(ls, game), key) < |RowsOf(ls, game)|
  {
    hide ListsAny, KeyOf, Blank, Find, Split;
    if ls == [] {
      NothingListed(Some(key), game);
      FindBound([], key);
    } else {
      var before, l := ls[..|ls| - 1], ls[|ls| - 1];
      ListedHasRow(before, key, game);
      assert ls == before + [l];
      ListsOneMore(before, l, Some(key), game);
      if Blank(l) {
        BlankHasNoKey(l, game);
      } else {
        FindOneMore(RowsOf(before, game), RowOf(l, game), key);
      }
    }
  }

  lemma BlankHasNoKey(l: string, game: Game)
    requires Blank(l)
    ensures KeyOf(l, game) == None
  {
    hide Blank;
    if KeyOf(l, game).Some? {
      KeyedIsVisible(l, game);
    }
  }

  lemma FindOneMore(rows: seq<Row>, row: Row, key: string)
    ensures Find(rows + [row], key) < |rows| + 1 <==> Find(rows, key) < |rows| || row.key == Some(key)
  {
    assert (rows + [row])[..|rows|] == rows;
  }

  /** Removing from rows. */
  function Less(rows: seq<Row>, key: string): seq<Row> {
    if rows == [] then []
    else
      var before := Less(rows[..|rows| - 1], key);
      if rows[|rows| - 1].key == Some(key) then before else before + [rows[|rows| - 1]]
  }

  lemma {:induction false} LessLines(ls: seq<string>, key: string, game: Game)
    ensures RowsOf(Without(ls, key, game), game) == Less(RowsOf(ls, game), key)
  {
    if ls != [] {
      var n := |ls| - 1;
      LessLines(ls[..n], key, game);
      hide KeyOf, Blank;
      if Blank(ls[n]) {
        BlankHasNoKey(ls[n], game);
      }
      var w := Without(ls[..n], key, game);
      assert (w + [ls[n]])[..|w|] == w;
      var rs := RowsOf(ls[..n], game);
      assert (rs + [RowOf(ls[n], game)])[..|rs|] == rs;
    }
  }

  lemma {:induction false} WithoutFree(ls: seq<string>, key: string, game: Game)
    requires FreeOf(ls, '\n')
    ensures FreeOf(Without(ls, key, game), '\n')
  {
    hide KeyOf;
    if ls != [] {
      WithoutFree(ls[..|ls| - 1], key, game);
    }
  }

  /** What a file reads as once a mod is removed. */
  lemma {:induction false} RemovedRows(text: string, slug: string, key: string, game: Game)
    requires KeyOf(slug, game) == Some(key)
    ensures Rows(Removed(text, slug, game), game) == Less(Rows(text, game), key)
  {
    hide KeyOf, Split;
    var ls := Split(text, '\n');
    var left := Without(ls, key, game);
    SplitFree(text, '\n');
    WithoutFree(ls, key, game);
    LessLines(ls, key, game);
    if left == [] {
      SplitOne("", '\n');
      BlankLast([], game);
      assert [] + [""] == [""];
    } else {
      SplitJoin(left, '\n');
      assert ['\n'] == "\n";
    }
  }

  /** Rows without the mod are all kept; its only row is the one that goes. */
  lemma {:induction false} LessNone(rows: seq<Row>, key: string)
    requires forall i | 0 <= i < |rows| :: rows[i].key != Some(key)
    ensures Less(rows, key) == rows
  {
    if rows != [] {
      LessNone(rows[..|rows| - 1], key);
      assert rows == rows[..|rows| - 1] + [rows[|rows| - 1]];
    }
  }

  lemma {:induction false} LessOne(rows: seq<Row>, key: string, i: nat)
    requires i < |rows| && rows[i].key == Some(key)
    requires forall j | 0 <= j < |rows| && j != i :: rows[j].key != Some(key)
    ensures Less(rows, key) == rows[..i] + rows[i + 1..]
  {
    var n := |rows| - 1;
    if i == n {
      LessNone(rows[..n], key);
      assert rows[n + 1..] == [];
    } else {
      LessOne(rows[..n], key, i);
      assert rows[..n][..i] == rows[..i];
      assert rows[..n][i + 1..] + [rows[n]] == rows[i + 1..];
    }
  }

  lemma {:induction false} TypedComesFirst(rows: seq<Row>, wanted: seq<string>, cat: Catalogue, game: Game)
    requires wanted != [] && PlaceAll(rows, wanted, cat, game).Ok?
    requires KeyOf(wanted[0], game).Some? && Find(rows, KeyOf(wanted[0], game).value) == |rows|
    ensures var p := PlaceAll(rows, wanted, cat, game).value;
            |p| > |rows| && p[|rows|].key == KeyOf(wanted[0], game)
  {
    hide PlaceAll, Place, Find, KeyOf;
    var n := |wanted| - 1;
    var b := PlaceAllStep(rows, wanted, cat, game);
    PlaceStep(b, wanted[n], n == 0, cat, game);
    if n == 0 {
      FindExtends(b, PlaceAll(rows, wanted, cat, game).value, KeyOf(wanted[0], game).value);
    } else {
      assert wanted[..n][0] == wanted[0];
      TypedComesFirst(rows, wanted[..n], cat, game);
    }
  }

  lemma OnlyRow(before: seq<Row>, after: seq<Row>, wanted: seq<string>, key: string, game: Game)
    requires Extends(before, after) && FreshFrom(after, |before|, wanted, game)
    requires Find(before, key) == |before| && |after| > |before| && after[|before|].key == Some(key)
    ensures forall j | 0 <= j < |after| && j != |before| :: after[j].key != Some(key)
  {
    hide Find;
    FindNothing(before, key);
    forall j | |before| < j < |after| ensures after[j].key != Some(key) {
      assert Find(after, after[j].key.value) == j;
    }
  }

  /** REMOVE UNDOES INSTALL. Removing a mod that was not there before it was installed leaves the
      lines the file had, in order, and the lines of the dependencies it brought. */
  lemma InstallThenRemove(text: string, slug: string, deps: seq<string>, cat: Catalogue, game: Game)
    requires AllWritable(slug, deps, cat, game) && Answer(Rows(text, game), slug, deps, cat, game).Ok?
    requires KeyOf(Trim(slug), game).Some? && !Lists(text, Trim(slug), game)
    ensures var before, after := Rows(text, game), Rows(AfterInstall(text, slug, deps, cat, game), game);
            var left := Rows(Removed(AfterInstall(text, slug, deps, cat, game), Trim(slug), game), game);
            && |after| > |before| && before == after[..|before|]
            && left == before + after[|before| + 1..]
            && (deps == [] ==> left == before)
  {
    hide *;
    var before, after := Rows(text, game), Rows(AfterInstall(text, slug, deps, cat, game), game);
    var key := KeyOf(Trim(slug), game).value;
    var wanted := [Trim(slug)] + deps;
    InstallAddsNoDouble(text, slug, deps, cat, game);
    NotListed(text, Trim(slug), key, game);
    var p := InstalledText(text, slug, deps, cat, game);
    TypedComesFirst(before, wanted, cat, game);
    OnlyRow(before, after, wanted, key, game);
    LessOne(after, key, |before|);
    RemovedRows(AfterInstall(text, slug, deps, cat, game), Trim(slug), key, game);
    NoRowTyped(before, after, Trim(slug), game);
    if deps == [] {
      NothingElse(before, wanted, cat, game);
      assert after[|before| + 1..] == [];
    }
  }

  lemma NotListed(text: string, slug: string, key: string, game: Game)
    requires KeyOf(slug, game) == Some(key) && !Lists(text, slug, game)
    ensures Find(Rows(text, game), key) == |Rows(text, game)|
  {
    hide Split, KeyOf, ListsAny, Find, RowsOf;
    ListedHasRow(Split(text, '\n'), key, game);
    FindBound(Rows(text, game), key);
  }

  lemma FindBound(rows: seq<Row>, key: string)
    ensures Find(rows, key) <= |rows|
  {
  }

  lemma NoRowTyped(before: seq<Row>, after: seq<Row>, slug: string, game: Game)
    requires KeyOf(slug, game).Some? && Find(before, KeyOf(slug, game).value) == |before| && |before| <= |after|
    requires forall i | 0 <= i < |before| && !Typed(before, slug, game, i) :: after[i] == before[i]
    ensures before == after[..|before|]
  {
    hide KeyOf, Find;
  }

  /** A lone mod adds at most one row. */
  lemma NothingElse(rows: seq<Row>, wanted: seq<string>, cat: Catalogue, game: Game)
    requires |wanted| == 1 && PlaceAll(rows, wanted, cat, game).Ok?
    ensures |PlaceAll(rows, wanted, cat, game).value| <= |rows| + 1
  {
    hide PlaceAll, Place, Find, KeyOf;
    var b := PlaceAllStep(rows, wanted, cat, game);
    PlaceStep(b, wanted[0], true, cat, game);
  }

  // ---- exactly when a mod is found again --------------------------------------

  /** A new mod on its own: one row at the end. */
  lemma NewAlone(rows: seq<Row>, slug: string, v: ModRef, cat: Catalogue, game: Game)
    requires KeyOf(Trim(slug), game).Some? && Find(rows, KeyOf(Trim(slug), game).value) == |rows|
    requires Versioned(ParseModRef(Trim(slug), game).value, cat) == Ok(v)
    ensures PlaceAll(rows, [Trim(slug)] + [], cat, game) == Ok(rows + [Row(KeyOf(Trim(slug), game), v.Entry())])
  {
    hide Trim, ParseModRef, Find, Versioned, PlaceAll, Place;
    var wanted := [Trim(slug)] + [];
    NothingPlaced(rows, wanted, cat, game);
    PlaceSteps(rows, wanted, 0, rows, cat, game);
    PlaceCases(rows, wanted[0], true, cat, game);
    assert wanted[..1] == wanted;
  }

  lemma NewText(text: string, slug: string, v: ModRef, cat: Catalogue, game: Game)
    requires Trim(slug) != "" && KeyOf(Trim(slug), game).Some?
    requires Find(Rows(text, game), KeyOf(Trim(slug), game).value) == |Rows(text, game)|
    requires Versioned(ParseModRef(Trim(slug), game).value, cat) == Ok(v)
    ensures AfterInstall(text, slug, [], cat, game) == Unlines(LinesOf(Rows(text, game)) + [v.Entry()])
  {
    hide *;
    var rows := Rows(text, game);
    var row := Row(KeyOf(Trim(slug), game), v.Entry());
    AfterInstallCases(text, slug, [], cat, game);
    NewAlone(rows, slug, v, cat, game);
    LinesOneMore(rows, row);
    LinesLength(rows);
  }

  /** What a file with one more line reads as. */
  lemma OneMoreLine(rows: seq<Row>, line: string, game: Game)
    requires Faithful(rows, game) && '\n' !in line
    ensures Rows(Unlines(LinesOf(rows) + [line]), game) == if Blank(line) then rows else rows + [RowOf(line, game)]
  {
    hide Blank, RowOf, Split, Unlines, KeyOf;
    var ls := LinesOf(rows) + [line];
    RowsFree(rows, game);
    SplitUnlines(ls);
    BlankLast(ls, game);
    LinesReadBack(rows, game);
    assert ls[..|rows|] == LinesOf(rows);
  }

  /** INSTALLING A NEW MOD TWICE, EXACTLY. The second time changes nothing when the stored line
      reads as the mod (or as nothing), and writes the same line again when it does not. */
  lemma InstallTwice(text: string, slug: string, v: ModRef, cat: Catalogue, game: Game)
    requires Trim(slug) != "" && KeyOf(Trim(slug), game).Some? && !Lists(text, Trim(slug), game)
    requires Versioned(ParseModRef(Trim(slug), game).value, cat) == Ok(v) && '\n' !in v.Entry()
    ensures var once := AfterInstall(text, slug, [], cat, game);
            AfterInstall(once, slug, [], cat, game) ==
            if Blank(v.Entry()) || KeyOf(v.Entry(), game) == KeyOf(Trim(slug), game) then once
            else once + (v.Entry() + "\n")
  {
    hide *;
    var key := KeyOf(Trim(slug), game).value;
    var line := v.Entry();
    var once := AfterInstall(text, slug, [], cat, game);
    NotListed(text, Trim(slug), key, game);
    NewText(text, slug, v, cat, game);
    TextFaithful(text, game);
    OneMoreLine(Rows(text, game), line, game);
    if Blank(line) {
      NewText(once, slug, v, cat, game);
    } else if KeyOf(line, game) == Some(key) {
      StorableAlone(slug, v, cat, game);
      NewAnswer(text, slug, v, cat, game);
      InstallAgain(text, slug, [], cat, cat, game);
    } else {
      NewRow(line, game);
      NotYet(Rows(text, game), RowOf(line, game), key);
      NewText(once, slug, v, cat, game);
      LinesOneMore(Rows(text, game), RowOf(line, game));
      UnlinesOneMore(LinesOf(Rows(once, game)), line);
    }
  }

  lemma NewRow(line: string, game: Game)
    ensures RowOf(line, game) == Row(KeyOf(line, game), line)
  {
    hide KeyOf;
  }

  lemma NotYet(rows: seq<Row>, row: Row, key: string)
    requires Find(rows, key) == |rows| && row.key != Some(key)
    ensures Find(rows + [row], key) == |rows + [row]|
  {
    FindOneMore(rows, row, key);
    FindBound(rows + [row], key);
  }

  lemma NewAnswer(text: string, slug: string, v: ModRef, cat: Catalogue, game: Game)
    requires Trim(slug) != "" && KeyOf(Trim(slug), game).Some?
    requires Find(Rows(text, game), KeyOf(Trim(slug), game).value) == |Rows(text, game)|
    requires Versioned(ParseModRef(Trim(slug), game).value, cat) == Ok(v)
    ensures Answer(Rows(text, game), slug, [], cat, game).Ok?
  {
    hide *;
    NewAlone(Rows(text, game), slug, v, cat, game);
    AnswerCases(Rows(text, game), slug, [], cat, game);
  }

  lemma StorableAlone(slug: string, v: ModRef, cat: Catalogue, game: Game)
    requires KeyOf(Trim(slug), game).Some? && Versioned(ParseModRef(Trim(slug), game).value, cat) == Ok(v)
    requires '\n' !in v.Entry() && KeyOf(v.Entry(), game) == KeyOf(Trim(slug), game)
    ensures AllWritable(slug, [], cat, game)
  {
    VersionedKeeps(ParseModRef(Trim(slug), game).value, cat);
    hide Trim, ParseModRef, Versioned;
  }

  /** A Valheim name with a slash in it, typed with a version. */
  lemma SlashedNameReads(ns: string, name: string, sub: string, ver: string)
    requires '-' !in ns && '-' !in name && '-' !in sub && '/' !in ns && '/' !in name && '/' !in sub && ns != ""
             && name != ""
    requires IsSemver(ver) && '/' !in ver
    requires Outright(ns + ['-'] + (name + ['/'] + sub + ['-'] + ver))
    ensures ParseModRef(ns + ['-'] + (name + ['/'] + sub + ['-'] + ver), Valheim) ==
            Some(ModRef(ns, name + ['/'] + sub, ver))
  {
    var rest := name + ['/'] + sub + ['-'] + ver;
    var e := ns + ['-'] + rest;
    hide Split, Bare, CutBoth, CutVersion, Trimmed, IsSemver;
    BareLength(e);
    assert e == (ns + ['-'] + name) + ['/'] + (sub + ['-'] + ver);
    SplitAt(ns + ['-'] + name, '/', sub + ['-'] + ver);
    SplitOne(sub + ['-'] + ver, '/');
    CutFound(ns, '-', rest);
    VersionCut(name + ['/'] + sub, ver);
  }

  lemma VersionCut(name: string, ver: string)
    requires '-' !in name && IsSemver(ver)
    ensures CutVersion(name + ['-'] + ver) == Some((name, ver))
  {
    hide IsSemver;
    IndexOfSplit(name, '-', ver);
    var s := name + ['-'] + ver;
    assert s[..|name|] == name && s[|name| + 1..] == ver;
  }

  lemma PinnedReads(ns: string, name: string, ver: string, game: Game)
    requires '/' !in name && '/' !in ver && Outright(ns + "/" + name + "/" + ver)
    ensures ParseModRef(ns + "/" + name + "/" + ver, game) == Some(ModRef(ns, name, ver))
  {
    hide Split, Bare, Trimmed;
    BareLength(ns + "/" + name + "/" + ver);
    PinnedSplits(ns, name, ver);
  }

  lemma KeysDiffer(ns: string, name: string, sub: string, ver: string, ver': string)
    requires ns != ""
    ensures ModRef(ns + ['/'] + name, sub, ver).Key() != ModRef(ns, name + ['/'] + sub, ver').Key()
  {
    var a, b := ns + ['/'] + name + "-" + sub, ns + "-" + (name + ['/'] + sub);
    assert ToLower(a)[|ns|] == '/' && ToLower(b)[|ns|] == '-';
  }

  /** Such mods exist: a Valheim name with a slash in it, typed with a version, is stored with the
      slash on the side of the namespace, so typing it again writes its line again, whatever the
      catalogue answers. */
  lemma SlashedNameDoubles(text: string, ns: string, name: string, sub: string, ver: string, cat: Catalogue,
                           slug: string, line: string)
    requires '-' !in ns && '-' !in name && '-' !in sub && '/' !in ns && '/' !in name && '/' !in sub && ns != ""
             && name != ""
    requires IsSemver(ver) && '/' !in ver && '\n' !in line
    requires slug == ns + ['-'] + (name + ['/'] + sub + ['-'] + ver) && Outright(slug) && !Lists(text, slug, Valheim)
    requires line == ns + ['/'] + name + "/" + sub + "/" + ver && Outright(line)
    ensures var once := AfterInstall(text, slug, [], cat, Valheim);
            AfterInstall(once, slug, [], cat, Valheim) == once + (line + "\n")
  {
    hide *;
    var r := ModRef(ns, name + ['/'] + sub, ver);
    SemverNonEmpty(ver);
    Spelled(ns, name, sub, ver, cat, line);
    OutrightParts(slug);
    TrimOfTrimmed(slug);
    SlashedNameReads(ns, name, sub, ver);
    PinnedReads(ns + ['/'] + name, sub, ver, Valheim);
    KeysDiffer(ns, name, sub, ver, ver);
    KeyOfCases(slug, Valheim);
    KeyOfCases(line, Valheim);
    KeyedIsVisible(line, Valheim);
    InstallTwice(text, slug, r, cat, Valheim);
  }

  lemma Spelled(ns: string, name: string, sub: string, ver: string, cat: Catalogue, line: string)
    requires ns != "" && ver != "" && line == ns + ['/'] + name + "/" + sub + "/" + ver
    ensures ModRef(ns, name + ['/'] + sub, ver).Entry() == line
    ensures Versioned(ModRef(ns, name + ['/'] + sub, ver), cat) == Ok(ModRef(ns, name + ['/'] + sub, ver))
  {
  }

  lemma OutrightParts(e: string)
    requires Outright(e)
    ensures e != "" && Trimmed(e)
  {
  }

  // ---- replacing the list ------------------------------------------------------

  /** An entry ReplaceMods writes and GetInstalledMods reads as it is. */
  predicate Clean(e: string) {
    Outright(e) && '\n' !in e
  }

  lemma ListedFree(ls: seq<string>)
    requires FreeOf(ls, '\n')
    ensures FreeOf(ListedAll(ls), '\n')
  {
    if ls != [] {
      ListedFree(ls[..|ls| - 1]);
      var l := ls[|ls| - 1];
      assert '\n' !in l;
      TrimKeepsOut(l, '\n');
      hide Trim;
    }
  }

  /** What one entry of the list becomes: nothing, or one line that lists nothing or one entry. */
  function Back(e: string): seq<string> {
    if Trim(e) == "" then [] else Listed(Trim(e))
  }

  function BackAll(entries: seq<string>): seq<string> {
    if entries == [] then [] else BackAll(entries[..|entries| - 1]) + Back(entries[|entries| - 1])
  }

  lemma {:induction false} StoredListed(entries: seq<string>)
    ensures ListedAll(Stored(entries)) == BackAll(entries)
  {
    hide Listed, Trim;
    if entries != [] {
      var before := entries[..|entries| - 1];
      StoredListed(before);
      var s := Stored(before);
      assert (s + [Trim(entries[|entries| - 1])])[..|s|] == s;
    }
  }

  lemma {:induction false} StoredFree(entries: seq<string>)
    requires FreeOf(entries, '\n')
    ensures FreeOf(Stored(entries), '\n')
  {
    hide Trim;
    if entries != [] {
      StoredFree(entries[..|entries| - 1]);
      assert '\n' !in entries[|entries| - 1];
      TrimKeepsOut(entries[|entries| - 1], '\n');
    }
  }

  lemma LastBlank(ls: seq<string>)
    ensures ListedAll(ls + [""]) == ListedAll(ls)
  {
    assert (ls + [""])[..|ls|] == ls;
    TrimOfTrimmed("");
    hide Trim;
  }

  lemma CleanListed(e: string)
    ensures |Back(e)| <= 1
    ensures Back(e) == [e] <==> Outright(e)
  {
    BareLength(e);
    TrimLength(e);
    TrimOfTrimmed(Trim(e));
    hide Trim, Trimmed;
  }

  lemma {:induction false} AllBack(entries: seq<string>)
    ensures |BackAll(entries)| <= |entries|
    ensures BackAll(entries) == entries <==> forall e | e in entries :: Outright(e)
  {
    hide Back, Outright;
    if entries != [] {
      var n := |entries| - 1;
      AllBack(entries[..n]);
      CleanListed(entries[n]);
      assert entries == entries[..n] + [entries[n]];
    }
  }

  /** REPLACE, THEN READ, EXACTLY: the list comes back when every entry is clean, and only then. */
  lemma {:induction false} ReplaceReadsBack(entries: seq<string>)
    ensures Installed(Unlines(Stored(entries))) == entries <==> forall e | e in entries :: Clean(e)
  {
    hide Split, ListedAll, Stored, Outright, Unlines;
    var text := Unlines(Stored(entries));
    SplitFree(text, '\n');
    ListedFree(Split(text, '\n'));
    if FreeOf(entries, '\n') {
      StoredFree(entries);
      SplitUnlines(Stored(entries));
      LastBlank(Stored(entries));
      StoredListed(entries);
      AllBack(entries);
    }
  }

  // ---- which version is stored ---------------------------------------------------

  /** A NEW MOD IS STORED WITH A VERSION: the one typed; without one, the catalogue's for its name in full,
      or none without a catalogue. It is refused, and the file left alone, when the catalogue has no answer
      for that name, or answers that there is no such mod. */
  lemma NewModIsPinned(text: string, slug: string, r: ModRef, cat: Catalogue, game: Game)
    requires Trim(slug) != "" && ParseModRef(Trim(slug), game) == Some(r) && !Lists(text, Trim(slug), game)
    ensures var after, lines, full := AfterInstall(text, slug, [], cat, game), LinesOf(Rows(text, game)), Spelling(r);
            && (r.ver != "" || cat.NoCatalogue? ==> after == Unlines(lines + [r.Entry()]))
            && (r.ver == "" && cat.Catalogue? && full in cat.latest && cat.latest[full] != "" ==>
                  after == Unlines(lines + [ModRef(r.ns, r.name, cat.latest[full]).Entry()]))
            && (r.ver == "" && cat.Catalogue? && full !in cat.latest ==>
                  after == text && Answer(Rows(text, game), slug, [], cat, game) == Err(CannotInstall(full)))
            && (r.ver == "" && cat.Catalogue? && full in cat.latest && cat.latest[full] == "" ==>
                  after == text && Answer(Rows(text, game), slug, [], cat, game) == Err(NoSuchMod(full)))
  {
    hide *;
    KeysByLetters(r, r);
    KeyOfCases(Trim(slug), game);
    NotListed(text, Trim(slug), r.Key(), game);
    VersionedByFields(r, cat);
    var v := Versioned(r, cat);
    if v.Ok? {
      NewText(text, slug, v.value, cat, game);
    } else {
      NewRefused(text, slug, r, cat, game);
    }
  }

  lemma VersionedByFields(r: ModRef, cat: Catalogue)
    requires r.FullName() == Spelling(r)
    ensures var full := Spelling(r);
            && (r.ver != "" || cat.NoCatalogue? ==> Versioned(r, cat) == Ok(r))
            && (r.ver == "" && cat.Catalogue? ==>
                  Versioned(r, cat) ==
                  if full !in cat.latest then Err(CannotInstall(full))
                  else if cat.latest[full] == "" then Err(NoSuchMod(full))
                  else Ok(ModRef(r.ns, r.name, cat.latest[full])))
  {
    hide Spelling;
  }

  lemma NewRefused(text: string, slug: string, r: ModRef, cat: Catalogue, game: Game)
    requires Trim(slug) != "" && ParseModRef(Trim(slug), game) == Some(r)
    requires Find(Rows(text, game), r.Key()) == |Rows(text, game)| && Versioned(r, cat).Err?
    ensures AfterInstall(text, slug, [], cat, game) == text
    ensures Answer(Rows(text, game), slug, [], cat, game) == Err(Versioned(r, cat).error)
  {
    hide *;
    var rows, wanted := Rows(text, game), [Trim(slug)] + [];
    AfterInstallCases(text, slug, [], cat, game);
    AnswerCases(rows, slug, [], cat, game);
    NothingPlaced(rows, wanted, cat, game);
    PlaceSteps(rows, wanted, 0, rows, cat, game);
    PlaceCases(rows, wanted[0], true, cat, game);
    assert wanted[..1] == wanted;
  }

  /** A LINE IS A MOD'S when it reads as a reference of that mod. */
  lemma ListsByLines(text: string, slug: string, game: Game)
    ensures Lists(text, slug, game) <==>
            exists r, l, s :: (ParseModRef(slug, game) == Some(r) && l in Split(text, '\n')
                               && ParseModRef(l, game) == Some(s) && s.Key() == r.Key())
  {
    hide ParseModRef, Split;
    var ls := Split(text, '\n');
    if Lists(text, slug, game) {
      var i :| 0 <= i < |ls| && KeyOf(ls[i], game) == KeyOf(slug, game);
      assert ls[i] in ls;
      assert ParseModRef(slug, game).value.Key() == ParseModRef(ls[i], game).value.Key();
    }
    if r, l, s :| (ParseModRef(slug, game) == Some(r) && l in ls
                   && ParseModRef(l, game) == Some(s) && s.Key() == r.Key()) {
      var i :| 0 <= i < |ls| && ls[i] == l;
      assert KeyOf(ls[i], game) == KeyOf(slug, game);
    }
  }
}
