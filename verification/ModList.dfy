/** The mods.txt of one instance: internal/app/instances/manager.go, lines 1070-1091,
    1146-1282 and 1493-1532. */
module ModLists {
  import opened Text
  import opened Wrappers
  import opened ModRefs

  // ---- reading the file ------------------------------------------------------

  /** A line, and the mod it counts for while the file is edited. */
  datatype Row = Row(key: Option<string>, line: string)

  function KeyOf(line: string, game: Game): Option<string> {
    var r := ParseModRef(line, game);
    if r.Some? then Some(r.value.Key()) else None
  }

  function RowOf(line: string, game: Game): Row {
    Row(KeyOf(line, game), line)
  }

  predicate Blank(line: string) {
    Trim(line) == ""
  }

  function RowsOf(ls: seq<string>, game: Game): seq<Row> {
    if ls == [] then []
    else
      var before := RowsOf(ls[..|ls| - 1], game);
      if Blank(ls[|ls| - 1]) then before else before + [RowOf(ls[|ls| - 1], game)]
  }

  /** The file's non-blank lines. */
  function Rows(text: string, game: Game): seq<Row> {
    RowsOf(Split(text, '\n'), game)
  }

  function LinesOf(rows: seq<Row>): (ls: seq<string>)
    ensures |ls| == |rows|
    ensures forall i | 0 <= i < |rows| :: ls[i] == rows[i].line
  {
    seq(|rows|, i requires 0 <= i < |rows| => rows[i].line)
  }

  /** The first row that counts for the key, or |rows|. */
  function Find(rows: seq<Row>, key: string): (r: nat)
    ensures r <= |rows|
    ensures r < |rows| ==> rows[r].key == Some(key)
    ensures forall i | 0 <= i < r :: rows[i].key != Some(key)
  {
    if rows == [] then 0
    else
      var before := Find(rows[..|rows| - 1], key);
      if before < |rows| - 1 then before
      else if rows[|rows| - 1].key == Some(key) then |rows| - 1
      else |rows|
  }

  // ---- InstallMod ------------------------------------------------------------

  /** What the catalogue answers: a name it lacks is a failed lookup, "" is no such mod. */
  datatype Catalogue = NoCatalogue | Catalogue(latest: map<string, string>)

  datatype Refusal = SlugRequired | CannotInstall(name: string) | NoSuchMod(name: string)

  /** The reference as it is stored: pinned to the catalogue's version when it named none. */
  function Versioned(r: ModRef, cat: Catalogue): Result<ModRef, Refusal> {
    if r.ver != "" || cat.NoCatalogue? then Ok(r)
    else if r.FullName() !in cat.latest then Err(CannotInstall(r.FullName()))
    else if cat.latest[r.FullName()] == "" then Err(NoSuchMod(r.FullName()))
    else Ok(r.(ver := cat.latest[r.FullName()]))
  }

  /** One wanted mod; only what the operator typed repins a line that is there. */
  function Place(rows: seq<Row>, w: string, typed: bool, cat: Catalogue, game: Game): Result<seq<Row>, Refusal> {
    var parsed := ParseModRef(w, game);
    if parsed.None? then Ok(rows)
    else
      var r := parsed.value;
      var i := Find(rows, r.Key());
      if i < |rows| then Ok(if typed && r.ver != "" then rows[i := rows[i].(line := r.Entry())] else rows)
      else
        var v := Versioned(r, cat);
        if v.Err? then Err(v.error) else Ok(rows + [Row(Some(r.Key()), v.value.Entry())])
  }

  function PlaceAll(rows: seq<Row>, wanted: seq<string>, cat: Catalogue, game: Game): Result<seq<Row>, Refusal> {
    if wanted == [] then Ok(rows)
    else
      var n := |wanted| - 1;
      var before := PlaceAll(rows, wanted[..n], cat, game);
      if before.Err? then before else Place(before.value, wanted[n], n == 0, cat, game)
  }

  /** The text after InstallMod, which writes only when a line changed. */
  function AfterInstall(text: string, slug: string, deps: seq<string>, cat: Catalogue, game: Game): string {
    var placed := PlaceAll(Rows(text, game), [Trim(slug)] + deps, cat, game);
    if Trim(slug) == "" || placed.Err? || LinesOf(placed.value) == LinesOf(Rows(text, game)) then text
    else Unlines(LinesOf(placed.value))
  }

  // ---- RemoveMod -------------------------------------------------------------

  function Without(ls: seq<string>, key: string, game: Game): seq<string> {
    if ls == [] then []
    else
      var before := Without(ls[..|ls| - 1], key, game);
      if KeyOf(ls[|ls| - 1], game) == Some(key) then before else before + [ls[|ls| - 1]]
  }

  predicate ListsAny(ls: seq<string>, key: Option<string>, game: Game) {
    key.Some? && exists i | 0 <= i < |ls| :: KeyOf(ls[i], game) == key
  }

  /** Some line is the mod's. */
  predicate Lists(text: string, slug: string, game: Game) {
    ListsAny(Split(text, '\n'), KeyOf(slug, game), game)
  }

  /** The text after the mod is removed. */
  function Removed(text: string, slug: string, game: Game): string {
    var target := KeyOf(slug, game);
    if target.None? then text else Join(Without(Split(text, '\n'), target.value, game), "\n")
  }

  // ---- GetInstalledMods and ReplaceMods --------------------------------------

  /** What one line lists. */
  function Listed(line: string): seq<string> {
    var t := Trim(line);
    if t == "" || t[0] == '#' then [] else [TrimSuffix(t, "?")]
  }

  function ListedAll(ls: seq<string>): seq<string> {
    if ls == [] then [] else ListedAll(ls[..|ls| - 1]) + Listed(ls[|ls| - 1])
  }

  function Installed(text: string): seq<string> {
    ListedAll(Split(text, '\n'))
  }

  /** The lines ReplaceMods writes. */
  function Stored(entries: seq<string>): seq<string> {
    if entries == [] then []
    else
      var before, e := Stored(entries[..|entries| - 1]), Trim(entries[|entries| - 1]);
      if e == "" then before else before + [e]
  }

  // ---- the file --------------------------------------------------------------

  /** The mods.txt entry of the instance's document. */
  class ModsFile {
    const game: Game
    var text: string

    constructor (game: Game, text: string)
      ensures this.game == game && this.text == text
    {
      this.game := game;
      this.text := text;
    }

    method GetInstalledMods() returns (out: seq<string>)
      ensures out == Installed(text)
    {
      out := [];
      var ls := Split(text, '\n');
      for i := 0 to |ls|
        invariant out == ListedAll(ls[..i])
      {
        hide *;
        ListedStep(ls[..i + 1]);
        assert ls[..i + 1][..i] == ls[..i];
        var line := Trim(ls[i]);
        if line != "" && line[0] != '#' {
          out := out + [TrimSuffix(line, "?")];
        }
      }
      assert ls[..|ls|] == ls;
    }

    /** The rows, the lines and the first line of each key, as InstallMod scans them. */
    method Scan() returns (lines: seq<string>, at: map<string, nat>, ghost rows: seq<Row>)
      ensures rows == Rows(text, game) && lines == LinesOf(rows) && Indexes(at, rows)
    {
      hide *;
      lines, at, rows := [], map[], [];
      var ls := Split(text, '\n');
      NothingScanned(text, ls, game);
      for i := 0 to |ls|
        invariant rows == RowsOf(ls[..i], game) && lines == LinesOf(rows) && Indexes(at, rows)
      {
        RowsStep(ls, i, game);
        if Trim(ls[i]) != "" {
          IndexOneMore(at, rows, RowOf(ls[i], game));
          LinesOneMore(rows, RowOf(ls[i], game));
          KeyOfCases(ls[i], game);
          lines := lines + [ls[i]];
          rows := rows + [RowOf(ls[i], game)];
          var r := ParseModRef(ls[i], game);
          if r.Some? && r.value.Key() !in at {
            at := at[r.value.Key() := |lines| - 1];
          }
        }
      }
    }

    /** Adds the mod and its dependencies, or refuses and leaves the file alone. */
    method InstallMod(slug: string, deps: seq<string>, cat: Catalogue) returns (r: Result<nat, Refusal>)
      modifies this`text
      ensures r == Answer(Rows(old(text), game), slug, deps, cat, game)
      ensures text == AfterInstall(old(text), slug, deps, cat, game)
    {
      hide *;
      AnswerCases(Rows(text, game), slug, deps, cat, game);
      AfterInstallCases(text, slug, deps, cat, game);
      var typed := Trim(slug);
      if typed == "" {
        return Err(SlugRequired);
      }
      var wanted := [typed] + deps;
      ghost var rows: seq<Row>;
      var lines: seq<string>;
      var at: map<string, nat>;
      lines, at, rows := Scan();
      var added, touched := 0, 0;
      ghost var start := rows;
      NothingPlaced(start, wanted, cat, game);
      for i := 0 to |wanted|
        invariant text == old(text)
        invariant PlaceAll(start, wanted[..i], cat, game) == Ok(rows)
        invariant lines == LinesOf(rows) && |lines| == |rows| == |start| + added
        invariant Indexes(at, rows)
        invariant i == 0 ==> rows == start
        invariant touched > 0 <==> lines != LinesOf(start)
      {
        PlaceSteps(start, wanted, i, rows, cat, game);
        PlaceCases(rows, wanted[i], i == 0, cat, game);
        LinesLength(start);
        var parsed := ParseModRef(wanted[i], game);
        if parsed.Some? {
          var ref := parsed.value;
          IndexFinds(at, rows, ref.Key());
          if ref.Key() in at {
            var idx := at[ref.Key()];
            LineRepinned(rows, idx, ref.Entry());
            if i == 0 && ref.ver != "" && lines[idx] != ref.Entry() {
              IndexRepinned(at, rows, idx, ref.Entry());
              lines := lines[idx := ref.Entry()];
              rows := rows[idx := rows[idx].(line := ref.Entry())];
              touched := touched + 1;
            }
          } else {
            var v := Versioned(ref, cat);
            if v.Err? {
              RefusedEarly(start, wanted, i + 1, v.error, cat, game);
              return Err(v.error);
            }
            var row := Row(Some(ref.Key()), v.value.Entry());
            IndexOneMore(at, rows, row);
            LinesOneMore(rows, row);
            rows := rows + [row];
            lines := lines + [v.value.Entry()];
            at := at[ref.Key() := |lines| - 1];
            added := added + 1;
            touched := touched + 1;
          }
        }
      }
      assert wanted[..|wanted|] == wanted;
      if touched > 0 {
        JoinBreak(lines);
        text := Join(lines, "\n") + "\n";
      }
      return Ok(added);
    }

    /** Drops every line of the mod; found is whether there was one. */
    method RemoveMod(slug: string) returns (found: bool)
      modifies this`text
      ensures found == (Trim(slug) != "" && Lists(old(text), Trim(slug), game))
      ensures text == if Trim(slug) == "" then old(text) else Removed(old(text), Trim(slug), game)
    {
      hide *;
      var name := Trim(slug);
      if name == "" {
        return false;
      }
      var target := ParseModRef(name, game);
      var ls := Split(text, '\n');
      var out: seq<string> := [];
      found := false;
      JoinSplit(text, '\n');
      assert ['\n'] == "\n";
      RemovedCases(text, name, game);
      KeyOfCases(name, game);
      NothingListed(KeyOf(name, game), game);
      for i := 0 to |ls|
        invariant text == old(text)
        invariant target.Some? ==> out == Without(ls[..i], target.value.Key(), game)
        invariant found ==> target.Some?
        invariant found <==> ListsAny(ls[..i], KeyOf(name, game), game)
        invariant !found ==> out == ls[..i]
      {
        assert ls[..i + 1][..i] == ls[..i];
        var r := ParseModRef(ls[i], game);
        KeyOfCases(ls[i], game);
        ListsOneMore(ls[..i], ls[i], KeyOf(name, game), game);
        assert ls[..i + 1] == ls[..i] + [ls[i]];
        if target.Some? {
          WithoutStep(ls[..i + 1], target.value.Key(), game);
        }
        if target.Some? && r.Some? && r.value.Key() == target.value.Key() {
          found := true;
        } else {
          out := out + [ls[i]];
        }
      }
      assert ls[..|ls|] == ls;
      if found {
        text := Join(out, "\n");
      }
    }

    /** Rewrites the whole list. */
    method ReplaceMods(entries: seq<string>) returns (changed: bool)
      modifies this`text
      ensures text == Unlines(Stored(entries))
      ensures changed == (text != old(text))
    {
      var next := "";
      for i := 0 to |entries|
        invariant text == old(text)
        invariant next == Unlines(Stored(entries[..i]))
      {
        hide *;
        assert entries[..i + 1][..i] == entries[..i];
        StoredStep(entries[..i + 1]);
        var e := Trim(entries[i]);
        if e != "" {
          next := next + (e + "\n");
        }
      }
      assert entries[..|entries|] == entries;
      changed := text != next;
      text := next;
    }
  }

  function Answer(rows: seq<Row>, slug: string, deps: seq<string>, cat: Catalogue, game: Game): Result<nat, Refusal> {
    var placed := PlaceAll(rows, [Trim(slug)] + deps, cat, game);
    if Trim(slug) == "" then Err(SlugRequired)
    else if placed.Err? then Err(placed.error)
    else if |placed.value| < |rows| then Ok(0)
    else Ok(|placed.value| - |rows|)
  }

  // ---- what the methods rely on ----------------------------------------------

  /** at holds the first row of every key. */
  predicate Indexes(at: map<string, nat>, rows: seq<Row>) {
    (forall i | 0 <= i < |rows| && rows[i].key.Some? :: rows[i].key.value in at && at[rows[i].key.value] <= i)
    && forall k | k in at :: at[k] < |rows| && rows[at[k]].key == Some(k)
  }

  lemma NothingScanned(text: string, ls: seq<string>, game: Game)
    requires ls == Split(text, '\n')
    ensures RowsOf(ls[..0], game) == [] && LinesOf([]) == [] && Indexes(map[], [])
    ensures ls[..|ls|] == ls && Rows(text, game) == RowsOf(ls, game)
  {
    hide Split;
  }

  lemma RowsStep(ls: seq<string>, i: nat, game: Game)
    requires i < |ls|
    ensures RowsOf(ls[..i + 1], game) ==
            if Trim(ls[i]) == "" then RowsOf(ls[..i], game) else RowsOf(ls[..i], game) + [RowOf(ls[i], game)]
    ensures RowOf(ls[i], game) == Row(KeyOf(ls[i], game), ls[i])
  {
    hide Trim, KeyOf;
    assert ls[..i + 1][..i] == ls[..i];
  }

  lemma IndexOneMore(at: map<string, nat>, rows: seq<Row>, row: Row)
    requires Indexes(at, rows)
    ensures row.key.None? || row.key.value in at ==> Indexes(at, rows + [row])
    ensures row.key.Some? && row.key.value !in at ==> Indexes(at[row.key.value := |rows|], rows + [row])
  {
  }

  lemma IndexRepinned(at: map<string, nat>, rows: seq<Row>, i: nat, line: string)
    requires Indexes(at, rows) && i < |rows|
    ensures Indexes(at, rows[i := rows[i].(line := line)])
  {
  }

  lemma IndexFinds(at: map<string, nat>, rows: seq<Row>, key: string)
    requires Indexes(at, rows)
    ensures key in at <==> Find(rows, key) < |rows|
    ensures key in at ==> at[key] == Find(rows, key)
  {
    var f := Find(rows, key);
    if f < |rows| {
      assert rows[f].key == Some(key);
    }
  }

  lemma LinesLength(rows: seq<Row>)
    ensures |LinesOf(rows)| == |rows|
  {
  }

  lemma LinesOneMore(rows: seq<Row>, row: Row)
    ensures LinesOf(rows + [row]) == LinesOf(rows) + [row.line]
  {
  }

  lemma LineRepinned(rows: seq<Row>, i: nat, line: string)
    requires i < |rows|
    ensures LinesOf(rows[i := rows[i].(line := line)]) == LinesOf(rows)[i := line]
    ensures LinesOf(rows)[i] == rows[i].line
    ensures line == rows[i].line ==> rows[i := rows[i].(line := line)] == rows
  {
  }

  lemma NothingPlaced(rows: seq<Row>, wanted: seq<string>, cat: Catalogue, game: Game)
    ensures PlaceAll(rows, wanted[..0], cat, game) == Ok(rows)
  {
  }

  lemma PlaceSteps(start: seq<Row>, wanted: seq<string>, i: nat, rows: seq<Row>, cat: Catalogue, game: Game)
    requires i < |wanted| && PlaceAll(start, wanted[..i], cat, game) == Ok(rows)
    ensures PlaceAll(start, wanted[..i + 1], cat, game) == Place(rows, wanted[i], i == 0, cat, game)
  {
    hide Place;
    assert wanted[..i + 1][..i] == wanted[..i];
  }

  lemma PlaceCases(rows: seq<Row>, w: string, typed: bool, cat: Catalogue, game: Game)
    ensures var parsed := ParseModRef(w, game);
            var placed := Place(rows, w, typed, cat, game);
            if parsed.None? then placed == Ok(rows)
            else
              var r := parsed.value;
              var i := Find(rows, r.Key());
              && i <= |rows|
              && if i < |rows| then
                   rows[i].key == Some(r.Key())
                   && placed == Ok(if typed && r.ver != "" then rows[i := rows[i].(line := r.Entry())] else rows)
                 else if Versioned(r, cat).Err? then placed == Err(Versioned(r, cat).error)
                 else placed == Ok(rows + [Row(Some(r.Key()), Versioned(r, cat).value.Entry())])
  {
    hide ParseModRef, Versioned;
  }

  lemma {:induction false} RefusedEarly(start: seq<Row>, wanted: seq<string>, i: nat, e: Refusal, cat: Catalogue,
                                        game: Game)
    requires i <= |wanted| && PlaceAll(start, wanted[..i], cat, game) == Err(e)
    ensures PlaceAll(start, wanted, cat, game) == Err(e)
    decreases |wanted|
  {
    hide Place;
    if i < |wanted| {
      var n := |wanted| - 1;
      assert wanted[..n][..i] == wanted[..i];
      RefusedEarly(start, wanted[..n], i, e, cat, game);
    } else {
      assert wanted[..i] == wanted;
    }
  }

  lemma AnswerCases(rows: seq<Row>, slug: string, deps: seq<string>, cat: Catalogue, game: Game)
    ensures Trim(slug) == "" ==> Answer(rows, slug, deps, cat, game) == Err(SlugRequired)
    ensures Trim(slug) != "" ==>
              var placed := PlaceAll(rows, [Trim(slug)] + deps, cat, game);
              && (placed.Err? ==> Answer(rows, slug, deps, cat, game) == Err(placed.error))
              && (placed.Ok? && |placed.value| >= |rows| ==>
                    Answer(rows, slug, deps, cat, game) == Ok(|placed.value| - |rows|))
  {
    hide PlaceAll, Trim;
  }

  lemma AfterInstallCases(text: string, slug: string, deps: seq<string>, cat: Catalogue, game: Game)
    ensures var placed := PlaceAll(Rows(text, game), [Trim(slug)] + deps, cat, game);
            AfterInstall(text, slug, deps, cat, game) ==
            if Trim(slug) == "" || placed.Err? || LinesOf(placed.value) == LinesOf(Rows(text, game)) then text
            else Unlines(LinesOf(placed.value))
  {
    hide PlaceAll, Trim, Rows, LinesOf, Unlines;
  }

  lemma {:induction false} JoinBreak(ls: seq<string>)
    requires ls != []
    ensures Join(ls, "\n") + "\n" == Unlines(ls)
  {
    if |ls| == 1 {
      assert ls[1..] == [];
    } else {
      JoinBreak(ls[1..]);
      assert ls[0] + "\n" + Join(ls[1..], "\n") + "\n" == ls[0] + "\n" + (Join(ls[1..], "\n") + "\n");
    }
  }

  lemma ListedStep(ls: seq<string>)
    requires ls != []
    ensures var t := Trim(ls[|ls| - 1]);
            ListedAll(ls) == ListedAll(ls[..|ls| - 1]) +
                             if t == "" || t[0] == '#' then [] else [TrimSuffix(t, "?")]
  {
    hide Trim, TrimSuffix;
  }

  lemma StoredStep(entries: seq<string>)
    requires entries != []
    ensures var e := Trim(entries[|entries| - 1]);
            Unlines(Stored(entries)) ==
            Unlines(Stored(entries[..|entries| - 1])) + if e == "" then "" else e + "\n"
  {
    hide Trim, Unlines;
    var before, e := Stored(entries[..|entries| - 1]), Trim(entries[|entries| - 1]);
    UnlinesOneMore(before, e);
    assert Unlines(before) + "" == Unlines(before);
  }

  lemma UnlinesOneMore(ls: seq<string>, l: string)
    ensures Unlines(ls + [l]) == Unlines(ls) + (l + "\n")
  {
    UnlinesAppend(ls, [l]);
    assert [l][1..] == [];
    assert l + "\n" + "" == l + "\n";
  }

  lemma RemovedCases(text: string, slug: string, game: Game)
    ensures Lists(text, slug, game) == ListsAny(Split(text, '\n'), KeyOf(slug, game), game)
    ensures var target := ParseModRef(slug, game);
            Removed(text, slug, game) ==
            if target.None? then text else Join(Without(Split(text, '\n'), target.value.Key(), game), "\n")
  {
    hide ParseModRef, Split, Join, Without;
  }

  lemma NothingListed(key: Option<string>, game: Game)
    ensures !ListsAny([], key, game)
    ensures key.Some? ==> Without([], key.value, game) == []
  {
  }

  lemma ListsOneMore(ls: seq<string>, l: string, key: Option<string>, game: Game)
    ensures ListsAny(ls + [l], key, game) <==> ListsAny(ls, key, game) || (key.Some? && KeyOf(l, game) == key)
  {
    hide KeyOf;
    if ListsAny(ls + [l], key, game) {
      var i :| 0 <= i < |ls + [l]| && KeyOf((ls + [l])[i], game) == key;
      assert i < |ls| ==> (ls + [l])[i] == ls[i];
    }
    if ListsAny(ls, key, game) {
      var i :| 0 <= i < |ls| && KeyOf(ls[i], game) == key;
      assert KeyOf((ls + [l])[i], game) == key;
    }
    if KeyOf(l, game) == key {
      assert KeyOf((ls + [l])[|ls|], game) == key;
    }
  }

  lemma KeyOfCases(line: string, game: Game)
    ensures var r := ParseModRef(line, game);
            KeyOf(line, game) == if r.Some? then Some(r.value.Key()) else None
  {
  }

  lemma WithoutStep(ls: seq<string>, key: string, game: Game)
    requires ls != []
    ensures var before, l := Without(ls[..|ls| - 1], key, game), ls[|ls| - 1];
            Without(ls, key, game) == if KeyOf(l, game) == Some(key) then before else before + [l]
  {
    hide KeyOf;
  }
}
