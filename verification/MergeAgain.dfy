/** Merging again, merging in turn, the report, and what a merge leaves alone:
    internal/domain/bepinex_merge.go and internal/infra/bepinex/merge.go. */
module MergeAgain {
  import opened Text
  import opened Wrappers
  import opened Overrides
  import opened ConfigLines
  import opened ConfigFiles
  import opened OverrideText
  import opened Merge
  import opened MergeLaws
  import opened MergeTheorems

  // ---- nothing to do ---------------------------------------------------------

  lemma {:induction false} RewriteAllSame(index: Index, lines: seq<string>, os: seq<Override>)
    requires InBounds(index, |lines|)
    requires forall o | o in os :: o.Key() in index ==> Trim(index[o.Key()].value) == Trim(o.value)
    ensures RewriteAll(index, lines, os) == lines
  {
    hide Trim;
    if os != [] {
      RewriteAllSame(index, lines, os[..|os| - 1]);
      assert os[|os| - 1] in os;
    }
  }

  lemma {:induction false} AppendAllSame(lines: seq<string>, known: set<string>, pending: seq<Override>,
                                         order: seq<string>)
    requires forall s | s in order :: Lost(lines, known, s)
    ensures AppendAll(lines, known, pending, order) == lines
  {
    if order != [] {
      hide HasHeader, InsertInto;
      var s := order[|order| - 1];
      assert s in order;
      AppendAllSame(lines, known, pending, order[..|order| - 1]);
      InsertDrops(lines, s, EntriesOf(pending, s));
    }
  }

  /** The override already has its value in the file, or cannot be placed. */
  ghost predicate Settled(lines: seq<string>, items: Items) {
    forall k | k in items :: (k in Values(lines, None) && Values(lines, None)[k] == items[k]) || Dropped(lines, k)
  }

  lemma SettledValues(lines: seq<string>, items: Items)
    ensures Settled(lines, items) <==> Values(lines, None) + Kept(lines, items) == Values(lines, None)
  {
    hide Values, Headers, HasHeader;
    var v := Values(lines, None);
    if v + Kept(lines, items) == v {
      forall k | k in items ensures (k in v && v[k] == items[k]) || Dropped(lines, k) {
        if !Dropped(lines, k) {
          assert k in Kept(lines, items);
          assert (v + Kept(lines, items))[k] == items[k];
        }
      }
    }
  }

  lemma SettledLines(f: ConfigFile, items: Items)
    requires FromParser(f) && InBounds(Latest(Flat(f.sections)), |f.lines|) && Settled(f.lines, items)
    ensures MergedLines(f, Listing(items)) == f.lines
  {
    var index, known, os := Latest(Flat(f.sections)), SectionNames(f.sections), Listing(items);
    var pending := Pending(index, os);
    var r := AppendAll(RewriteAll(index, f.lines, os), known, pending, OrderOf(pending));
    assert r == MergedLines(f, os);
    ParserFacts(f);
    ListingHas(items);
    PendingIs(index, os);
    OrderOfSections(pending);
    hide Values, Headers, HasHeader, RewriteAll, AppendAll, Pending, OrderOf, IsIndex, FileOf, Flat, Latest,
      SectionNames, Listing, Trim, MergedLines;
    forall o | o in os ensures o.Key() in index ==> Trim(index[o.Key()].value) == Trim(o.value) {
      SettledKey(f.lines, items, index, o.Key());
    }
    RewriteAllSame(index, f.lines, os);
    forall s | s in OrderOf(pending) ensures Lost(f.lines, known, s) {
      var o :| o in pending && o.section == s;
      PendingKey(index, os, o);
      SettledKey(f.lines, items, index, o.Key());
    }
    AppendAllSame(f.lines, known, pending, OrderOf(pending));
  }

  lemma SettledKey(lines: seq<string>, items: Items, index: Index, k: SettingKey)
    requires Settled(lines, items) && ValuesOf(index) == Values(lines, None) && k in items
    ensures k in index ==> index[k].value == items[k]
    ensures k !in index ==> Lost(lines, Headers(lines), k.section)
  {
    hide Values, Headers, HasHeader;
    assert k in index <==> k in ValuesOf(index);
  }

  lemma {:induction false} PendingKey(index: Index, os: seq<Override>, o: Override)
    requires o in Pending(index, os)
    ensures o in os && o.Key() !in index
  {
    if os != [] && o in Pending(index, os[..|os| - 1]) {
      PendingKey(index, os[..|os| - 1], o);
    }
  }

  /** THE TEXT CHANGES EXACTLY WHEN THE SETTINGS DO. */
  lemma TextChangesWithSettings(body: string, items: Items)
    requires WellFormed(items)
    ensures Merged(body, items) == Render(FileOf("", FileLines(body)))
            <==> Settings(Merged(body, items)) == Settings(body)
    ensures Merged(body, items) == Render(FileOf("", FileLines(body))) <==> Settled(FileLines(body), items)
  {
    var f := FileOf("", FileLines(body));
    MergedIs(body, items);
    RenderIs(f);
    hide *;
    MergeRefinesUpdate(body, items);
    SettingsOfLines(body);
    SettledValues(f.lines, items);
    if f.lines == [] {
      EncodedReads(items);
      NothingDropped(items);
      EncodedEmpty(items);
    } else {
      MergedLinesRead(f, items);
      FreeOfParser(f);
      if Settled(f.lines, items) {
        SettledLines(f, items);
      } else if Merged(body, items) == Join(f.lines, "\n") {
        JoinInjective(MergedLines(f, Listing(items)), f.lines, '\n');
      }
    }
  }

  lemma RenderIs(f: ConfigFile)
    ensures Render(f) == if f.lines == [] then "" else Join(f.lines, "\n")
  {
  }

  lemma EncodedEmpty(items: Items)
    requires WellFormed(items)
    ensures Encoded(items) == "" <==> items == map[]
    ensures map[] + items == items
  {
    hide *;
    EncodedNothing();
    EncodedReads(items);
    EmptyTextSaysNothing();
    assert map[] + items == items;
  }

  lemma EncodedNothing()
    ensures Encoded(map[]) == ""
  {
    assert Listing(map[]) == [];
  }

  lemma EmptyTextSaysNothing()
    ensures Values(TextLines(""), None) == map[]
  {
    BlankAppended([]);
    assert TextLines("") == [""] && [] + [""] == [""];
  }

  // ---- merging the merged text again -----------------------------------------

  lemma {:induction false} JoinEmpty(ls: seq<string>)
    requires ls != [] && Join(ls, "\n") == ""
    ensures ls == [""]
  {
  }

  /** The merged file keeps lines, and reads back as the lines Merge wrote. */
  lemma MergedReadsBack(body: string, items: Items)
    requires WellFormed(items) && FileLines(body) != []
    requires InBounds(Latest(Flat(FileOf("", FileLines(body)).sections)), |FileLines(body)|)
    ensures var r := MergedLines(FileOf("", FileLines(body)), Listing(items));
            && FileLines(Merged(body, items)) == DropCrs(r) && r != []
  {
    var f := FileOf("", FileLines(body));
    MergedIs(body, items);
    FileLinesNotBlank(body);
    hide *;
    MergedLinesRead(f, items);
    var r := MergedLines(f, Listing(items));
    ReadBack(r);
    var text := Merged(body, items);
    if text == "" {
      JoinEmpty(r);
    }
    NonEmptyLines(text);
  }

  lemma NonEmptyLines(text: string)
    ensures text != "" ==> FileLines(text) == TextLines(text)
    ensures text == "" ==> FileLines(text) == []
  {
    hide Split;
  }

  lemma FileLinesNotBlank(body: string)
    ensures FileLines(body) != [""]
  {
    JoinSplit(Normalise(body), '\n');
  }

  lemma HasHeaderDropCrs(ls: seq<string>, section: string)
    ensures HasHeader(DropCrs(ls), section) <==> HasHeader(ls, section)
  {
    hide Trim, HeaderLine;
    var ds := DropCrs(ls);
    forall i | 0 <= i < |ls| ensures Trim(ds[i]) == Trim(ls[i]) {
      if i < |ls| - 1 {
        TrimDropCr(ls[i]);
      }
    }
    forall i | 0 <= i < |ls|
      ensures Trim(ds[i]) == HeaderLine(section) <==> Trim(ls[i]) == HeaderLine(section)
    {
    }
  }

  lemma TrimDropCr(l: string)
    ensures Trim(DropCr(l)) == Trim(l)
  {
    hide Trim;
    if l != "" && l[|l| - 1] == '\r' {
      assert l == DropCr(l) + "\r";
      TrimPadRight(DropCr(l), "\r");
    }
  }

  /** What the merged file says, lines and headers. */
  lemma MergedFileFacts(body: string, items: Items)
    requires WellFormed(items) && FileLines(body) != []
    ensures var a, b := FileLines(body), FileLines(Merged(body, items));
            && b != [] && Values(b, None) == Values(a, None) + Kept(a, items)
            && Headers(a) <= Headers(b)
            && (forall s | s in Headers(b) :: s in Headers(a) || HasHeader(b, s))
            && (forall s | s in Headers(a) :: HasHeader(b, s) <==> HasHeader(a, s))
  {
    var f := FileOf("", FileLines(body));
    MergedIs(body, items);
    hide *;
    MergedLinesRead(f, items);
    MergedReadsBack(body, items);
    var r := MergedLines(f, Listing(items));
    DropCrsReadAlike(r, None);
    DropCrsNonEmpty(r);
    forall s ensures HasHeader(DropCrs(r), s) <==> HasHeader(r, s) {
      HasHeaderDropCrs(r, s);
    }
  }

  lemma DropCrsNonEmpty(r: seq<string>)
    ensures r != [] ==> DropCrs(r) != []
  {
  }

  lemma SettledAfter(a: seq<string>, b: seq<string>, items: Items)
    requires Values(b, None) == Values(a, None) + Kept(a, items)
    requires Headers(a) <= Headers(b) && forall s | s in Headers(a) :: HasHeader(b, s) <==> HasHeader(a, s)
    ensures Settled(b, items)
    ensures forall k | k in items :: Dropped(b, k) <==> Dropped(a, k)
  {
    hide Values, Headers, HasHeader;
    forall k | k in items
      ensures (k in Values(b, None) && Values(b, None)[k] == items[k]) || Dropped(b, k)
      ensures Dropped(b, k) <==> Dropped(a, k)
    {
      if Dropped(a, k) {
        assert k !in Kept(a, items);
      } else {
        assert k in Kept(a, items) && Kept(a, items)[k] == items[k];
      }
    }
  }

  /** MERGING AGAIN CHANGES NOTHING, but for line breaks a stray carriage return made. */
  lemma MergeAgainSettles(body: string, items: Items)
    requires WellFormed(items)
    ensures var m := Merged(body, items);
            && Merged(m, items) == Normalise(m)
            && (Merged(m, items) == m <==> NoCrlf(m))
            && Settled(FileLines(m), items)
  {
    var m := Merged(body, items);
    MergedIs(body, items);
    hide *;
    if FileLines(body) == [] {
      EncodedSettles(items);
    } else {
      MergedFileFacts(body, items);
      SettledAfter(FileLines(body), FileLines(m), items);
    }
    TextChangesWithSettings(m, items);
    RenderIsNormalised("", m);
    NormaliseFixed(m);
  }

  /** The text written for a file that does not exist yet. */
  lemma EncodedSettles(items: Items)
    requires WellFormed(items)
    ensures Settled(FileLines(Encoded(items)), items)
    ensures forall k | k in items :: k in Values(FileLines(Encoded(items)), None)
  {
    hide *;
    EncodedReads(items);
    EncodedEmpty(items);
    NonEmptyLines(Encoded(items));
    SettledBySetting(FileLines(Encoded(items)), items);
  }

  lemma SettledBySetting(lines: seq<string>, items: Items)
    ensures Values(lines, None) == items ==> Settled(lines, items)
    ensures items == map[] ==> Settled(lines, items)
  {
  }

  // ---- merging in turn -------------------------------------------------------

  lemma {:induction false} EncodeLinesUnpadded(os: seq<Override>)
    requires forall o | o in os :: WellFormedOverride(o)
    ensures forall s | s in SectionsOf(os) :: HeaderLine(s) in EncodeLines(os)
  {
    if os != [] {
      hide WellFormedOverride, HeaderLine;
      var p, o := os[..|os| - 1], os[|os| - 1];
      EncodeLinesUnpadded(p);
      if p != [] && p[|p| - 1].section == o.section {
        SectionsOfLast(p);
      }
    }
  }

  lemma EncodedUnpadded(items: Items)
    requires WellFormed(items)
    ensures Unpadded(FileLines(Encoded(items)))
  {
    var os := Listing(items);
    var lines := EncodeLines(os) + [""];
    ListingWellFormed(items);
    ListingDistinct(items);
    EncodeLinesRead(os);
    EncodeLinesKept(os);
    KeptLines(EncodeLines(os));
    BlankAppended(EncodeLines(os));
    EncodeLinesUnpadded(os);
    NonEmptyLines(Encoded(items));
    hide Values, Headers, EncodeLines, SectionsOf, Listing, Unlines, Trim, HeaderLine, Classify, TextLines, FileLines,
      KeepsBreaks;
    forall s | s in SectionsOf(os) ensures HasHeader(lines, s) {
      SectionsWellFormed(os, s);
      HeaderLineReads(s);
      HeaderMeans(lines, s);
      assert HeaderLine(s) in lines;
    }
    NoLinesUnpadded();
  }

  lemma NoLinesUnpadded()
    ensures Unpadded([])
  {
  }

  lemma {:induction false} SectionsWellFormed(os: seq<Override>, s: string)
    requires s in SectionsOf(os) && forall o | o in os :: WellFormedOverride(o)
    ensures Trimmed(s)
  {
    if s != os[|os| - 1].section {
      SectionsWellFormed(os[..|os| - 1], s);
    } else {
      assert WellFormedOverride(os[|os| - 1]);
    }
  }

  lemma DropsAgain(a: seq<string>, b: seq<string>, first: Items, k: SettingKey)
    requires Values(b, None) == Values(a, None) + Kept(a, first)
    requires Headers(a) <= Headers(b) && forall s | s in Headers(b) :: s in Headers(a) || HasHeader(b, s)
    requires forall s | s in Headers(a) :: HasHeader(b, s) <==> HasHeader(a, s)
    ensures Dropped(b, k) <==> Dropped(a, k)
  {
    hide Values, Headers, HasHeader;
    assert k in Values(b, None) <==> k in Values(a, None) || k in Kept(a, first);
  }

  /** A merge changes nothing about what is dropped. */
  lemma DropsSame(body: string, first: Items, k: SettingKey)
    requires WellFormed(first) && k.section != ""
    ensures Dropped(FileLines(Merged(body, first)), k) <==> Dropped(FileLines(body), k)
  {
    MergedIs(body, first);
    hide *;
    var a, b := FileLines(body), FileLines(Merged(body, first));
    if a == [] {
      EncodedUnpadded(first);
      NamedKeeps(b, k);
      NoLinesUnpadded();
      NamedKeeps(a, k);
    } else {
      MergedFileFacts(body, first);
      DropsAgain(a, b, first, k);
    }
  }

  lemma KeptSame(body: string, first: Items, second: Items)
    requires WellFormed(first) && WellFormed(second)
    ensures Kept(FileLines(Merged(body, first)), second) == Kept(FileLines(body), second)
  {
    hide *;
    var a, b := FileLines(body), FileLines(Merged(body, first));
    forall k | k in Kept(a, second) || k in Kept(b, second)
      ensures k in Kept(a, second) && k in Kept(b, second) && Kept(a, second)[k] == Kept(b, second)[k]
    {
      KeptAt(a, second, k);
      KeptAt(b, second, k);
      SectionNamed(second, k);
      DropsSame(body, first, k);
    }
    SameItems(Kept(a, second), Kept(b, second));
  }

  lemma SectionNamed(items: Items, k: SettingKey)
    requires WellFormed(items) && k in items
    ensures k.section != ""
  {
    hide WellFormedKey, WellFormedValue;
  }

  /** MERGING IN TURN updates with the first set and then the second, but for the overrides the
      generated file's headers drop. */
  lemma MergeInTurn(body: string, first: Items, second: Items)
    requires WellFormed(first) && WellFormed(second)
    ensures Settings(Merged(Merged(body, first), second)) ==
            Settings(body) + Kept(FileLines(body), first) + Kept(FileLines(body), second)
  {
    hide *;
    MergeRefinesUpdate(body, first);
    MergeRefinesUpdate(Merged(body, first), second);
    KeptSame(body, first, second);
  }

  // ---- the report ------------------------------------------------------------

  lemma {:induction false} SelectHas(index: Index, known: set<string>, os: seq<Override>, outcome: Outcome, o: Override)
    ensures o in Select(index, known, os, outcome) <==> o in os && OutcomeOf(index, known, o) == outcome
  {
    if os != [] {
      hide OutcomeOf;
      SelectHas(index, known, os[..|os| - 1], outcome, o);
      assert os == os[..|os| - 1] + [os[|os| - 1]];
    }
  }

  /** Every override is reported once: the four lists partition the set. */
  lemma {:induction false} SelectPartitions(index: Index, known: set<string>, os: seq<Override>)
    ensures multiset(Select(index, known, os, Applied)) + multiset(Select(index, known, os, NoOp))
            + multiset(Select(index, known, os, Appended)) + multiset(Select(index, known, os, Stale)) == multiset(os)
  {
    hide *;
    if os == [] {
      SelectNothing(index, known);
      return;
    }
    var p, o := os[..|os| - 1], os[|os| - 1];
    SelectPartitions(index, known, p);
    SelectCount(index, known, os, Applied);
    SelectCount(index, known, os, NoOp);
    SelectCount(index, known, os, Appended);
    SelectCount(index, known, os, Stale);
    assert os == p + [o];
    AddFour(multiset(Select(index, known, p, Applied)), multiset(Select(index, known, p, NoOp)),
            multiset(Select(index, known, p, Appended)), multiset(Select(index, known, p, Stale)),
            o, OutcomeOf(index, known, o));
  }

  lemma SelectNothing(index: Index, known: set<string>)
    ensures forall x :: Select(index, known, [], x) == []
  {
  }

  lemma AddFour(a: multiset<Override>, b: multiset<Override>, c: multiset<Override>, d: multiset<Override>,
                o: Override, x: Outcome)
    ensures (a + (if x == Applied then multiset{o} else multiset{}))
            + (b + (if x == NoOp then multiset{o} else multiset{}))
            + (c + (if x == Appended then multiset{o} else multiset{}))
            + (d + (if x == Stale then multiset{o} else multiset{}))
            == a + b + c + d + multiset{o}
  {
  }

  lemma SelectCount(index: Index, known: set<string>, os: seq<Override>, outcome: Outcome)
    requires os != []
    ensures var p, o := os[..|os| - 1], os[|os| - 1];
            multiset(Select(index, known, os, outcome)) ==
            multiset(Select(index, known, p, outcome))
            + (if OutcomeOf(index, known, o) == outcome then multiset{o} else multiset{})
  {
    hide OutcomeOf;
  }

  lemma ReportPartitions(f: ConfigFile, items: Items)
    ensures var r := ReportOf(f, Listing(items));
            multiset(r.applied) + multiset(r.noOp) + multiset(r.appended) + multiset(r.stale) ==
              multiset(Listing(items))
  {
    SelectPartitions(Latest(Flat(f.sections)), SectionNames(f.sections), Listing(items));
  }

  /** Which list an override is in, by what the file declares. */
  lemma ReportMeans(f: ConfigFile, items: Items, o: Override)
    requires FromParser(f) && WellFormed(items) && o.Key() in items && items[o.Key()] == o.value
    ensures var r, v := ReportOf(f, Listing(items)), Values(f.lines, None);
            && (o in r.noOp <==> o.Key() in v && v[o.Key()] == o.value)
            && (o in r.applied <==> o.Key() in v && v[o.Key()] != o.value)
            && (o in r.appended <==> o.Key() !in v && o.section in Headers(f.lines))
            && (o in r.stale <==> o.section !in Headers(f.lines))
  {
    hide *;
    ListingGives(items, o);
    ReportHas(f, Listing(items), o);
    OutcomeInFile(f, items, o);
  }

  lemma ListingGives(items: Items, o: Override)
    ensures o in Listing(items) <==> o.Key() in items && items[o.Key()] == o.value
  {
    hide Listing;
    ListingHas(items);
    KeyParts(o);
    if o.Key() in items && items[o.Key()] == o.value {
      assert Override(o.Key().section, o.Key().name, items[o.Key()]) == o;
    }
  }

  lemma OutcomeInFile(f: ConfigFile, items: Items, o: Override)
    requires FromParser(f) && WellFormed(items) && o.Key() in items && items[o.Key()] == o.value
    ensures var v, outcome := Values(f.lines, None), OutcomeOf(Latest(Flat(f.sections)), SectionNames(f.sections), o);
            && (outcome == NoOp <==> o.Key() in v && v[o.Key()] == o.value)
            && (outcome == Applied <==> o.Key() in v && v[o.Key()] != o.value)
            && (outcome == Appended <==> o.Key() !in v && o.section in Headers(f.lines))
            && (outcome == Stale <==> o.section !in Headers(f.lines))
  {
    hide *;
    var index := Latest(Flat(f.sections));
    ParserFacts(f);
    FreeOfParser(f);
    IndexTrimmed(f.lines, index);
    ValueTrimmed(items, o.Key());
    ValuesInSections(f.lines, None);
    OutcomeMeans(f.lines, index, o);
  }

  lemma ReportHas(f: ConfigFile, os: seq<Override>, o: Override)
    requires FromParser(f) && o in os
    ensures var r, outcome := ReportOf(f, os), OutcomeOf(Latest(Flat(f.sections)), SectionNames(f.sections), o);
            && (o in r.noOp <==> outcome == NoOp) && (o in r.applied <==> outcome == Applied)
            && (o in r.appended <==> outcome == Appended) && (o in r.stale <==> outcome == Stale)
  {
    hide *;
    var index, known := Latest(Flat(f.sections)), SectionNames(f.sections);
    ReportIs(f, os);
    SelectHas(index, known, os, NoOp, o);
    SelectHas(index, known, os, Applied, o);
    SelectHas(index, known, os, Appended, o);
    SelectHas(index, known, os, Stale, o);
    if f.lines == [] && f.sections == [] {
      EverythingStale(f, o);
    }
  }

  lemma EverythingStale(f: ConfigFile, o: Override)
    requires f.sections == []
    ensures OutcomeOf(Latest(Flat(f.sections)), SectionNames(f.sections), o) == Stale
  {
  }

  lemma ReportIs(f: ConfigFile, os: seq<Override>)
    ensures var r, index, known := ReportOf(f, os), Latest(Flat(f.sections)), SectionNames(f.sections);
            if f.lines == [] && f.sections == [] then r == MergeReport([], [], [], os) && Headers(f.lines) == {}
            else && r.applied == Select(index, known, os, Applied) && r.noOp == Select(index, known, os, NoOp)
                 && r.appended == Select(index, known, os, Appended) && r.stale == Select(index, known, os, Stale)
  {
  }

  lemma OutcomeMeans(lines: seq<string>, index: Index, o: Override)
    requires ValuesOf(index) == Values(lines, None) && Trimmed(o.value)
    requires forall k | k in index :: Trimmed(index[k].value)
    requires forall k | k in Values(lines, None) :: k.section in Headers(lines)
    ensures var v, outcome := Values(lines, None), OutcomeOf(index, Headers(lines), o);
            && (outcome == NoOp <==> o.Key() in v && v[o.Key()] == o.value)
            && (outcome == Applied <==> o.Key() in v && v[o.Key()] != o.value)
            && (outcome == Appended <==> o.Key() !in v && o.section in Headers(lines))
            && (outcome == Stale <==> o.section !in Headers(lines))
  {
    hide Values, Headers, Trim, Trimmed;
    assert o.Key() in index <==> o.Key() in ValuesOf(index);
    TrimOfTrimmed(o.value);
    if o.Key() in index {
      TrimOfTrimmed(index[o.Key()].value);
    }
  }

  lemma ChangedHas(f: ConfigFile, items: Items)
    ensures var r := ReportOf(f, Listing(items));
            r.Changed() <==> exists o :: o in r.applied || o in r.appended || o in r.stale
  {
    hide *;
    ChangedIs(ReportOf(f, Listing(items)));
  }

  lemma ChangedIs(r: MergeReport)
    ensures r.Changed() <==> exists o :: o in r.applied || o in r.appended || o in r.stale
  {
    assert |r.applied| > 0 ==> r.applied[0] in r.applied;
    assert |r.appended| > 0 ==> r.appended[0] in r.appended;
    assert |r.stale| > 0 ==> r.stale[0] in r.stale;
  }

  lemma ReportLists(f: ConfigFile, items: Items, o: Override)
    ensures var r := ReportOf(f, Listing(items));
            o in r.applied || o in r.noOp || o in r.appended || o in r.stale ==> o in Listing(items)
  {
    var index, known, os := Latest(Flat(f.sections)), SectionNames(f.sections), Listing(items);
    SelectHas(index, known, os, NoOp, o);
    SelectHas(index, known, os, Applied, o);
    SelectHas(index, known, os, Appended, o);
    SelectHas(index, known, os, Stale, o);
  }

  lemma DroppedMeans(lines: seq<string>, k: SettingKey)
    ensures Dropped(lines, k) <==> k !in Values(lines, None) && Lost(lines, Headers(lines), k.section)
    ensures Dropped(lines, k) ==> k.section in Headers(lines)
  {
  }

  lemma NotSettled(lines: seq<string>, items: Items) returns (k: SettingKey)
    requires !Settled(lines, items)
    ensures k in items && !Dropped(lines, k) && !(k in Values(lines, None) && Values(lines, None)[k] == items[k])
  {
    hide Values, Dropped;
    k :| k in items && !((k in Values(lines, None) && Values(lines, None)[k] == items[k]) || Dropped(lines, k));
  }

  lemma SettledAt(lines: seq<string>, items: Items, k: SettingKey)
    requires Settled(lines, items) && k in items
    ensures (k in Values(lines, None) && Values(lines, None)[k] == items[k]) || Dropped(lines, k)
  {
  }

  /** THE REPORT IS EXACT. Changed says the text differs, or an override could not be placed;
      with unpadded headers it says exactly that the text differs. */
  lemma ChangedExactly(body: string, items: Items)
    requires WellFormed(items)
    ensures var f := FileOf("", FileLines(body));
            var changed, differs := ReportOf(f, Listing(items)).Changed(), Merged(body, items) != Render(f);
            && (changed <==> differs || exists k :: k in items && Dropped(f.lines, k))
            && (Unpadded(f.lines) ==> (changed <==> differs))
  {
    var f := FileOf("", FileLines(body));
    MergedIs(body, items);
    hide *;
    TextChangesWithSettings(body, items);
    if Unpadded(f.lines) {
      forall k | k in items ensures !Dropped(f.lines, k) {
        UnpaddedKeeps(f.lines, items, k);
      }
    }
    if ReportOf(f, Listing(items)).Changed() {
      ChangedMeans(f, items);
    }
    if !Settled(f.lines, items) {
      var k := NotSettled(f.lines, items);
      OverrideChanges(f, items, k);
    }
    if exists k :: k in items && Dropped(f.lines, k) {
      var k :| k in items && Dropped(f.lines, k);
      DroppedMeans(f.lines, k);
      OverrideChanges(f, items, k);
    }
  }

  lemma ChangedMeans(f: ConfigFile, items: Items)
    requires FromParser(f) && WellFormed(items) && ReportOf(f, Listing(items)).Changed()
    ensures !Settled(f.lines, items) || exists k :: k in items && Dropped(f.lines, k)
  {
    hide *;
    var o := SomeChange(f, items);
    OneChangeMeans(f, items, o);
    DroppedWitness(f.lines, items, o);
  }

  lemma SomeChange(f: ConfigFile, items: Items) returns (o: Override)
    requires ReportOf(f, Listing(items)).Changed()
    ensures var r := ReportOf(f, Listing(items)); o in r.applied || o in r.appended || o in r.stale
    ensures o.Key() in items && items[o.Key()] == o.value
  {
    hide *;
    ChangedHas(f, items);
    var r := ReportOf(f, Listing(items));
    o :| o in r.applied || o in r.appended || o in r.stale;
    ReportLists(f, items, o);
    ListingGives(items, o);
  }

  lemma DroppedWitness(lines: seq<string>, items: Items, o: Override)
    requires o.Key() in items
    ensures Dropped(lines, o.Key()) ==> exists k :: k in items && Dropped(lines, k)
  {
    hide Dropped;
  }

  lemma OneChangeMeans(f: ConfigFile, items: Items, o: Override)
    requires FromParser(f) && WellFormed(items) && o.Key() in items && items[o.Key()] == o.value
    requires var r := ReportOf(f, Listing(items)); o in r.applied || o in r.appended || o in r.stale
    ensures !Settled(f.lines, items) || Dropped(f.lines, o.Key())
  {
    hide *;
    ReportMeans(f, items, o);
    ValuesInSections(f.lines, None);
    KeyParts(o);
    if Settled(f.lines, items) {
      SettledAt(f.lines, items, o.Key());
    }
  }

  lemma OverrideChanges(f: ConfigFile, items: Items, k: SettingKey)
    requires FromParser(f) && WellFormed(items) && k in items
    requires !(k in Values(f.lines, None) && Values(f.lines, None)[k] == items[k])
    ensures ReportOf(f, Listing(items)).Changed()
  {
    var o := Override(k.section, k.name, items[k]);
    assert o.Key() == k;
    hide *;
    KeyParts(o);
    ReportMeans(f, items, o);
    ChangedHas(f, items);
  }

  /** THE SECOND REPORT: every override is a no-op, but for the dropped ones, which are reported as
      appended every time. */
  lemma SecondReport(body: string, items: Items, o: Override)
    requires WellFormed(items) && o.Key() in items && items[o.Key()] == o.value
    ensures var r := ReportOf(FileOf("", FileLines(Merged(body, items))), Listing(items));
            && (o in r.noOp <==> !Dropped(FileLines(body), o.Key()))
            && (o in r.appended <==> Dropped(FileLines(body), o.Key()))
            && o !in r.applied && o !in r.stale
  {
    hide *;
    var m := Merged(body, items);
    var b := FileLines(m);
    FileOfLines("", b);
    FileLinesFree(m);
    ReportMeans(FileOf("", b), items, o);
    MergeAgainSettles(body, items);
    SettledAt(b, items, o.Key());
    DroppedMeans(b, o.Key());
    SectionNamed(items, o.Key());
    DropsSame(body, items, o.Key());
    KeyParts(o);
    SetSectionDeclared(b, o.Key());
  }

  lemma FileOfLines(name: string, lines: seq<string>)
    ensures FileOf(name, lines).lines == lines
  {
  }

  lemma SetSectionDeclared(lines: seq<string>, k: SettingKey)
    ensures k in Values(lines, None) ==> k.section in Headers(lines)
  {
    hide Values, Headers;
    ValuesInSections(lines, None);
  }
}
