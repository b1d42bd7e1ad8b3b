/** The merge theorems, on whole files: internal/domain/bepinex_merge.go. */
module MergeTheorems {
  import opened Text
  import opened Wrappers
  import opened Overrides
  import opened ConfigLines
  import opened ConfigFiles
  import opened OverrideText
  import opened Merge
  import opened MergeLaws

  /** An override no merge can place: its section is declared only by padded headers. */
  ghost predicate Dropped(lines: seq<string>, k: SettingKey) {
    k !in Values(lines, None) && Lost(lines, Headers(lines), k.section)
  }

  ghost function Kept(lines: seq<string>, items: Items): Items {
    map k | k in items && !Dropped(lines, k) :: items[k]
  }

  lemma FileLinesFree(body: string)
    ensures FreeOf(FileLines(body), '\n')
    ensures FileLines(body) == [] <==> Normalise(body) == ""
    ensures FromParser(FileOf("", FileLines(body)))
  {
    hide Parsed;
    SplitFree(Normalise(body), '\n');
  }

  /** Merge on texts: parse, then substitute. */
  ghost function Merged(body: string, items: Items): string {
    var f := FileOf("", FileLines(body));
    FileLinesFree(body);
    ParserFacts(f);
    MergedText(f, items)
  }

  lemma {:induction false} HeadersTrimmed(lines: seq<string>)
    requires FreeOf(lines, '\n')
    ensures forall s | s in Headers(lines) :: Trimmed(s)
  {
    hide Classify, Trimmed;
    if lines != [] {
      assert lines[|lines| - 1] in lines;
      HeadersTrimmed(lines[..|lines| - 1]);
      ClassifyYields(lines[|lines| - 1]);
    }
  }

  /** The overrides whose key the index does not have. */
  function Undeclared(index: Index, items: Items): Items {
    map k | k in items && k !in index :: items[k]
  }

  lemma UndeclaredLast(index: Index, items: Items, k: SettingKey, v: string)
    ensures Undeclared(index, items[k := v]) ==
            if k in index then Undeclared(index, items) else Undeclared(index, items)[k := v]
    ensures Undeclared(index, map[]) == map[]
  {
  }

  lemma {:induction false} PendingIs(index: Index, os: seq<Override>)
    ensures MapOf(Pending(index, os)) == Undeclared(index, MapOf(os))
    ensures forall o | o in Pending(index, os) :: o in os
  {
    if os != [] {
      var p, o := os[..|os| - 1], os[|os| - 1];
      hide MapOf, Undeclared;
      PendingIs(index, p);
      MapOfLast(Pending(index, p), o);
      MapOfLast(p, o);
      assert os == p + [o];
      UndeclaredLast(index, MapOf(p), o.Key(), o.value);
      assert Pending(index, os) == if o.Key() in index then Pending(index, p) else Pending(index, p) + [o];
    } else {
      UndeclaredLast(index, map[], SettingKey("", ""), "");
    }
  }

  lemma OrderIsTidy(os: seq<Override>)
    requires forall o | o in os :: WellFormedOverride(o)
    ensures Tidy(OrderOf(os))
    ensures Names(OrderOf(os)) == set o | o in os :: o.section
  {
    OrderOfSections(os);
    hide WellFormedSection, WellFormedKey, WellFormedValue, OrderOf;
    forall s | s in OrderOf(os) ensures WellFormedSection(s) {
      var o :| o in os && o.section == s;
    }
  }

  lemma ShapeKeepsHeaders(a: seq<string>, b: seq<string>, section: string)
    requires SameShape(a, b) && Trimmed(section)
    ensures HasHeader(a, section) <==> HasHeader(b, section)
  {
    hide Classify;
    forall i | 0 <= i < |a|
      ensures Trim(a[i]) == HeaderLine(section) <==> Trim(b[i]) == HeaderLine(section)
    {
      assert Alike(a[i], b[i]);
      if Trim(a[i]) == HeaderLine(section) {
        HeaderReads(a[i], section);
      }
      if Trim(b[i]) == HeaderLine(section) {
        HeaderReads(b[i], section);
      }
    }
  }

  lemma AppendSectionGrows(lines: seq<string>, known: set<string>, section: string, entries: seq<Override>)
    ensures |AppendSection(lines, known, section, entries)| >= |lines|
  {
    hide Trim;
  }

  lemma {:induction false} AppendAllFree(lines: seq<string>, known: set<string>, pending: seq<Override>,
                                         order: seq<string>)
    requires FreeOf(lines, '\n') && Tidy(order) && forall o | o in pending :: WellFormedOverride(o)
    ensures FreeOf(AppendAll(lines, known, pending, order), '\n')
    ensures forall l | l in lines :: l in AppendAll(lines, known, pending, order)
    ensures |AppendAll(lines, known, pending, order)| >= |lines|
  {
    if order == [] {
      return;
    }
    TidyLast(order);
    var p, s := order[..|order| - 1], order[|order| - 1];
    AppendAllFree(lines, known, pending, p);
    var r := AppendAll(lines, known, pending, p);
    AppendSectionAdds(r, known, s, EntriesOf(pending, s));
    EntriesOfFor(pending, s);
    EntriesForParts(EntriesOf(pending, s), s);
    EntryLinesFree(EntriesOf(pending, s));
    HeaderLineKept(s);
    AppendSectionGrows(r, known, s, EntriesOf(pending, s));
    hide EntriesOf, AppendSection, WellFormedOverride, EntryLines, HeaderLine;
    forall l | l in AppendAll(lines, known, pending, order) ensures '\n' !in l {
      assert l in AppendSection(r, known, s, EntriesOf(pending, s));
    }
  }

  /** The pieces the merge adds, put together. */
  lemma PiecesMakeKept(values: Items, lines: seq<string>, items: Items, index: Index, pending: Items,
                       sections: set<string>)
    requires values == ValuesOf(index) == Values(lines, None)
    requires WellFormed(items) && forall k | k in index :: Trimmed(index[k].value)
    requires pending == Undeclared(index, items)
    requires forall k | k in pending :: k.section in sections
    ensures values + AppliedOf(index, items) + Written(lines, Headers(lines), pending, sections)
            == values + Kept(lines, items)
  {
    hide *;
    var a, b := AppliedOf(index, items), Written(lines, Headers(lines), pending, sections);
    forall k ensures At(values + a + b, k) == At(values + Kept(lines, items), k) {
      PieceAt(values, lines, items, index, pending, sections, k);
      AtSum(values + a, b, k);
      AtSum(values, a, k);
      AtSum(values, Kept(lines, items), k);
    }
    AtSame(values + a + b, values + Kept(lines, items));
  }

  function At(m: Items, k: SettingKey): Option<string> {
    if k in m then Some(m[k]) else None
  }

  lemma AtSum(m: Items, n: Items, k: SettingKey)
    ensures At(m + n, k) == if k in n then Some(n[k]) else At(m, k)
    ensures At(n, k) == if k in n then Some(n[k]) else None
  {
  }

  lemma AtSame(m: Items, n: Items)
    requires forall k :: At(m, k) == At(n, k)
    ensures m == n
  {
    forall k ensures (k in m <==> k in n) && (k in m ==> m[k] == n[k]) {
      assert At(m, k) == At(n, k);
    }
  }

  lemma PieceAt(values: Items, lines: seq<string>, items: Items, index: Index, pending: Items, sections: set<string>,
                k: SettingKey)
    requires values == ValuesOf(index) == Values(lines, None)
    requires WellFormed(items) && forall k | k in index :: Trimmed(index[k].value)
    requires pending == Undeclared(index, items)
    requires forall k | k in pending :: k.section in sections
    ensures var a, b := AppliedOf(index, items), Written(lines, Headers(lines), pending, sections);
            var kept := Kept(lines, items);
            (if k in b then Some(b[k]) else if k in a then Some(a[k]) else At(values, k)) ==
            if k in kept then Some(kept[k]) else At(values, k)
  {
    hide Trim, Values, Headers, Lost, Trimmed, WellFormed;
    if k in items && k in index {
      ValueTrimmed(items, k);
      TrimOfTrimmed(items[k]);
      TrimOfTrimmed(index[k].value);
    }
  }

  lemma ValueTrimmed(items: Items, k: SettingKey)
    requires WellFormed(items) && k in items
    ensures Trimmed(items[k])
  {
    WellFormedParts(Override(k.section, k.name, items[k]));
  }

  lemma IndexTrimmed(lines: seq<string>, index: Index)
    requires IsIndex(lines, index) && FreeOf(lines, '\n')
    ensures forall k | k in index :: Trimmed(index[k].value)
  {
    hide IsIndex, Classify;
    forall k | k in index ensures Trimmed(index[k].value) {
      IndexEntryFacts(lines, index, k);
      assert lines[index[k].lineIndex] in lines;
      EntryYields(lines[index[k].lineIndex]);
    }
  }

  /** The lines Merge writes: what they say, which sections they declare. */
  lemma MergedLinesRead(f: ConfigFile, items: Items)
    requires FromParser(f) && f.lines != [] && WellFormed(items)
    requires InBounds(Latest(Flat(f.sections)), |f.lines|)
    ensures var r := MergedLines(f, Listing(items));
            && r != [] && FreeOf(r, '\n')
            && Values(r, None) == Values(f.lines, None) + Kept(f.lines, items)
            && Headers(f.lines) <= Headers(r)
            && (forall s | s in Headers(r) :: s in Headers(f.lines) || HasHeader(r, s))
            && (r == [""] ==> f.lines == [""])
            && forall s | s in Headers(f.lines) :: HasHeader(r, s) <==> HasHeader(f.lines, s)
  {
    var index, known, os := Latest(Flat(f.sections)), SectionNames(f.sections), Listing(items);
    var pending := Pending(index, os);
    var order := OrderOf(pending);
    var a := RewriteAll(index, f.lines, os);
    var r := AppendAll(a, known, pending, order);
    assert r == MergedLines(f, os);
    hide *;
    ParserFacts(f);
    FreeOfParser(f);
    ListingWellFormed(items);
    ListingDistinct(items);
    RewriteAllReads(index, f.lines, os);
    SameShapeSections(a, f.lines);
    HeadersTrimmed(f.lines);
    PendingIs(index, os);
    OrderIsTidy(pending);
    AppendAllFree(a, known, pending, order);
    SameShapeLength(a, f.lines);
    assert a[0] in a;
    AppliedKeys(index, items, f.lines);
    DisjointPending(index, items, MapOf(pending), Values(f.lines, None));
    AppendAllReads(a, known, pending, order);
    AppendAllHeaders(a, known, pending, order);
    BlankOnly(a, f.lines, r);
    forall s | s in Headers(f.lines) ensures HasHeader(a, s) <==> HasHeader(f.lines, s) {
      ShapeKeepsHeaders(a, f.lines, s);
    }
    WrittenSame(a, f.lines, known, MapOf(pending), Names(order));
    IndexTrimmed(f.lines, index);
    PendingSections(pending, Names(order));
    PiecesMakeKept(Values(f.lines, None), f.lines, items, index, MapOf(pending), Names(order));
  }

  lemma BlankOnly(a: seq<string>, b: seq<string>, r: seq<string>)
    requires a != [] && SameShape(a, b) && |r| >= |a| && forall l | l in a :: l in r
    ensures r == [""] ==> b == [""]
  {
    assert a[0] in a && Alike(a[0], b[0]);
    BlankLineReads();
  }

  /** Every appended section has its header. */
  lemma {:induction false} AppendAllHeaders(lines: seq<string>, known: set<string>, pending: seq<Override>,
                                            order: seq<string>)
    requires Tidy(order)
    ensures forall s | s in Names(order) - known :: HasHeader(AppendAll(lines, known, pending, order), s)
  {
    hide *;
    if order == [] {
      NoNames();
      return;
    }
    var p, s := order[..|order| - 1], order[|order| - 1];
    var r := AppendAll(lines, known, pending, p);
    TidyLast(order);
    AppendAllHeaders(lines, known, pending, p);
    AppendLast(lines, known, pending, order);
    AppendSectionAdds(r, known, s, EntriesOf(pending, s));
    var next := AppendSection(r, known, s, EntriesOf(pending, s));
    forall x | x in Names(order) - known ensures HasHeader(next, x) {
      HeaderMeans(r, x);
      HeaderMeans(next, x);
      if x == s {
        NewSectionHasHeader(r, s, EntriesOf(pending, s));
        AppendSectionNew(r, known, s, EntriesOf(pending, s));
      }
    }
  }

  lemma AppendSectionNew(lines: seq<string>, known: set<string>, section: string, entries: seq<Override>)
    requires section !in known
    ensures AppendSection(lines, known, section, entries) == NewSection(lines, section, entries)
  {
  }

  lemma NewSectionHasHeader(lines: seq<string>, section: string, entries: seq<Override>)
    requires WellFormedSection(section)
    ensures HasHeader(NewSection(lines, section, entries), section)
  {
    hide Trim, Classify;
    HeaderLineReads(section);
    var i := if lines != [] && Trim(lines[|lines| - 1]) != "" then |lines| + 1 else |lines|;
    assert NewSection(lines, section, entries)[i] == HeaderLine(section);
  }

  lemma FreeOfParser(f: ConfigFile)
    requires FromParser(f)
    ensures FreeOf(f.lines, '\n')
  {
  }

  lemma ListingDistinct(items: Items)
    ensures DistinctKeys(Listing(items)) && MapOf(Listing(items)) == items
  {
    ListingHas(items);
  }

  lemma AppliedKeys(index: Index, items: Items, lines: seq<string>)
    ensures AppliedOf(index, items).Keys <= ValuesOf(index).Keys
  {
    hide Trim;
  }

  lemma DisjointPending(index: Index, items: Items, pending: Items, values: Items)
    requires pending == Undeclared(index, items)
    requires ValuesOf(index) == values && AppliedOf(index, items).Keys <= ValuesOf(index).Keys
    ensures pending.Keys !! (values + AppliedOf(index, items)).Keys
  {
    hide AppliedOf;
  }

  lemma WrittenSame(a: seq<string>, b: seq<string>, known: set<string>, items: Items, sections: set<string>)
    requires forall s | s in known :: HasHeader(a, s) <==> HasHeader(b, s)
    ensures Written(a, known, items, sections) == Written(b, known, items, sections)
  {
    hide HasHeader;
  }

  lemma PendingSections(pending: seq<Override>, sections: set<string>)
    requires sections == set o | o in pending :: o.section
    ensures forall k | k in MapOf(pending) :: k.section in sections
  {
    forall k | k in MapOf(pending) ensures k.section in sections {
      var i := MapOfFind(pending, k);
      assert pending[i] in pending;
    }
  }

  // ---- on texts --------------------------------------------------------------

  lemma ReadBack(ls: seq<string>)
    requires ls != [] && FreeOf(ls, '\n')
    ensures TextLines(Join(ls, "\n")) == DropCrs(ls)
    ensures Values(TextLines(Join(ls, "\n")), None) == Values(ls, None)
    ensures Headers(TextLines(Join(ls, "\n"))) == Headers(ls)
  {
    hide *;
    NormaliseJoin(ls);
    DropCrsReadAlike(ls, None);
    TextLinesIs(Join(ls, "\n"));
  }

  lemma TextLinesIs(text: string)
    ensures TextLines(text) == Split(Normalise(text), '\n')
  {
  }

  /** An empty text says nothing, whether it is kept as no line or as one blank line. */
  lemma SettingsOfText(text: string)
    ensures Settings(text) == Values(TextLines(text), None)
    ensures Headers(FileLines(text)) == Headers(TextLines(text))
  {
    hide Parsed, Flat, Latest, Classify, Normalise;
    SettingsOfLines(text);
    if Normalise(text) == "" {
      BlankAppended([]);
      assert TextLines(text) == [""] && [] + [""] == [""];
    }
  }

  lemma MergedIs(body: string, items: Items)
    ensures var f := FileOf("", FileLines(body));
            && FromParser(f) && f.lines == FileLines(body)
            && InBounds(Latest(Flat(f.sections)), |f.lines|)
            && (f.lines == [] ==> Merged(body, items) == Encoded(items))
            && (f.lines != [] ==> Merged(body, items) == Join(MergedLines(f, Listing(items)), "\n"))
  {
    var f := FileOf("", FileLines(body));
    FileLinesFree(body);
    ParserFacts(f);
  }

  /** Nothing is dropped from an empty file. */
  lemma NothingDropped(items: Items)
    ensures Kept([], items) == items
    ensures Values([], None) == map[]
  {
    hide HasHeader;
  }

  /** MERGE REFINES UPDATE. Re-reading the merged file gives the generated file's settings
      updated with the overrides, all but those whose section has only padded headers. */
  lemma MergeRefinesUpdate(body: string, items: Items)
    requires WellFormed(items)
    ensures Settings(Merged(body, items)) == Settings(body) + Kept(FileLines(body), items)
  {
    var f := FileOf("", FileLines(body));
    MergedIs(body, items);
    hide *;
    SettingsOfLines(body);
    SettingsOfText(Merged(body, items));
    if f.lines == [] {
      EncodedReads(items);
      NothingDropped(items);
      assert map[] + items == items;
    } else {
      MergedLinesRead(f, items);
      ReadBack(MergedLines(f, Listing(items)));
    }
  }

  // ---- when nothing is dropped -------------------------------------------------

  lemma KeptAt(lines: seq<string>, items: Items, k: SettingKey)
    ensures k in Kept(lines, items) <==> k in items && !Dropped(lines, k)
    ensures k in Kept(lines, items) ==> Kept(lines, items)[k] == items[k]
    ensures Dropped(lines, k) ==> k !in Values(lines, None)
  {
    hide Dropped;
    DroppedUnset(lines, k);
  }

  lemma DroppedUnset(lines: seq<string>, k: SettingKey)
    ensures Dropped(lines, k) ==> k !in Values(lines, None)
  {
    hide Values, Lost;
  }

  lemma SameItems(a: Items, b: Items)
    requires forall k | k in a || k in b :: k in a && k in b && a[k] == b[k]
    ensures a == b
  {
  }

  /** EVERY OVERRIDE TAKES EFFECT, EXACTLY: the merged file's settings are the generated ones updated
      with the whole set just when no override's section is declared by padded headers only. */
  lemma EveryOverrideKept(body: string, items: Items)
    requires WellFormed(items)
    ensures Settings(Merged(body, items)) == Settings(body) + items <==>
            forall k | k in items :: !Dropped(FileLines(body), k)
  {
    hide *;
    var lines := FileLines(body);
    MergeRefinesUpdate(body, items);
    SettingsOfLines(body);
    if forall k | k in items :: !Dropped(lines, k) {
      forall k | k in items || k in Kept(lines, items)
        ensures k in items && k in Kept(lines, items) && items[k] == Kept(lines, items)[k]
      {
        KeptAt(lines, items, k);
      }
      SameItems(items, Kept(lines, items));
    } else {
      var k :| k in items && Dropped(lines, k);
      KeptAt(lines, items, k);
      assert k !in Settings(body) + Kept(lines, items) && k in Settings(body) + items;
    }
  }

  /** Every named section the text declares has a header without padding inside its brackets. */
  ghost predicate Unpadded(lines: seq<string>) {
    forall s | s in Headers(lines) && s != "" :: HasHeader(lines, s)
  }

  lemma MergeUpdates(body: string, items: Items)
    requires WellFormed(items) && Unpadded(FileLines(body))
    ensures Settings(Merged(body, items)) == Settings(body) + items
  {
    hide *;
    EveryOverrideKept(body, items);
    forall k | k in items ensures !Dropped(FileLines(body), k) {
      UnpaddedKeeps(FileLines(body), items, k);
    }
  }

  lemma NamedKeeps(lines: seq<string>, k: SettingKey)
    requires Unpadded(lines) && k.section != ""
    ensures !Dropped(lines, k)
  {
    hide HasHeader, Headers, Values;
  }

  lemma UnpaddedKeeps(lines: seq<string>, items: Items, k: SettingKey)
    requires Unpadded(lines) && WellFormed(items) && k in items
    ensures !Dropped(lines, k)
  {
    hide Unpadded, Dropped, WellFormedKey, WellFormedValue;
    assert WellFormedSection(k.section);
    NamedKeeps(lines, k);
  }

  lemma {:induction false} LongerThanAll(keys: set<SettingKey>) returns (n: nat)
    ensures n > 0 && forall k | k in keys :: |k.name| < n
  {
    if keys == {} {
      n := 1;
    } else {
      var k :| k in keys;
      var m := LongerThanAll(keys - {k});
      n := if m > |k.name| then m else |k.name| + 1;
      assert forall j | j in keys :: j == k || j in keys - {k};
    }
  }

  /** An override of a section's key that no line sets. */
  lemma FreshOverride(lines: seq<string>, section: string) returns (items: Items, k: SettingKey)
    requires WellFormedSection(section)
    ensures WellFormed(items) && items.Keys == {k} && k.section == section && k !in Values(lines, None)
  {
    hide Values;
    var n := LongerThanAll(Values(lines, None).Keys);
    var name := seq(n, _ => 'a');
    k := SettingKey(section, name);
    items := map[k := ""];
    assert WellFormedKey(name) && WellFormedValue(name, "");
    assert WellFormed(items) by {
      assert Override(k.section, k.name, items[k]) == Override(section, name, "");
    }
  }

  /** UNPADDED HEADERS, EXACTLY: every well-formed set takes effect on a text just when each of its
      named sections has an unpadded header. */
  lemma UnpaddedExactly(body: string)
    ensures Unpadded(FileLines(body)) <==>
            forall items: Items | WellFormed(items) :: Settings(Merged(body, items)) == Settings(body) + items
  {
    hide *;
    var lines := FileLines(body);
    if Unpadded(lines) {
      forall items: Items | WellFormed(items)
        ensures Settings(Merged(body, items)) == Settings(body) + items
      {
        MergeUpdates(body, items);
      }
    } else {
      var s := PaddedSection(lines);
      FileLinesFree(body);
      HeadersWellFormed(lines, s);
      var items, k := FreshOverride(lines, s);
      IsDropped(lines, k);
      EveryOverrideKept(body, items);
      assert k in items;
    }
  }

  lemma PaddedSection(lines: seq<string>) returns (s: string)
    requires !Unpadded(lines)
    ensures s in Headers(lines) && s != "" && !HasHeader(lines, s)
  {
    hide Headers, HasHeader;
    s :| s in Headers(lines) && s != "" && !HasHeader(lines, s);
  }

  lemma IsDropped(lines: seq<string>, k: SettingKey)
    requires k !in Values(lines, None) && k.section in Headers(lines) && !HasHeader(lines, k.section)
    ensures Dropped(lines, k)
  {
    hide Values, Headers, HasHeader;
  }

  lemma {:induction false} HeadersWellFormed(lines: seq<string>, s: string)
    requires FreeOf(lines, '\n') && s in Headers(lines) && s != ""
    ensures WellFormedSection(s)
  {
    hide Classify, Trimmed;
    var n := |lines| - 1;
    assert lines[n] in lines;
    ClassifyYields(lines[n]);
    if s in Headers(lines[..n]) {
      HeadersWellFormed(lines[..n], s);
    }
  }

  /** Such a text: a lone header with a blank inside its brackets. Whatever is set below it is dropped,
      and the text stays as it was. */
  lemma PaddedHeaderDrops(section: string, items: Items)
    requires WellFormedSection(section)
    requires WellFormed(items) && items != map[] && forall k | k in items :: k.section == section
    ensures var body := "[ " + section + " ]";
            && Settings(body) == map[] && Settings(Merged(body, items)) == map[]
            && Settings(Merged(body, items)) != Settings(body) + items
  {
    hide *;
    var body := "[ " + section + " ]";
    PaddedLine(section, body);
    MergeRefinesUpdate(body, items);
    SettingsOfLines(body);
    var lines := FileLines(body);
    forall k ensures k !in Kept(lines, items) {
      KeptAt(lines, items, k);
      if k in items {
        IsDropped(lines, k);
      }
    }
    assert Kept(lines, items) == map[];
    assert map[] + items == items;
  }

  lemma PaddedLine(section: string, body: string)
    requires WellFormedSection(section) && body == "[ " + section + " ]"
    ensures FileLines(body) == [body] && Values([body], None) == map[]
    ensures section in Headers([body]) && !HasHeader([body], section)
  {
    PaddedReads(section, body);
    hide Classify, Trim, Trimmed;
    NormaliseNoBreak(body);
    SplitOne(body, '\n');
    hide Normalise, Split;
    LastLine([], body, None);
    assert [] + [body] == [body];
    assert |body| != |HeaderLine(section)|;
  }

  lemma PaddedReads(section: string, body: string)
    requires WellFormedSection(section) && body == "[ " + section + " ]"
    ensures Classify(body) == Header(section) && Trim(body) == body && '\n' !in body
  {
    hide Trim, SplitEntry, HasPrefix;
    TrimOfTrimmed(body);
    assert body[1..|body| - 1] == " " + section + " ";
    TrimUnique(" ", section, " ");
    assert HasPrefix(body, "#") == false && HasPrefix(body, "##") == false by {
      NotAComment(body);
    }
  }

  lemma NotAComment(line: string)
    requires line != "" && line[0] != '#'
    ensures !HasPrefix(line, "#") && !HasPrefix(line, "##")
  {
  }
}
