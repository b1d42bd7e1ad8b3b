/** What Merge promises: re-reading its output gives the file's settings updated with the
    overrides; merging again changes nothing; the report is exact. */
module MergeLaws {
  import opened Text
  import opened Wrappers
  import opened Overrides
  import opened ConfigLines
  import opened ConfigFiles
  import opened OverrideText
  import opened Merge

  // ---- rewriting a line in place ---------------------------------------------

  /** The same line, or an entry of the same key. */
  ghost predicate Alike(a: string, b: string) {
    a == b || (Classify(a).Entry? && Classify(b).Entry? && Classify(a).key == Classify(b).key)
  }

  ghost predicate SameShape(a: seq<string>, b: seq<string>) {
    |a| == |b| && forall i | 0 <= i < |a| :: Alike(a[i], b[i])
  }

  lemma {:induction false} SameShapeSections(a: seq<string>, b: seq<string>)
    requires SameShape(a, b)
    ensures Section(a, None) == Section(b, None) && Headers(a) == Headers(b)
  {
    hide Classify;
    if a != [] {
      var n := |a| - 1;
      assert SameShape(a[..n], b[..n]);
      SameShapeSections(a[..n], b[..n]);
      assert Alike(a[n], b[n]);
    }
  }

  lemma SameShapeKeys(a: seq<string>, b: seq<string>, i: nat)
    requires SameShape(a, b) && i < |a|
    ensures KeyAt(a, i) == KeyAt(b, i)
  {
    hide Classify;
    assert SameShape(a[..i], b[..i]);
    SameShapeSections(a[..i], b[..i]);
    assert Alike(a[i], b[i]);
  }

  /** A key no line from i on sets is not among their values. */
  lemma {:induction false} NotSetAfter(lines: seq<string>, i: nat, k: SettingKey)
    requires i <= |lines|
    requires forall j | i <= j < |lines| :: KeyAt(lines, j) != Some(k)
    ensures k !in Values(lines[i..], Section(lines[..i], None))
  {
    hide *;
    var cur := Section(lines[..i], None);
    if i == |lines| {
      NoLinesSay(cur);
      assert lines[i..] == [];
      return;
    }
    var n := |lines| - 1;
    var before := lines[..n];
    forall j | i <= j < n ensures KeyAt(before, j) != Some(k) {
      KeyAtPrefix(lines, n, j);
    }
    NotSetAfter(before, i, k);
    assert before[i..] == lines[i..n] && before[..i] == lines[..i];
    assert lines[i..] == before[i..] + [lines[n]];
    assert before == lines[..i] + before[i..];
    LastLine(before[i..], lines[n], cur);
    SectionAppend(lines[..i], before[i..], None);
    KeySets(lines, n, k);
  }

  lemma NoLinesSay(cur: Option<string>)
    ensures Values([], cur) == map[]
  {
  }

  lemma KeySets(lines: seq<string>, n: nat, k: SettingKey)
    requires n < |lines|
    ensures KeyAt(lines, n) == Some(k) <==> k in Sets(Classify(lines[n]), Section(lines[..n], None))
  {
    hide Classify;
  }

  lemma SplitAround(lines: seq<string>, i: nat)
    requires i < |lines|
    ensures lines == lines[..i] + [lines[i]] + lines[i + 1..]
    ensures lines[..i + 1] == lines[..i] + [lines[i]]
  {
  }

  /** The values around line i. */
  lemma ValuesAround(lines: seq<string>, i: nat)
    requires i < |lines|
    ensures Values(lines, None) ==
            Values(lines[..i], None) + Sets(Classify(lines[i]), Section(lines[..i], None))
            + Values(lines[i + 1..], Section(lines[..i + 1], None))
  {
    hide *;
    SplitAround(lines, i);
    ValuesAppend(lines[..i + 1], lines[i + 1..], None);
    LastLine(lines[..i], lines[i], None);
  }

  lemma OverwriteLast(a: Items, b: Items, k: SettingKey, v: string, w: string)
    requires k !in b
    ensures a + map[k := w] + b == (a + map[k := v] + b)[k := w]
  {
  }

  /** Rewriting the last line that sets k sets k, and nothing else. */
  lemma RewriteOne(lines: seq<string>, i: nat, k: SettingKey, line: string, v: string)
    requires LastAt(lines, i, k)
    requires Classify(line).Entry? && Classify(line).key == k.name && Classify(line).value == v
    ensures SameShape(lines[i := line], lines)
    ensures Values(lines[i := line], None) == Values(lines, None)[k := v]
  {
    hide Classify, Values, Section;
    var new_ := lines[i := line];
    assert new_[..i] == lines[..i] && new_[i + 1..] == lines[i + 1..];
    var cur := Section(lines[..i], None);
    forall j | i + 1 <= j < |lines| ensures KeyAt(lines, j) != Some(k) {
    }
    NotSetAfter(lines, i + 1, k);
    ValuesAround(lines, i);
    ValuesAround(new_, i);
    SectionSkipsEntry(lines, i);
    SectionSkipsEntry(new_, i);
    OverwriteLast(Values(lines[..i], None), Values(lines[i + 1..], cur), k, Classify(lines[i]).value, v);
  }

  lemma SectionSkipsEntry(lines: seq<string>, i: nat)
    requires i < |lines| && Classify(lines[i]).Entry?
    ensures Section(lines[..i + 1], None) == Section(lines[..i], None)
  {
    hide Classify, Values, Section;
    SplitAround(lines, i);
    LastLine(lines[..i], lines[i], None);
  }

  /** The overrides the rewriting loop applies. */
  function AppliedOf(index: Index, items: Items): Items {
    map k | k in items && k in index && Trim(index[k].value) != Trim(items[k]) :: items[k]
  }

  lemma LastAtShape(a: seq<string>, b: seq<string>, i: nat, k: SettingKey)
    requires SameShape(a, b) && LastAt(b, i, k)
    ensures LastAt(a, i, k)
  {
    SameShapeLength(a, b);
    hide KeyAt, SameShape;
    forall j | 0 <= j < |a| ensures KeyAt(a, j) == KeyAt(b, j) {
      SameShapeKeys(a, b, j);
    }
  }

  lemma SameShapeLength(a: seq<string>, b: seq<string>)
    requires SameShape(a, b)
    ensures |a| == |b|
  {
  }

  lemma SameShapeTrans(a: seq<string>, b: seq<string>, c: seq<string>)
    requires SameShape(a, b) && SameShape(b, c)
    ensures SameShape(a, c)
  {
    hide Classify;
    forall i | 0 <= i < |a| ensures Alike(a[i], c[i]) {
      assert Alike(a[i], b[i]) && Alike(b[i], c[i]);
    }
  }

  lemma SameShapeRefl(a: seq<string>)
    ensures SameShape(a, a)
  {
  }

  lemma IndexEntryFacts(lines: seq<string>, index: Index, k: SettingKey)
    requires IsIndex(lines, index) && k in index
    ensures index[k].Key() == k && LastAt(lines, index[k].lineIndex, k)
    ensures index[k].lineIndex < |lines|
    ensures Classify(lines[index[k].lineIndex]) == Entry(k.name, index[k].separator, index[k].value)
  {
    hide Classify, KeyAt;
    assert IndexEntry(lines, k, index[k]);
  }

  lemma RewrittenReads(lines: seq<string>, index: Index, o: Override)
    requires IsIndex(lines, index) && o.Key() in index && FreeOf(lines, '\n') && WellFormedOverride(o)
    ensures var s := index[o.Key()];
            && Classify(Rewritten(s, o.value)) == Entry(o.name, s.separator, o.value)
            && '\n' !in Rewritten(s, o.value)
  {
    hide Classify, KeyAt, IsIndex;
    IndexEntryFacts(lines, index, o.Key());
    var s := index[o.Key()];
    assert lines[s.lineIndex] in lines;
    EntryYields(lines[s.lineIndex]);
    RewrittenLine(o.name, s.separator, o.value);
    RewrittenLineFree(o.name, s.separator, o.value);
  }

  /** The rewriting loop updates the values with the applied overrides. */
  lemma {:induction false} RewriteAllReads(index: Index, lines: seq<string>, os: seq<Override>)
    requires IsIndex(lines, index) && InBounds(index, |lines|) && FreeOf(lines, '\n')
    requires DistinctKeys(os) && forall o | o in os :: WellFormedOverride(o)
    ensures var r := RewriteAll(index, lines, os);
            && SameShape(r, lines) && FreeOf(r, '\n')
            && Values(r, None) == Values(lines, None) + AppliedOf(index, MapOf(os))
  {
    hide *;
    if os == [] {
      RewriteNothing(index, lines);
      SameShapeRefl(lines);
      return;
    }
    var p, o := os[..|os| - 1], os[|os| - 1];
    DistinctLast(os);
    RewriteAllReads(index, lines, p);
    var r := RewriteAll(index, lines, p);
    RewriteLast(index, lines, os);
    if o.Key() in index && Trim(index[o.Key()].value) != Trim(o.value) {
      var s := index[o.Key()];
      IndexEntryFacts(lines, index, o.Key());
      KeyParts(o);
      RewrittenReads(lines, index, o);
      LastAtShape(r, lines, s.lineIndex, o.Key());
      RewriteOne(r, s.lineIndex, o.Key(), Rewritten(s, o.value), o.value);
      SameShapeTrans(r[s.lineIndex := Rewritten(s, o.value)], r, lines);
      FreeOfUpdate(r, s.lineIndex, Rewritten(s, o.value));
      UpdateUnder(Values(lines, None), AppliedOf(index, MapOf(p)), o.Key(), o.value);
    }
  }

  lemma KeyParts(o: Override)
    ensures o.Key().section == o.section && o.Key().name == o.name
  {
  }

  lemma DistinctLast(os: seq<Override>)
    requires os != [] && DistinctKeys(os)
    ensures DistinctKeys(os[..|os| - 1])
    ensures os[|os| - 1].Key() !in MapOf(os[..|os| - 1])
    ensures MapOf(os) == MapOf(os[..|os| - 1])[os[|os| - 1].Key() := os[|os| - 1].value]
  {
    MapOfInit(os);
  }

  lemma RewriteNothing(index: Index, lines: seq<string>)
    requires InBounds(index, |lines|)
    ensures RewriteAll(index, lines, []) == lines
    ensures Values(lines, None) + AppliedOf(index, MapOf([])) == Values(lines, None)
  {
  }

  lemma FreeOfUpdate(ls: seq<string>, i: nat, l: string)
    requires FreeOf(ls, '\n') && i < |ls| && '\n' !in l
    ensures FreeOf(ls[i := l], '\n')
  {
  }

  lemma RewriteLast(index: Index, lines: seq<string>, os: seq<Override>)
    requires InBounds(index, |lines|) && os != []
    ensures var p, o := os[..|os| - 1], os[|os| - 1];
            var applies := o.Key() in index && Trim(index[o.Key()].value) != Trim(o.value);
            && RewriteAll(index, lines, os) ==
               (if applies
                then RewriteAll(index, lines, p)[index[o.Key()].lineIndex := Rewritten(index[o.Key()], o.value)]
                else RewriteAll(index, lines, p))
            && (applies ==> AppliedOf(index, MapOf(os)) == AppliedOf(index, MapOf(p))[o.Key() := o.value])
            && (!applies && o.Key() !in MapOf(p) ==> AppliedOf(index, MapOf(os)) == AppliedOf(index, MapOf(p)))
  {
    hide Trim;
  }

  // ---- inserting and appending -----------------------------------------------

  /** Some line reads "[section]", without padding inside the brackets. */
  ghost predicate HasHeader(lines: seq<string>, section: string) {
    exists i :: 0 <= i < |lines| && Trim(lines[i]) == HeaderLine(section)
  }

  function InSections(items: Items, sections: set<string>): Items {
    map k | k in items && k.section in sections :: items[k]
  }

  ghost predicate EntriesFor(os: seq<Override>, section: string) {
    forall o | o in os :: WellFormedOverride(o) && o.section == section
  }

  lemma {:induction false} NoHeadersBetween(lines: seq<string>, i: nat, n: nat)
    requires i <= n <= |lines| && forall j | i <= j < n :: !Classify(lines[j]).Header?
    ensures Section(lines[..n], None) == Section(lines[..i], None)
    decreases n - i
  {
    hide Classify, Section, Values, Headers;
    if i < n {
      NoHeadersBetween(lines, i, n - 1);
      SplitAround(lines, n - 1);
      LastLine(lines[..n - 1], lines[n - 1], None);
      OpensCases(Classify(lines[n - 1]), Section(lines[..n - 1], None));
    }
  }

  lemma HeaderFound(lines: seq<string>, section: string)
    requires Trimmed(section) && HasHeader(lines, section)
    ensures var start := FindHeader(lines, section, 0);
            && start < |lines| && Classify(lines[start]) == Header(section)
            && Section(lines[..SplicePoint(lines, start)], None) == Some(section)
  {
    hide Trim, SplitEntry, Section, Values, Headers, SplicePoint;
    var start := FindHeader(lines, section, 0);
    var k :| 0 <= k < |lines| && Trim(lines[k]) == HeaderLine(section);
    HeaderReads(lines[start], section);
    var end := SplicePoint(lines, start);
    SpliceBeforeHeader(lines, start);
    NoHeadersBetween(lines, start + 1, end);
    SplitAround(lines, start);
    LastLine(lines[..start], lines[start], None);
  }

  /** A line that trims to "[section]" is that section's header. */
  lemma HeaderReads(line: string, section: string)
    requires Trimmed(section) && Trim(line) == HeaderLine(section)
    ensures Classify(line) == Header(section)
  {
    hide Trim, SplitEntry;
    HeaderLineReads(section);
    TrimOfTrimmed(section);
    assert HeaderLine(section)[1..|section| + 1] == section;
  }

  lemma SpliceBeforeHeader(lines: seq<string>, start: nat)
    requires start < |lines|
    ensures forall j | start + 1 <= j < SplicePoint(lines, start) :: !Classify(lines[j]).Header?
  {
    hide Trim, SplitEntry;
    var end := SectionEnd(lines, start + 1);
    forall j | start + 1 <= j < SplicePoint(lines, start) ensures !Classify(lines[j]).Header? {
      assert !IsHeader(Trim(lines[j]));
    }
  }

  lemma Commute(a: Items, b: Items, m: Items)
    requires m.Keys !! b.Keys
    ensures a + m + b == a + b + m
  {
  }

  lemma ThreePieces(a: seq<string>, m: seq<string>, b: seq<string>, cur: Option<string>)
    requires Section(m, Section(a, cur)) == Section(a, cur)
    ensures Values(a + m + b, cur) == Values(a, cur) + Values(m, Section(a, cur)) + Values(b, Section(a, cur))
    ensures Headers(a + m + b) == Headers(a) + Headers(m) + Headers(b)
  {
    hide Classify, Values, Section, Headers;
    ValuesAppend(a + m, b, cur);
    ValuesAppend(a, m, cur);
    SectionAppend(a, m, cur);
    HeadersAppend(a + m, b);
    HeadersAppend(a, m);
  }

  /** Inserting under an existing header adds the entries, and nothing else. */
  lemma InsertReads(lines: seq<string>, section: string, entries: seq<Override>)
    requires Trimmed(section) && HasHeader(lines, section) && EntriesFor(entries, section)
    requires MapOf(entries).Keys !! Values(lines, None).Keys
    ensures var r := InsertInto(lines, section, entries);
            && Values(r, None) == Values(lines, None) + MapOf(entries)
            && Headers(r) == Headers(lines)
  {
    hide *;
    HeaderFound(lines, section);
    EntriesForParts(entries, section);
    EntryLinesRead(entries, section);
    InsertShape(lines, section, entries);
    var end := SplicePoint(lines, FindHeader(lines, section, 0));
    SpliceReads(lines, end, EntryLines(entries), section, MapOf(entries));
  }

  lemma SpliceReads(lines: seq<string>, end: nat, add: seq<string>, section: string, m: Items)
    requires end <= |lines| && Section(lines[..end], None) == Some(section)
    requires Section(add, Some(section)) == Some(section) && Values(add, Some(section)) == m && Headers(add) == {}
    requires m.Keys !! Values(lines, None).Keys
    ensures Values(lines[..end] + add + lines[end..], None) == Values(lines, None) + m
    ensures Headers(lines[..end] + add + lines[end..]) == Headers(lines)
  {
    hide *;
    var a, b := lines[..end], lines[end..];
    assert lines == a + b;
    ValuesAppend(a, b, None);
    HeadersAppend(a, b);
    ThreePieces(a, add, b, None);
    Commute(Values(a, None), Values(b, Some(section)), m);
  }

  lemma InsertShape(lines: seq<string>, section: string, entries: seq<Override>)
    ensures var start := FindHeader(lines, section, 0);
            InsertInto(lines, section, entries) ==
            if start == |lines| then lines
            else lines[..SplicePoint(lines, start)] + EntryLines(entries) + lines[SplicePoint(lines, start)..]
  {
  }

  lemma EntriesForParts(entries: seq<Override>, section: string)
    requires EntriesFor(entries, section)
    ensures forall o | o in entries :: WellFormedOverride(o) && o.section == section
  {
  }

  /** A padded header is not found, and the entries are dropped. */
  lemma InsertDrops(lines: seq<string>, section: string, entries: seq<Override>)
    requires !HasHeader(lines, section)
    ensures InsertInto(lines, section, entries) == lines
  {
  }

  /** A new section at the end adds its entries. */
  lemma NewSectionReads(lines: seq<string>, section: string, entries: seq<Override>)
    requires WellFormedSection(section) && EntriesFor(entries, section)
    ensures var r := NewSection(lines, section, entries);
            && Values(r, None) == Values(lines, None) + MapOf(entries)
            && Headers(r) == Headers(lines) + {section}
  {
    EntriesForParts(entries, section);
    hide *;
    WellFormedSectionTrimmed(section);
    EntryLinesRead(entries, section);
    NewSectionShape(lines, section, entries);
    var a := if lines != [] && Trim(lines[|lines| - 1]) != "" then lines + [""] else lines;
    BlankAppended(lines);
    var b := a + [HeaderLine(section)];
    HeaderAppended(a, section);
    BlankAppended(b);
    ValuesAppend(b + [""], EntryLines(entries), None);
    HeadersAppend(b + [""], EntryLines(entries));
    BlankAppended(b + [""] + EntryLines(entries));
  }

  lemma NewSectionShape(lines: seq<string>, section: string, entries: seq<Override>)
    ensures NewSection(lines, section, entries) ==
            (if lines != [] && Trim(lines[|lines| - 1]) != "" then lines + [""] else lines)
            + [HeaderLine(section)] + [""] + EntryLines(entries) + [""]
  {
  }

  lemma EntryIsNoHeader(o: Override, section: string)
    requires WellFormedOverride(o) && Trimmed(section)
    ensures Trim(EntryLine(o)) != HeaderLine(section)
  {
    hide Classify, WellFormedKey, WellFormedValue;
    EntryLineReads(o);
    if Trim(EntryLine(o)) == HeaderLine(section) {
      HeaderReads(EntryLine(o), section);
    }
  }

  lemma BlankIsNoHeader(section: string)
    ensures Trim("") != HeaderLine(section)
  {
  }

  lemma HeaderIsOwn(a: string, b: string)
    requires Trimmed(a) && Trimmed(b) && Trim(HeaderLine(a)) == HeaderLine(b)
    ensures a == b
  {
    hide Classify;
    HeaderLineReads(a);
    HeaderReads(HeaderLine(a), b);
  }

  lemma AppendSectionAdds(lines: seq<string>, known: set<string>, section: string, entries: seq<Override>)
    ensures var r := AppendSection(lines, known, section, entries);
            && (forall l | l in lines :: l in r)
            && (forall l | l in r ::
                  (l in lines || l in EntryLines(entries)
                   || (section !in known && (l == "" || l == HeaderLine(section)))))
  {
    hide Trim, EntryLines, HeaderLine, FindHeader, SplicePoint;
    var r := AppendSection(lines, known, section, entries);
    if section in known {
      var start := FindHeader(lines, section, 0);
      if start < |lines| {
        var end := SplicePoint(lines, start);
        assert lines == lines[..end] + lines[end..];
      }
    }
  }

  lemma {:induction false} EntriesOfSection(os: seq<Override>, section: string)
    ensures MapOf(EntriesOf(os, section)) == InSections(MapOf(os), {section})
    ensures forall o | o in EntriesOf(os, section) :: o in os && o.section == section
  {
    if os != [] {
      hide InSections, MapOf;
      var p, o := os[..|os| - 1], os[|os| - 1];
      EntriesOfSection(p, section);
      InSectionsLast(os, section);
      MapOfLast(EntriesOf(p, section), o);
      assert EntriesOf(os, section) ==
             if o.section == section then EntriesOf(p, section) + [o] else EntriesOf(p, section);
    } else {
      assert InSections(MapOf(os), {section}) == map[];
    }
  }

  lemma InSectionsLast(os: seq<Override>, section: string)
    requires os != []
    ensures var p, o := os[..|os| - 1], os[|os| - 1];
            InSections(MapOf(os), {section}) ==
            if o.section == section then InSections(MapOf(p), {section})[o.Key() := o.value]
            else InSections(MapOf(p), {section})
  {
  }

  lemma {:induction false} OrderOfSections(os: seq<Override>)
    ensures forall s :: s in OrderOf(os) <==> exists o | o in os :: o.section == s
    ensures forall i, j | 0 <= i < j < |OrderOf(os)| :: OrderOf(os)[i] != OrderOf(os)[j]
  {
    if os != [] {
      var p, o := os[..|os| - 1], os[|os| - 1];
      OrderOfSections(p);
      assert os == p + [o];
    }
  }

  /** A known section whose headers are all padded: what is added to it is lost. */
  ghost predicate Lost(lines: seq<string>, known: set<string>, section: string) {
    section in known && !HasHeader(lines, section)
  }

  ghost function Written(lines: seq<string>, known: set<string>, items: Items, sections: set<string>): Items {
    map k | k in items && k.section in sections && !Lost(lines, known, k.section) :: items[k]
  }

  lemma HeaderMeans(lines: seq<string>, section: string)
    ensures HasHeader(lines, section) <==> exists l :: l in lines && Trim(l) == HeaderLine(section)
  {
    hide Trim, HeaderLine;
    if exists l :: l in lines && Trim(l) == HeaderLine(section) {
      var l :| l in lines && Trim(l) == HeaderLine(section);
      var i :| 0 <= i < |lines| && lines[i] == l;
    }
  }

  /** Appending to one section neither hides nor creates another known section's header. */
  lemma AppendKeepsHeader(lines: seq<string>, known: set<string>, section: string, entries: seq<Override>,
                          other: string)
    requires EntriesFor(entries, section) && Trimmed(section)
    requires other in known && Trimmed(other)
    ensures HasHeader(AppendSection(lines, known, section, entries), other) <==> HasHeader(lines, other)
  {
    EntriesForParts(entries, section);
    EntryLinesMembers(entries);
    AppendSectionAdds(lines, known, section, entries);
    BlankIsNoHeader(other);
    hide *;
    var r := AppendSection(lines, known, section, entries);
    HeaderMeans(lines, other);
    HeaderMeans(r, other);
    if HasHeader(r, other) {
      var l :| l in r && Trim(l) == HeaderLine(other);
      if l in EntryLines(entries) {
        var o :| o in entries && l == EntryLine(o);
        EntryIsNoHeader(o, other);
      } else if l !in lines && l == HeaderLine(section) {
        HeaderIsOwn(section, other);
      }
    }
  }

  lemma EntryLinesMembers(os: seq<Override>)
    ensures forall l | l in EntryLines(os) :: exists o :: o in os && l == EntryLine(o)
  {
    forall l | l in EntryLines(os) ensures exists o :: o in os && l == EntryLine(o) {
      var i :| 0 <= i < |os| && EntryLines(os)[i] == l;
      assert os[i] in os;
    }
  }

  /** One section's turn. */
  lemma AppendOne(lines: seq<string>, known: set<string>, section: string, entries: seq<Override>)
    requires WellFormedSection(section) && EntriesFor(entries, section)
    requires MapOf(entries).Keys !! Values(lines, None).Keys
    ensures var r := AppendSection(lines, known, section, entries);
            && Values(r, None) == Values(lines, None) + (if Lost(lines, known, section) then map[] else MapOf(entries))
            && Headers(r) == Headers(lines) + (if section in known then {} else {section})
  {
    hide Classify, Values, Headers, HasHeader, InsertInto, NewSection, Trim, EntriesFor, MapOf;
    if section !in known {
      NewSectionReads(lines, section, entries);
    } else if HasHeader(lines, section) {
      InsertReads(lines, section, entries);
    } else {
      InsertDrops(lines, section, entries);
      assert Values(lines, None) + map[] == Values(lines, None);
    }
  }

  lemma EntriesOfFor(pending: seq<Override>, section: string)
    requires forall o | o in pending :: WellFormedOverride(o)
    ensures EntriesFor(EntriesOf(pending, section), section)
    ensures MapOf(EntriesOf(pending, section)) == InSections(MapOf(pending), {section})
  {
    hide WellFormedOverride;
    EntriesOfSection(pending, section);
  }

  function Names(order: seq<string>): set<string> {
    set s | s in order
  }

  ghost predicate Tidy(order: seq<string>) {
    && (forall s | s in order :: WellFormedSection(s))
    && (forall i, j | 0 <= i < j < |order| :: order[i] != order[j])
  }

  lemma TidyLast(order: seq<string>)
    requires order != [] && Tidy(order)
    ensures Tidy(order[..|order| - 1]) && WellFormedSection(order[|order| - 1])
    ensures order[|order| - 1] !in Names(order[..|order| - 1])
    ensures Names(order) == Names(order[..|order| - 1]) + {order[|order| - 1]}
  {
    hide WellFormedSection;
    assert order == order[..|order| - 1] + [order[|order| - 1]];
    assert order[|order| - 1] in order;
  }

  lemma NoNames()
    ensures Names([]) == {}
  {
  }

  lemma AppendLast(lines: seq<string>, known: set<string>, pending: seq<Override>, order: seq<string>)
    requires order != []
    ensures var p, s := order[..|order| - 1], order[|order| - 1];
            AppendAll(lines, known, pending, order) ==
            AppendSection(AppendAll(lines, known, pending, p), known, s, EntriesOf(pending, s))
    ensures AppendAll(lines, known, pending, []) == lines
  {
  }

  lemma WrittenLast(lines: seq<string>, known: set<string>, items: Items, sections: set<string>, s: string)
    ensures Written(lines, known, items, sections + {s}) ==
            Written(lines, known, items, sections)
            + (if Lost(lines, known, s) then map[] else InSections(items, {s}))
    ensures Written(lines, known, items, {}) == map[]
  {
    hide Lost;
  }

  lemma DisjointTurn(base: Items, lines: seq<string>, known: set<string>, items: Items, done: set<string>, s: string)
    requires items.Keys !! base.Keys && s !in done
    ensures InSections(items, {s}).Keys !! (base + Written(lines, known, items, done)).Keys
  {
    hide Lost;
  }

  /** Appending adds every pending override but those whose section has only padded headers. */
  lemma {:induction false} AppendAllReads(lines: seq<string>, known: set<string>, pending: seq<Override>,
                                          order: seq<string>)
    requires Tidy(order) && forall o | o in pending :: WellFormedOverride(o)
    requires MapOf(pending).Keys !! Values(lines, None).Keys
    requires forall s | s in known :: Trimmed(s)
    ensures var r, sections := AppendAll(lines, known, pending, order), Names(order);
            && Values(r, None) == Values(lines, None) + Written(lines, known, MapOf(pending), sections)
            && Headers(r) == Headers(lines) + (sections - known)
            && forall s | s in known :: HasHeader(r, s) <==> HasHeader(lines, s)
  {
    hide *;
    if order == [] {
      AppendNothing(lines, known, pending);
      WrittenLast(lines, known, MapOf(pending), {}, "");
      NoNames();
      assert Values(lines, None) + map[] == Values(lines, None);
      assert Headers(lines) + ({} - known) == Headers(lines);
      return;
    }
    var p, s := order[..|order| - 1], order[|order| - 1];
    var done := Names(p);
    TidyLast(order);
    AppendAllReads(lines, known, pending, p);
    AppendLast(lines, known, pending, order);
    var r := AppendAll(lines, known, pending, p);
    var items := MapOf(pending);
    EntriesOfFor(pending, s);
    WellFormedSectionTrimmed(s);
    DisjointTurn(Values(lines, None), lines, known, items, done, s);
    AppendOne(r, known, s, EntriesOf(pending, s));
    LostSame(lines, r, known, s);
    WrittenLast(lines, known, items, done, s);
    UpdateTwice(Values(lines, None), Written(lines, known, items, done),
                if Lost(lines, known, s) then map[] else InSections(items, {s}));
    forall other | other in known
      ensures HasHeader(AppendAll(lines, known, pending, order), other) <==> HasHeader(lines, other)
    {
      AppendKeepsHeader(r, known, s, EntriesOf(pending, s), other);
    }
  }

  lemma AppendNothing(lines: seq<string>, known: set<string>, pending: seq<Override>)
    ensures AppendAll(lines, known, pending, []) == lines
  {
  }

  lemma LostSame(a: seq<string>, b: seq<string>, known: set<string>, s: string)
    requires forall x | x in known :: HasHeader(b, x) <==> HasHeader(a, x)
    ensures Lost(a, known, s) <==> Lost(b, known, s)
  {
  }
}
