/** Merging an override set into a generated config: internal/domain/bepinex_merge.go. */
module Merge {
  import opened Text
  import opened Wrappers
  import opened Overrides
  import opened ConfigLines
  import opened ConfigFiles
  import opened OverrideText

  datatype MergeReport = MergeReport(
    applied: seq<Override>,
    noOp: seq<Override>,
    appended: seq<Override>,
    stale: seq<Override>)
  {
    predicate Changed() {
      |applied| > 0 || |appended| > 0 || |stale| > 0
    }
  }

  datatype Outcome = Applied | NoOp | Appended | Stale

  type Index = map<SettingKey, Setting>

  /** What the merge does with one override. */
  function OutcomeOf(index: Index, known: set<string>, o: Override): Outcome {
    if o.Key() !in index then (if o.section in known then Appended else Stale)
    else if Trim(index[o.Key()].value) == Trim(o.value) then NoOp
    else Applied
  }

  function Select(index: Index, known: set<string>, os: seq<Override>, outcome: Outcome): seq<Override> {
    if os == [] then []
    else
      Select(index, known, os[..|os| - 1], outcome) +
      if OutcomeOf(index, known, os[|os| - 1]) == outcome then [os[|os| - 1]] else []
  }

  /** The overrides whose key the file does not declare. */
  function Pending(index: Index, os: seq<Override>): seq<Override> {
    if os == [] then []
    else Pending(index, os[..|os| - 1]) + if os[|os| - 1].Key() in index then [] else [os[|os| - 1]]
  }

  ghost predicate InBounds(index: Index, n: nat) {
    forall k | k in index :: index[k].lineIndex < n
  }

  function Rewritten(s: Setting, value: string): string {
    s.name + s.separator + value
  }

  /** The lines after the rewriting loop. */
  function RewriteAll(index: Index, lines: seq<string>, os: seq<Override>): (r: seq<string>)
    requires InBounds(index, |lines|)
    ensures |r| == |lines|
  {
    if os == [] then lines
    else
      var r, o := RewriteAll(index, lines, os[..|os| - 1]), os[|os| - 1];
      if o.Key() in index && Trim(index[o.Key()].value) != Trim(o.value)
      then r[index[o.Key()].lineIndex := Rewritten(index[o.Key()], o.value)]
      else r
  }

  /** The sections of the pending overrides, in order of first appearance. */
  function OrderOf(os: seq<Override>): seq<string> {
    if os == [] then []
    else
      var order := OrderOf(os[..|os| - 1]);
      if os[|os| - 1].section in order then order else order + [os[|os| - 1].section]
  }

  function EntriesOf(os: seq<Override>, section: string): seq<Override> {
    if os == [] then []
    else EntriesOf(os[..|os| - 1], section) + if os[|os| - 1].section == section then [os[|os| - 1]] else []
  }

  /** The first line from i on that reads "[section]", or |lines|. */
  function FindHeader(lines: seq<string>, section: string, i: nat): (r: nat)
    requires i <= |lines|
    ensures i <= r <= |lines|
    ensures r < |lines| ==> Trim(lines[r]) == HeaderLine(section)
    ensures forall j | i <= j < r :: Trim(lines[j]) != HeaderLine(section)
    decreases |lines| - i
  {
    if i == |lines| || Trim(lines[i]) == HeaderLine(section) then i else FindHeader(lines, section, i + 1)
  }

  /** The first header line from i on, or |lines|. */
  function SectionEnd(lines: seq<string>, i: nat): (r: nat)
    requires i <= |lines|
    ensures i <= r <= |lines|
    ensures forall j | i <= j < r :: !IsHeader(Trim(lines[j]))
    decreases |lines| - i
  {
    if i == |lines| || IsHeader(Trim(lines[i])) then i else SectionEnd(lines, i + 1)
  }

  /** hi without the blank lines before it, not below lo. */
  function BackOverBlanks(lines: seq<string>, lo: nat, hi: nat): (r: nat)
    requires lo <= hi <= |lines|
    ensures lo <= r <= hi
  {
    if hi > lo && Trim(lines[hi - 1]) == "" then BackOverBlanks(lines, lo, hi - 1) else hi
  }

  /** Where insertIntoSection splices, given the header's line. */
  function SplicePoint(lines: seq<string>, start: nat): (r: nat)
    requires start < |lines|
    ensures start < r <= |lines|
  {
    BackOverBlanks(lines, start + 1, SectionEnd(lines, start + 1))
  }

  function InsertInto(lines: seq<string>, section: string, entries: seq<Override>): seq<string> {
    var start := FindHeader(lines, section, 0);
    if start == |lines| then lines
    else
      var end := SplicePoint(lines, start);
      lines[..end] + EntryLines(entries) + lines[end..]
  }

  /** A section the file does not have, at its end, after a blank line. */
  function NewSection(lines: seq<string>, section: string, entries: seq<Override>): seq<string> {
    (if lines != [] && Trim(lines[|lines| - 1]) != "" then lines + [""] else lines)
    + [HeaderLine(section)] + [""] + EntryLines(entries) + [""]
  }

  function AppendSection(lines: seq<string>, known: set<string>, section: string, entries: seq<Override>): seq<string> {
    if section in known then InsertInto(lines, section, entries) else NewSection(lines, section, entries)
  }

  /** The lines after appendOverrides has handled the given sections. */
  function AppendAll(lines: seq<string>, known: set<string>, pending: seq<Override>, order: seq<string>): seq<string> {
    if order == [] then lines
    else
      var s := order[|order| - 1];
      AppendSection(AppendAll(lines, known, pending, order[..|order| - 1]), known, s, EntriesOf(pending, s))
  }

  function MergedLines(f: ConfigFile, os: seq<Override>): seq<string>
    requires InBounds(Latest(Flat(f.sections)), |f.lines|)
  {
    var index, known := Latest(Flat(f.sections)), SectionNames(f.sections);
    var pending := Pending(index, os);
    AppendAll(RewriteAll(index, f.lines, os), known, pending, OrderOf(pending))
  }

  function ReportOf(f: ConfigFile, os: seq<Override>): MergeReport {
    if f.lines == [] && f.sections == [] then MergeReport([], [], [], os)
    else
      var index, known := Latest(Flat(f.sections)), SectionNames(f.sections);
      MergeReport(Select(index, known, os, Applied), Select(index, known, os, NoOp),
                  Select(index, known, os, Appended), Select(index, known, os, Stale))
  }

  /** The file Merge hands back. */
  ghost function MergedText(f: ConfigFile, items: Items): string
    requires InBounds(Latest(Flat(f.sections)), |f.lines|)
  {
    if f.lines == [] && f.sections == [] then Encoded(items)
    else Join(MergedLines(f, Listing(items)), "\n")
  }

  /** A file as ParseConfigFile builds it: the only way to build one. */
  ghost predicate FromParser(f: ConfigFile) {
    f == FileOf(f.name, f.lines) && FreeOf(f.lines, '\n')
  }

  lemma ParserFacts(f: ConfigFile)
    requires FromParser(f)
    ensures IsIndex(f.lines, Latest(Flat(f.sections))) && InBounds(Latest(Flat(f.sections)), |f.lines|)
    ensures ValuesOf(Latest(Flat(f.sections))) == Values(f.lines, None)
    ensures SectionNames(f.sections) == Headers(f.lines)
    ensures f.lines == [] ==> f.sections == []
  {
    hide KeyAt, Classify, Section, Values, Headers;
    LatestIsLast(f.lines);
    LatestValues(f.lines);
    ParsedSections(f.lines);
  }

  // ---- the methods -----------------------------------------------------------

  method InsertIntoSection(lines: seq<string>, section: string, entries: seq<Override>) returns (out: seq<string>)
    ensures out == InsertInto(lines, section, entries)
  {
    hide *;
    InsertIntoIs(lines, section, entries);
    var start := -1;
    for i := 0 to |lines|
      invariant start == -1
      invariant FindHeader(lines, section, 0) == FindHeader(lines, section, i)
    {
      FindHeaderStep(lines, section, i);
      var t := Trim(lines[i]);
      if t == HeaderLine(section) {
        start := i;
        break;
      }
    }
    FindHeaderEnd(lines, section);
    if start < 0 {
      return lines;
    }
    SplicePointIs(lines, start);
    var end := |lines|;
    var i := start + 1;
    while i < |lines|
      invariant start + 1 <= i <= |lines| && end == |lines|
      invariant SectionEnd(lines, start + 1) == SectionEnd(lines, i)
    {
      SectionEndStep(lines, i);
      var t := Trim(lines[i]);
      if IsHeader(t) {
        end := i;
        break;
      }
      i := i + 1;
    }
    SectionEndEnd(lines);
    while end > start + 1 && Trim(lines[end - 1]) == ""
      invariant start + 1 <= end <= |lines|
      invariant BackOverBlanks(lines, start + 1, end) == SplicePoint(lines, start)
      decreases end
    {
      BackOverBlanksStep(lines, start + 1, end);
      end := end - 1;
    }
    BackOverBlanksStep(lines, start + 1, end);
    var add := [];
    assert entries[..0] == [];
    for j := 0 to |entries|
      invariant add == EntryLines(entries[..j])
    {
      EntryLinesLast(entries, j);
      add := add + [EntryLine(entries[j])];
    }
    EntryLinesNone();
    assert entries[..|entries|] == entries;
    out := lines[..end] + add + lines[end..];
  }

  lemma EntryLinesNone()
    ensures EntryLines([]) == []
  {
  }

  lemma InsertIntoIs(lines: seq<string>, section: string, entries: seq<Override>)
    ensures var start := FindHeader(lines, section, 0);
            InsertInto(lines, section, entries) ==
            if start == |lines| then lines
            else lines[..SplicePoint(lines, start)] + EntryLines(entries) + lines[SplicePoint(lines, start)..]
  {
    hide SplicePoint, EntryLines, FindHeader;
  }

  lemma FindHeaderStep(lines: seq<string>, section: string, i: nat)
    requires i < |lines|
    ensures FindHeader(lines, section, i) ==
            if Trim(lines[i]) == HeaderLine(section) then i else FindHeader(lines, section, i + 1)
  {
    hide Trim, HeaderLine;
  }

  lemma FindHeaderEnd(lines: seq<string>, section: string)
    ensures FindHeader(lines, section, |lines|) == |lines|
  {
  }

  lemma SplicePointIs(lines: seq<string>, start: nat)
    requires start < |lines|
    ensures SplicePoint(lines, start) == BackOverBlanks(lines, start + 1, SectionEnd(lines, start + 1))
  {
    hide BackOverBlanks, SectionEnd;
  }

  /** WHERE ENTRIES GO. They follow the last line of their section that is not blank, and the blank lines
      before the next header stay behind them. */
  lemma InsertedBelow(lines: seq<string>, section: string, entries: seq<Override>, start: nat, at: nat, end: nat)
    requires start < at <= end <= |lines| && Trim(lines[start]) == HeaderLine(section)
    requires forall j | 0 <= j < start :: Trim(lines[j]) != HeaderLine(section)
    requires forall j | start < j < end :: !IsHeader(Trim(lines[j]))
    requires end < |lines| ==> IsHeader(Trim(lines[end]))
    requires forall j | at <= j < end :: Trim(lines[j]) == ""
    requires at > start + 1 ==> Trim(lines[at - 1]) != ""
    ensures InsertInto(lines, section, entries) == lines[..at] + EntryLines(entries) + lines[at..]
  {
    hide *;
    FirstHeaderAt(lines, section, start, 0);
    EndFound(lines, end, start + 1);
    BlanksBack(lines, start + 1, at, end);
    SplicePointIs(lines, start);
    InsertIntoIs(lines, section, entries);
  }

  lemma FirstHeaderAt(lines: seq<string>, section: string, start: nat, i: nat)
    requires i <= start < |lines| && Trim(lines[start]) == HeaderLine(section)
    requires forall j | i <= j < start :: Trim(lines[j]) != HeaderLine(section)
    ensures FindHeader(lines, section, i) == start
  {
    hide Trim, HeaderLine;
  }

  lemma EndFound(lines: seq<string>, end: nat, i: nat)
    requires i <= end <= |lines| && (end < |lines| ==> IsHeader(Trim(lines[end])))
    requires forall j | i <= j < end :: !IsHeader(Trim(lines[j]))
    ensures SectionEnd(lines, i) == end
    decreases end - i
  {
    hide Trim, IsHeader;
    if i < end {
      EndFound(lines, end, i + 1);
    }
  }

  lemma BlanksBack(lines: seq<string>, lo: nat, end: nat, hi: nat)
    requires lo <= end <= hi <= |lines| && (end > lo ==> Trim(lines[end - 1]) != "")
    requires forall j | end <= j < hi :: Trim(lines[j]) == ""
    ensures BackOverBlanks(lines, lo, hi) == end
  {
    hide Trim;
  }

  lemma SectionEndStep(lines: seq<string>, i: nat)
    requires i < |lines|
    ensures SectionEnd(lines, i) == if IsHeader(Trim(lines[i])) then i else SectionEnd(lines, i + 1)
  {
    hide Trim, IsHeader;
  }

  lemma SectionEndEnd(lines: seq<string>)
    ensures SectionEnd(lines, |lines|) == |lines|
  {
  }

  lemma BackOverBlanksStep(lines: seq<string>, lo: nat, hi: nat)
    requires lo <= hi <= |lines|
    ensures BackOverBlanks(lines, lo, hi) ==
            if hi > lo && Trim(lines[hi - 1]) == "" then BackOverBlanks(lines, lo, hi - 1) else hi
  {
    hide Trim;
  }

  method GroupBySection(pending: seq<Override>) returns (order: seq<string>, bySection: map<string, seq<Override>>)
    ensures order == OrderOf(pending)
    ensures bySection.Keys == set s | s in order
    ensures forall s | s in order :: bySection[s] == EntriesOf(pending, s)
  {
    order, bySection := [], map[];
    for i := 0 to |pending|
      invariant order == OrderOf(pending[..i])
      invariant forall s :: s in bySection <==> s in order
      invariant forall s | s in bySection :: bySection[s] == EntriesOf(pending[..i], s)
      invariant forall s | s !in bySection :: EntriesOf(pending[..i], s) == []
    {
      var o := pending[i];
      assert pending[..i + 1][..i] == pending[..i];
      if o.section !in bySection {
        order := order + [o.section];
        bySection := bySection[o.section := []];
      }
      bySection := bySection[o.section := bySection[o.section] + [o]];
    }
    assert pending[..|pending|] == pending;
  }

  method AppendOverrides(input: seq<string>, pending: seq<Override>, known: set<string>) returns (lines: seq<string>)
    ensures lines == AppendAll(input, known, pending, OrderOf(pending))
  {
    hide Trim, InsertInto, EntryLines, HeaderLine;
    var order, bySection := GroupBySection(pending);
    lines := input;
    for n := 0 to |order|
      invariant lines == AppendAll(input, known, pending, order[..n])
    {
      assert order[..n + 1][..n] == order[..n];
      var section := order[n];
      var entries := bySection[section];
      if section in known {
        lines := InsertIntoSection(lines, section, entries);
        continue;
      }
      if |lines| > 0 && Trim(lines[|lines| - 1]) != "" {
        lines := lines + [""];
      }
      lines := lines + [HeaderLine(section)] + [""];
      ghost var base := lines;
      for j := 0 to |entries|
        invariant lines == base + EntryLines(entries[..j])
      {
        EntryLinesLast(entries, j);
        lines := lines + [EntryLine(entries[j])];
      }
      assert entries[..|entries|] == entries;
      lines := lines + [""];
    }
    assert order[..|order|] == order;
  }

  lemma EntryLinesLast(entries: seq<Override>, j: nat)
    requires j < |entries|
    ensures EntryLines(entries[..j + 1]) == EntryLines(entries[..j]) + [EntryLine(entries[j])]
    ensures EntryLines([]) == []
  {
    assert entries[..j + 1][..j] == entries[..j];
  }

  /** The index loop: a later setting of a key replaces an earlier one. */
  method IndexSettings(sections: seq<ConfigSection>) returns (index: Index, known: set<string>)
    ensures index == Latest(Flat(sections)) && known == SectionNames(sections)
  {
    hide *;
    index, known := map[], {};
    NothingIndexed(sections);
    for i := 0 to |sections|
      invariant index == Latest(Flat(sections[..i])) && known == SectionNames(sections[..i])
    {
      var settings := sections[i].settings;
      SectionIndexed(sections, i);
      ghost var before := Flat(sections[..i]);
      for j := 0 to |settings|
        invariant index == Latest(before + settings[..j])
      {
        SettingIndexed(before, settings, j);
        index := index[settings[j].Key() := settings[j]];
      }
      known := known + {sections[i].name};
    }
  }

  lemma NothingIndexed(sections: seq<ConfigSection>)
    ensures Latest(Flat(sections[..0])) == map[] && SectionNames(sections[..0]) == {}
            && sections[..|sections|] == sections
  {
  }

  lemma SectionIndexed(sections: seq<ConfigSection>, i: nat)
    requires i < |sections|
    ensures Flat(sections[..i + 1]) == Flat(sections[..i]) + sections[i].settings
    ensures SectionNames(sections[..i + 1]) == SectionNames(sections[..i]) + {sections[i].name}
    ensures var settings := sections[i].settings;
            Flat(sections[..i]) + settings[..0] == Flat(sections[..i]) && settings[..|settings|] == settings
  {
    assert sections[..i + 1] == sections[..i] + [sections[i]];
    FlatAppend(sections[..i], sections[i]);
    hide Flat;
    assert sections[..i + 1][..i] == sections[..i];
  }

  lemma SettingIndexed(before: seq<Setting>, settings: seq<Setting>, j: nat)
    requires j < |settings|
    ensures Latest(before + settings[..j + 1]) == Latest(before + settings[..j])[settings[j].Key() := settings[j]]
  {
    assert (before + settings[..j + 1])[..|before| + j] == before + settings[..j];
    assert (before + settings[..j + 1])[|before| + j] == settings[j];
  }

  /** What one more override changes. */
  lemma OneMore(index: Index, known: set<string>, lines: seq<string>, os: seq<Override>, i: nat)
    requires InBounds(index, |lines|) && i < |os|
    ensures var o, before, outcome := os[i], RewriteAll(index, lines, os[..i]), OutcomeOf(index, known, os[i]);
            && RewriteAll(index, lines, os[..i + 1]) ==
               (if outcome == Applied then before[index[o.Key()].lineIndex := Rewritten(index[o.Key()], o.value)]
                else before)
            && Pending(index, os[..i + 1]) ==
               Pending(index, os[..i]) + (if outcome == Appended || outcome == Stale then [o] else [])
            && forall x :: Select(index, known, os[..i + 1], x) ==
                           Select(index, known, os[..i], x) + (if outcome == x then [o] else [])
  {
    hide Trim;
    assert os[..i + 1][..i] == os[..i];
  }

  /** What the loop has after some overrides: the lines, the pending ones and the report. */
  function Merging(index: Index, known: set<string>, lines: seq<string>, os: seq<Override>)
    : (seq<string>, seq<Override>, MergeReport)
    requires InBounds(index, |lines|)
  {
    (RewriteAll(index, lines, os), Pending(index, os),
     MergeReport(Select(index, known, os, Applied), Select(index, known, os, NoOp),
                 Select(index, known, os, Appended), Select(index, known, os, Stale)))
  }

  /** One turn of the loop. */
  lemma MergingStep(index: Index, known: set<string>, lines: seq<string>, os: seq<Override>, i: nat)
    requires InBounds(index, |lines|) && i < |os|
    ensures var o, (ls, pending, report) := os[i], Merging(index, known, lines, os[..i]);
            && (o.Key() in index ==> index[o.Key()].lineIndex < |ls|)
            && Merging(index, known, lines, os[..i + 1]) ==
               if o.Key() !in index then
                 (ls, pending + [o],
                  if o.section in known then report.(appended := report.appended + [o])
                  else report.(stale := report.stale + [o]))
               else
                 var s := index[o.Key()];
                 if Trim(s.value) == Trim(o.value) then (ls, pending, report.(noOp := report.noOp + [o]))
                 else (ls[s.lineIndex := s.name + s.separator + o.value], pending,
                       report.(applied := report.applied + [o]))
  {
    hide Trim, RewriteAll, Pending, Select;
    OneMore(index, known, lines, os, i);
    var o, ls := os[i], RewriteAll(index, lines, os[..i]);
    assert o.Key() in index ==> index[o.Key()].lineIndex < |ls|;
    assert forall a: seq<Override> :: a + [] == a;
    assert Select(index, known, os[..i + 1], Applied) ==
           Select(index, known, os[..i], Applied) + (if OutcomeOf(index, known, o) == Applied then [o] else []);
  }

  /** The text and the report, by what the loop leaves. */
  lemma MergingEnds(f: ConfigFile, items: Items)
    requires FromParser(f)
    ensures var index, os := Latest(Flat(f.sections)), Listing(items);
            && InBounds(index, |f.lines|)
            && if f.lines == [] && f.sections == [] then
                 MergedText(f, items) == Encoded(items) && ReportOf(f, os) == MergeReport([], [], [], os)
               else
                 var (ls, pending, report) := Merging(index, SectionNames(f.sections), f.lines, os);
                 && ReportOf(f, os) == report
                 && MergedText(f, items) ==
                    Join(AppendAll(ls, SectionNames(f.sections), pending, OrderOf(pending)), "\n")
  {
    ParserFacts(f);
    hide Trim, Flat, Latest, SectionNames, FromParser, Values, Headers, Listing, IsIndex, Join, AppendAll, InBounds,
         Encoded, RewriteAll, Select, Pending, OrderOf;
  }

  lemma NothingMerged(index: Index, known: set<string>, lines: seq<string>, os: seq<Override>)
    requires InBounds(index, |lines|)
    ensures Merging(index, known, lines, os[..0]) == (lines, [], MergeReport([], [], [], [])) && os[..|os|] == os
  {
    assert os[..0] == [];
  }

  lemma NothingAppended(lines: seq<string>, known: set<string>)
    ensures AppendAll(lines, known, [], OrderOf([])) == lines
  {
  }

  /** Merge: the generated file with the override set substituted into it. */
  method MergeFile(generated: ConfigFile, o: OverrideSet) returns (text: string, report: MergeReport)
    requires FromParser(generated)
    ensures InBounds(Latest(Flat(generated.sections)), |generated.lines|)
    ensures text == MergedText(generated, o.items)
    ensures report == ReportOf(generated, Listing(o.items))
  {
    hide *;
    MergingEnds(generated, o.items);
    report := MergeReport([], [], [], []);
    var all := o.All();
    if |generated.lines| == 0 && |generated.sections| == 0 {
      for i := 0 to |all|
        invariant report == MergeReport([], [], [], all[..i])
      {
        report := report.(stale := report.stale + [all[i]]);
      }
      text := o.Encode();
      return;
    }
    var lines := generated.lines;
    var index, knownSections := IndexSettings(generated.sections);
    var pending := [];
    NothingMerged(index, knownSections, lines, all);
    for i := 0 to |all|
      invariant (lines, pending, report) == Merging(index, knownSections, generated.lines, all[..i])
    {
      var ov := all[i];
      MergingStep(index, knownSections, generated.lines, all, i);
      if ov.Key() !in index {
        if ov.section in knownSections {
          report := report.(appended := report.appended + [ov]);
        } else {
          report := report.(stale := report.stale + [ov]);
        }
        pending := pending + [ov];
        continue;
      }
      var s := index[ov.Key()];
      if Trim(s.value) == Trim(ov.value) {
        report := report.(noOp := report.noOp + [ov]);
        continue;
      }
      lines := lines[s.lineIndex := s.name + s.separator + ov.value];
      report := report.(applied := report.applied + [ov]);
    }
    NothingAppended(lines, knownSections);
    if |pending| > 0 {
      lines := AppendOverrides(lines, pending, knownSections);
    }
    text := Join(lines, "\n");
  }
}
