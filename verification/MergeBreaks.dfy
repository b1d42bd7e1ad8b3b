/** Which merged texts a second merge changes: those in which a line of the generated file that ends
    in a carriage return is followed by a line break (internal/domain/bepinex.go, line 202, and
    internal/domain/bepinex_merge.go, lines 59-133). */
module MergeBreaks {
  import opened Text
  import opened Wrappers
  import opened Overrides
  import opened ConfigLines
  import opened ConfigFiles
  import opened OverrideText
  import opened Merge
  import opened MergeLaws
  import opened MergeTheorems
  import opened MergeAgain
  import MergeFrame

  /** The carriage returns a line ends in. */
  function Returns(l: string): nat {
    if l != "" && l[|l| - 1] == '\r' then Returns(l[..|l| - 1]) + 1 else 0
  }

  /** More of them than so many merges take away. */
  predicate EndsInCr(l: string, times: nat) {
    Returns(l) > times
  }

  predicate HasCr(ls: seq<string>, times: nat) {
    exists l | l in ls :: EndsInCr(l, times)
  }

  function Init(ls: seq<string>): seq<string> {
    if ls == [] then [] else ls[..|ls| - 1]
  }

  function Last(ls: seq<string>): string {
    if ls == [] then "" else ls[|ls| - 1]
  }

  // ---- the condition, on the generated file and the overrides ------------------

  /** Line i is the last one to set its key, and an override gives the key another value. */
  ghost predicate Rewrites(lines: seq<string>, items: Items, i: nat)
    requires i < |lines|
  {
    exists k :: k in items && k in Values(lines, None) && LastAt(lines, i, k) && Values(lines, None)[k] != items[k]
  }

  /** The header lines, trimmed, in order. */
  function HeaderTexts(lines: seq<string>): seq<string> {
    if lines == [] then []
    else
      var t := Trim(lines[|lines| - 1]);
      HeaderTexts(lines[..|lines| - 1]) + if IsHeader(t) then [t] else []
  }

  predicate OnlyLast(hs: seq<string>, h: string) {
    hs != [] && hs[|hs| - 1] == h && h !in hs[..|hs| - 1]
  }

  /** New entries of the section go below the last line: its first header is the last header there
      is, and the last line is not blank. */
  predicate EndsFile(lines: seq<string>, section: string) {
    Trim(Last(lines)) != "" && OnlyLast(HeaderTexts(lines), HeaderLine(section))
  }

  /** Nothing is added below the last line. */
  ghost predicate LastStays(lines: seq<string>, items: Items) {
    forall k | k in items && k !in Values(lines, None) :: k.section in Headers(lines) && !EndsFile(lines, k.section)
  }

  /** A line that ends in more than so many carriage returns is kept, and not as the last line. */
  ghost predicate KeepsCr(lines: seq<string>, items: Items, times: nat) {
    exists i :: 0 <= i < |lines| && EndsInCr(lines[i], times) && !Rewrites(lines, items, i)
                && (i < |lines| - 1 || !LastStays(lines, items))
  }

  // ---- line breaks of joined lines ---------------------------------------------

  lemma JoinedBreaks(r: seq<string>)
    requires r != [] && FreeOf(r, '\n')
    ensures NoCrlf(Join(r, "\n")) <==> !HasCr(Init(r), 0)
  {
    hide *;
    var text := Join(r, "\n");
    NormaliseJoin(r);
    NormaliseFixed(text);
    assert ['\n'] == "\n";
    SplitJoin(r, '\n');
    JoinSplit(Normalise(text), '\n');
    DropCrsSame(r);
  }

  lemma DropCrsSame(r: seq<string>)
    requires r != []
    ensures DropCrs(r) == r <==> !HasCr(Init(r), 0)
  {
    if DropCrs(r) == r {
      forall l | l in Init(r) ensures !EndsInCr(l, 0) {
        var i :| 0 <= i < |r| - 1 && r[i] == l;
        assert |DropCr(r[i])| == |r[i]|;
      }
    } else {
      var i :| 0 <= i < |r| && DropCrs(r)[i] != r[i];
      assert Init(r)[i] == r[i] && EndsInCr(r[i], 0);
      assert r[i] in Init(r);
    }
  }

  /** One normalisation takes one return from every line but the last. */
  lemma DropCrsFewer(r: seq<string>, times: nat)
    requires r != []
    ensures HasCr(Init(DropCrs(r)), times) <==> HasCr(Init(r), times + 1)
  {
    hide EndsInCr;
    var a, b := Init(DropCrs(r)), Init(r);
    assert |a| == |b|;
    forall i | 0 <= i < |a| ensures EndsInCr(a[i], times) <==> EndsInCr(b[i], times + 1) {
      OneFewer(b[i], times);
    }
    if HasCr(a, times) {
      var l :| l in a && EndsInCr(l, times);
      var i :| 0 <= i < |a| && a[i] == l;
      assert b[i] in b;
    }
    if HasCr(b, times + 1) {
      var l :| l in b && EndsInCr(l, times + 1);
      var i :| 0 <= i < |b| && b[i] == l;
      assert a[i] in a;
    }
  }

  lemma OneFewer(l: string, times: nat)
    ensures EndsInCr(DropCr(l), times) <==> EndsInCr(l, times + 1)
  {
  }

  function Normalised(s: string, times: nat): string {
    if times == 0 then s else Normalise(Normalised(s, times - 1))
  }

  /** Normalising again and again takes the returns before the line breaks one by one. */
  lemma {:induction false} NormalisedBreaks(r: seq<string>, times: nat)
    requires r != [] && FreeOf(r, '\n')
    ensures NoCrlf(Normalised(Join(r, "\n"), times)) <==> !HasCr(Init(r), times)
    decreases times
  {
    hide *;
    if times == 0 {
      NormalisedNone(Join(r, "\n"));
      JoinedBreaks(r);
    } else {
      var s := DropCrs(r);
      NormaliseJoin(r);
      JoinSplit(Normalise(Join(r, "\n")), '\n');
      assert ['\n'] == "\n";
      DropCrsFree(r);
      NormalisedFirst(Join(r, "\n"), times - 1);
      NormalisedBreaks(s, times - 1);
      DropCrsFewer(r, times - 1);
    }
  }

  lemma NormalisedNone(s: string)
    ensures Normalised(s, 0) == s
  {
  }

  lemma DropCrsFree(r: seq<string>)
    requires FreeOf(r, '\n')
    ensures FreeOf(DropCrs(r), '\n')
  {
    forall l | l in DropCrs(r) ensures '\n' !in l {
      var i :| 0 <= i < |r| && DropCrs(r)[i] == l;
      assert r[i] in r;
    }
  }

  lemma {:induction false} NormalisedFirst(s: string, times: nat)
    ensures Normalised(s, times + 1) == Normalised(Normalise(s), times)
  {
    hide Normalise;
    if times > 0 {
      NormalisedFirst(s, times - 1);
    }
  }

  lemma HasCrAppend(a: seq<string>, b: seq<string>, times: nat)
    ensures HasCr(a + b, times) <==> HasCr(a, times) || HasCr(b, times)
  {
    forall l | l in a || l in b ensures l in a + b {
    }
  }

  lemma HasCrParts(ls: seq<string>, times: nat)
    ensures HasCr(ls, times) <==> HasCr(Init(ls), times) || EndsInCr(Last(ls), times)
  {
    if ls != [] {
      HasCrAppend(Init(ls), [Last(ls)], times);
      assert ls == Init(ls) + [Last(ls)];
      assert Last(ls) in [Last(ls)];
    }
  }

  lemma InitAppend(a: seq<string>, b: seq<string>)
    requires b != []
    ensures Init(a + b) == a + Init(b) && Last(a + b) == Last(b)
  {
  }

  // ---- one section appended ----------------------------------------------------

  lemma EntryEnds(o: Override, times: nat)
    requires WellFormedOverride(o)
    ensures !EndsInCr(EntryLine(o), times) && EntryLine(o) != "" && !IsHeader(Trim(EntryLine(o)))
            && Trim(EntryLine(o)) != ""
  {
    hide WellFormedKey, Trim, SplitEntry;
    EntryLineReads(o);
    var l := EntryLine(o);
    assert l == o.name + " = " + o.value;
    if o.value != "" {
      assert l[|l| - 1] == o.value[|o.value| - 1];
    } else {
      assert l[|l| - 1] == ' ';
    }
  }

  lemma EntryLinesEnd(os: seq<Override>, times: nat)
    requires forall o | o in os :: WellFormedOverride(o)
    ensures !HasCr(EntryLines(os), times) && HeaderTexts(EntryLines(os)) == []
    ensures os != [] ==> EntryLines(os) != [] && !EndsInCr(Last(EntryLines(os)), times)
  {
    if os != [] {
      hide WellFormedOverride, EntryLine, Trim, IsHeader, EndsInCr;
      var p, o := os[..|os| - 1], os[|os| - 1];
      EntryLinesEnd(p, times);
      EntryEnds(o, times);
      HasCrAppend(EntryLines(p), [EntryLine(o)], times);
      assert EntryLines(os)[..|os| - 1] == EntryLines(p);
    }
  }

  lemma {:induction false} HeaderTextsAppend(a: seq<string>, b: seq<string>)
    ensures HeaderTexts(a + b) == HeaderTexts(a) + HeaderTexts(b)
  {
    hide Trim, IsHeader;
    if b == [] {
      assert a + b == a;
    } else {
      assert (a + b)[..|a + b| - 1] == a + b[..|b| - 1];
      HeaderTextsAppend(a, b[..|b| - 1]);
    }
  }

  lemma {:induction false} NoHeaderTexts(lines: seq<string>)
    ensures HeaderTexts(lines) == [] <==> forall l | l in lines :: !IsHeader(Trim(l))
  {
    hide Trim, IsHeader;
    if lines != [] {
      NoHeaderTexts(lines[..|lines| - 1]);
      assert lines == lines[..|lines| - 1] + [lines[|lines| - 1]];
    }
  }

  lemma {:induction false} HeaderTextsHas(lines: seq<string>, h: string)
    requires IsHeader(h)
    ensures h in HeaderTexts(lines) <==> exists l | l in lines :: Trim(l) == h
  {
    hide Trim, IsHeader;
    if lines != [] {
      HeaderTextsHas(lines[..|lines| - 1], h);
      assert lines == lines[..|lines| - 1] + [lines[|lines| - 1]];
    }
  }

  /** Where new entries go, by the headers and the last line. */
  lemma SpliceAtEnd(lines: seq<string>, section: string)
    requires FindHeader(lines, section, 0) < |lines|
    ensures SplicePoint(lines, FindHeader(lines, section, 0)) == |lines| <==>
            OnlyLast(HeaderTexts(lines), HeaderLine(section))
            && (FindHeader(lines, section, 0) == |lines| - 1 || Trim(Last(lines)) != "")
  {
    hide Trim, OnlyLast, HeaderTexts, SectionEnd, BackOverBlanks, FindHeader, IsHeader;
    var h := HeaderLine(section);
    var start := FindHeader(lines, section, 0);
    var a, b := lines[..start], lines[start + 1..];
    assert lines == a + [lines[start]] + b;
    OneHeaderText(lines[start], section);
    HeaderTextsAppend(a + [lines[start]], b);
    HeaderTextsAppend(a, [lines[start]]);
    HeaderTextsHas(a, h);
    NoHeaderTexts(b);
    TailMembers(lines, start + 1);
    SectionEndAtEnd(lines, start + 1);
    BackStays(lines, start + 1);
    OnlyLastMeans(HeaderTexts(a), h, HeaderTexts(b));
  }

  lemma OneHeaderText(line: string, section: string)
    requires Trim(line) == HeaderLine(section)
    ensures HeaderTexts([line]) == [HeaderLine(section)] && IsHeader(HeaderLine(section))
  {
    hide Trim;
    assert [line][..0] == [];
  }

  lemma TailMembers(lines: seq<string>, i: nat)
    requires i <= |lines|
    ensures (forall l | l in lines[i..] :: !IsHeader(Trim(l))) <==>
            forall j | i <= j < |lines| :: !IsHeader(Trim(lines[j]))
  {
    hide Trim, IsHeader;
    var b := lines[i..];
    forall j | i <= j < |lines| ensures lines[j] in b {
      assert b[j - i] == lines[j];
    }
  }

  lemma OnlyLastMeans(a: seq<string>, h: string, b: seq<string>)
    requires h !in a
    ensures OnlyLast(a + [h] + b, h) <==> b == []
  {
    if b == [] {
      assert (a + [h] + b)[..|a|] == a;
    } else {
      assert (a + [h] + b)[..|a + [h] + b| - 1][|a|] == h;
    }
  }

  lemma SectionEndAtEnd(lines: seq<string>, i: nat)
    requires i <= |lines|
    ensures SectionEnd(lines, i) == |lines| <==> forall j | i <= j < |lines| :: !IsHeader(Trim(lines[j]))
    decreases |lines| - i
  {
    hide Trim, IsHeader;
    if i < |lines| && !IsHeader(Trim(lines[i])) {
      SectionEndAtEnd(lines, i + 1);
    }
  }

  lemma BackStays(lines: seq<string>, lo: nat)
    requires lo <= |lines|
    ensures BackOverBlanks(lines, lo, SectionEnd(lines, lo)) == |lines| <==>
            SectionEnd(lines, lo) == |lines| && (lo == |lines| || Trim(Last(lines)) != "")
  {
    hide Trim, SectionEnd;
  }

  /** Appending one section leaves the last line the last, or puts lines below it that do not end in
      a carriage return. */
  lemma AppendSectionCr(lines: seq<string>, known: set<string>, section: string, entries: seq<Override>, times: nat)
    requires lines != [] && entries != [] && EntriesFor(entries, section) && WellFormedSection(section)
    ensures var r := AppendSection(lines, known, section, entries);
            && r != []
            && if section in known && !EndsFile(lines, section) then
                 Last(r) == Last(lines) && (HasCr(Init(r), times) <==> HasCr(Init(lines), times))
                   && HeaderTexts(r) == HeaderTexts(lines)
               else !EndsInCr(Last(r), times) && (HasCr(Init(r), times) <==> HasCr(lines, times))
  {
    hide *;
    EntriesForParts(entries, section);
    EntryLinesEnd(entries, times);
    var add := EntryLines(entries);
    AppendSectionCases(lines, known, section, entries);
    if section !in known {
      NewSectionCr(lines, section, entries, times);
    } else {
      InsertShape(lines, section, entries);
      var start := FindHeader(lines, section, 0);
      EndsFileMeans(lines, section);
      if start < |lines| {
        var end := SplicePoint(lines, start);
        SplicedCr(lines, end, add, times);
      }
    }
  }

  lemma AppendSectionCases(lines: seq<string>, known: set<string>, section: string, entries: seq<Override>)
    ensures AppendSection(lines, known, section, entries) ==
            if section in known then InsertInto(lines, section, entries) else NewSection(lines, section, entries)
  {
  }

  lemma EndsFileMeans(lines: seq<string>, section: string)
    requires lines != []
    ensures FindHeader(lines, section, 0) <= |lines|
    ensures var start := FindHeader(lines, section, 0);
            EndsFile(lines, section) <==> start < |lines| && SplicePoint(lines, start) == |lines|
    ensures FindHeader(lines, section, 0) < |lines| ==> SplicePoint(lines, FindHeader(lines, section, 0)) <= |lines|
  {
    hide Trim, SplicePoint, OnlyLast, HeaderTexts;
    var start := FindHeader(lines, section, 0);
    var h := HeaderLine(section);
    if start < |lines| {
      SpliceAtEnd(lines, section);
      assert start == |lines| - 1 ==> Trim(Last(lines)) == h;
    } else {
      assert IsHeader(h);
      HeaderTextsHas(lines, h);
      OnlyLastIn(HeaderTexts(lines), h);
    }
  }

  lemma OnlyLastIn(hs: seq<string>, h: string)
    ensures OnlyLast(hs, h) ==> h in hs
  {
  }

  lemma SplicedCr(lines: seq<string>, end: nat, add: seq<string>, times: nat)
    requires lines != [] && end <= |lines| && add != [] && !HasCr(add, times) && !EndsInCr(Last(add), times)
             && HeaderTexts(add) == []
    ensures var r := lines[..end] + add + lines[end..];
            && r != []
            && (end < |lines| ==> Last(r) == Last(lines) && (HasCr(Init(r), times) <==> HasCr(Init(lines), times))
                                  && HeaderTexts(r) == HeaderTexts(lines))
            && (end == |lines| ==> !EndsInCr(Last(r), times) && (HasCr(Init(r), times) <==> HasCr(lines, times)))
  {
    hide EndsInCr, HasCr, HeaderTexts;
    var a, b := lines[..end], lines[end..];
    assert lines == a + b;
    if end < |lines| {
      InitAppend(a + add, b);
      InitAppend(a, b);
      HasCrAppend(a + add, Init(b), times);
      HasCrAppend(a, add, times);
      HasCrAppend(a, Init(b), times);
      HeaderTextsAppend(a + add, b);
      HeaderTextsAppend(a, add);
      HeaderTextsAppend(a, b);
    } else {
      assert a + add + b == lines + add;
      InitAppend(lines, add);
      HasCrAppend(lines, Init(add), times);
      HasCrParts(add, times);
    }
  }

  lemma NewSectionCr(lines: seq<string>, section: string, entries: seq<Override>, times: nat)
    requires entries != [] && !HasCr(EntryLines(entries), times)
    ensures var r := NewSection(lines, section, entries);
            r != [] && !EndsInCr(Last(r), times) && (HasCr(Init(r), times) <==> HasCr(lines, times))
  {
    hide HasCr;
    NewSectionShape(lines, section, entries);
    var base := if lines != [] && Trim(lines[|lines| - 1]) != "" then lines + [""] else lines;
    var b, c, d := base + [HeaderLine(section)], base + [HeaderLine(section)] + [""],
                   base + [HeaderLine(section)] + [""] + EntryLines(entries);
    hide NewSection, EntryLines, Trim;
    HasCrAppend(lines, [""], times);
    HasCrAppend(base, [HeaderLine(section)], times);
    HasCrAppend(b, [""], times);
    HasCrAppend(c, EntryLines(entries), times);
    InitAppend(d, [""]);
    PlainLines(section, times);
    assert d + Init([""]) == d;
  }

  lemma PlainLines(section: string, times: nat)
    ensures !HasCr([""], times) && !HasCr([HeaderLine(section)], times) && !EndsInCr("", times) && Last([""]) == ""
  {
  }

  // ---- all sections appended -----------------------------------------------------

  predicate AllStay(lines: seq<string>, known: set<string>, order: seq<string>) {
    forall s | s in order :: s in known && !EndsFile(lines, s)
  }

  lemma {:induction false} AppendAllCr(lines: seq<string>, known: set<string>, pending: seq<Override>,
                                       order: seq<string>, times: nat)
    requires lines != [] && Tidy(order) && forall o | o in pending :: WellFormedOverride(o)
    requires forall s | s in order :: EntriesOf(pending, s) != []
    ensures var r := AppendAll(lines, known, pending, order);
            && r != []
            && if AllStay(lines, known, order) then
                 Last(r) == Last(lines) && (HasCr(Init(r), times) <==> HasCr(Init(lines), times))
                   && HeaderTexts(r) == HeaderTexts(lines)
               else !EndsInCr(Last(r), times) && (HasCr(Init(r), times) <==> HasCr(lines, times))
  {
    hide *;
    if order == [] {
      AppendNothing(lines, known, pending);
      NothingMoves(lines, known);
      return;
    }
    var p, s := order[..|order| - 1], order[|order| - 1];
    TidyLast(order);
    forall x | x in p ensures EntriesOf(pending, x) != [] {
      assert x in order;
    }
    AppendAllCr(lines, known, pending, p, times);
    AppendLast(lines, known, pending, order);
    assert s in order;
    EntriesOfFor(pending, s);
    var r := AppendAll(lines, known, pending, p);
    AppendSectionCr(r, known, s, EntriesOf(pending, s), times);
    StayLast(lines, known, order);
    HasCrParts(r, times);
    HasCrParts(lines, times);
    if AllStay(lines, known, p) {
      EndsFileSame(r, lines, s);
    }
  }

  lemma NothingMoves(lines: seq<string>, known: set<string>)
    ensures AllStay(lines, known, [])
  {
  }

  lemma StayLast(lines: seq<string>, known: set<string>, order: seq<string>)
    requires order != []
    ensures var p, s := order[..|order| - 1], order[|order| - 1];
            AllStay(lines, known, order) <==> AllStay(lines, known, p) && s in known && !EndsFile(lines, s)
  {
    hide EndsFile;
    assert order == order[..|order| - 1] + [order[|order| - 1]];
  }

  lemma EndsFileSame(a: seq<string>, b: seq<string>, section: string)
    requires Last(a) == Last(b) && HeaderTexts(a) == HeaderTexts(b)
    ensures EndsFile(a, section) <==> EndsFile(b, section)
  {
    hide HeaderTexts, Last, Trim;
  }

  // ---- rewritten lines -----------------------------------------------------------

  lemma {:induction false} RewrittenAt(index: Index, lines: seq<string>, os: seq<Override>,
                                       i: nat) returns (o: Override)
    requires InBounds(index, |lines|) && i < |lines|
    requires exists o :: o in os && MergeFrame.RewritesLine(index, o, i)
    ensures o in os && MergeFrame.RewritesLine(index, o, i)
    ensures RewriteAll(index, lines, os)[i] == Rewritten(index[o.Key()], o.value)
  {
    hide Trim, Rewritten;
    var p, last := os[..|os| - 1], os[|os| - 1];
    assert os == p + [last];
    if MergeFrame.RewritesLine(index, last, i) {
      o := last;
    } else {
      o := RewrittenAt(index, lines, p, i);
    }
  }

  lemma RewrittenEnds(lines: seq<string>, index: Index, o: Override, times: nat)
    requires IsIndex(lines, index) && o.Key() in index && FreeOf(lines, '\n') && WellFormedOverride(o)
    ensures !EndsInCr(Rewritten(index[o.Key()], o.value), times)
  {
    hide Classify, KeyAt, IsIndex, WellFormedKey;
    IndexEntryFacts(lines, index, o.Key());
    var s := index[o.Key()];
    assert lines[s.lineIndex] in lines;
    EntryYields(lines[s.lineIndex]);
    SeparatorEnds(s.separator);
    var l := Rewritten(s, o.value);
    if o.value != "" {
      assert l[|l| - 1] == o.value[|o.value| - 1];
    } else {
      assert l[|l| - 1] == s.separator[|s.separator| - 1];
    }
  }

  lemma SeparatorEnds(sep: string)
    requires IsSeparator(sep)
    ensures sep != "" && sep[|sep| - 1] != '\r'
  {
    var i :| 0 <= i < |sep| && sep[i] == '=' && AllBlank(sep[..i]) && AllBlank(sep[i + 1..]);
    if i < |sep| - 1 {
      assert sep[i + 1..][|sep| - 2 - i] == sep[|sep| - 1];
    }
  }

  /** The index and the lines name the same rewritten line. */
  lemma RewritesMeans(lines: seq<string>, index: Index, items: Items, i: nat)
    requires IsIndex(lines, index) && InBounds(index, |lines|) && FreeOf(lines, '\n') && i < |lines|
    requires ValuesOf(index) == Values(lines, None) && WellFormed(items)
    ensures Rewrites(lines, items, i) <==> exists o :: o in Listing(items) && MergeFrame.RewritesLine(index, o, i)
  {
    hide *;
    if Rewrites(lines, items, i) {
      var k := RewritesKey(lines, items, i);
      var o := Override(k.section, k.name, items[k]);
      ListedAt(items, k, o);
      RewritesOne(lines, index, items, i, o);
    }
    if exists o :: o in Listing(items) && MergeFrame.RewritesLine(index, o, i) {
      var o :| o in Listing(items) && MergeFrame.RewritesLine(index, o, i);
      ListedHas(items, o);
      RewritesOne(lines, index, items, i, o);
      RewritesBy(lines, items, i, o.Key());
    }
  }

  lemma ListedAt(items: Items, k: SettingKey, o: Override)
    requires k in items && o == Override(k.section, k.name, items[k])
    ensures o.Key() == k && o in Listing(items)
  {
    hide Listing;
    ListingHas(items);
  }

  lemma ListedHas(items: Items, o: Override)
    requires o in Listing(items)
    ensures o.Key() in items && items[o.Key()] == o.value
  {
    hide Listing;
    ListingHas(items);
  }

  lemma RewritesOne(lines: seq<string>, index: Index, items: Items, i: nat, o: Override)
    requires IsIndex(lines, index) && InBounds(index, |lines|) && FreeOf(lines, '\n') && i < |lines|
    requires ValuesOf(index) == Values(lines, None) && WellFormed(items)
    requires o.Key() in items && items[o.Key()] == o.value
    ensures MergeFrame.RewritesLine(index, o, i) <==>
            o.Key() in Values(lines, None) && LastAt(lines, i, o.Key()) && Values(lines, None)[o.Key()] != o.value
  {
    hide *;
    var k := o.Key();
    RewritesLineMeans(index, o, i);
    IndexValue(index, Values(lines, None), k);
    if k in index {
      IndexTrimmed(lines, index);
      ValueTrimmed(items, k);
      TrimOfTrimmed(items[k]);
      TrimOfTrimmed(index[k].value);
      IndexEntryFacts(lines, index, k);
      LastAtOnce(lines, i, index[k].lineIndex, k);
    }
  }

  lemma IndexValue(index: Index, values: Items, k: SettingKey)
    requires ValuesOf(index) == values
    ensures k in index <==> k in values
    ensures k in index ==> values[k] == index[k].value
  {
  }

  lemma LastAtOnce(lines: seq<string>, i: nat, j: nat, k: SettingKey)
    requires LastAt(lines, j, k)
    ensures LastAt(lines, i, k) <==> i == j
  {
    hide KeyAt;
  }

  lemma RewritesKey(lines: seq<string>, items: Items, i: nat) returns (k: SettingKey)
    requires i < |lines| && Rewrites(lines, items, i)
    ensures k in items && k in Values(lines, None) && LastAt(lines, i, k) && Values(lines, None)[k] != items[k]
  {
    hide LastAt, Values;
    k :| k in items && k in Values(lines, None) && LastAt(lines, i, k) && Values(lines, None)[k] != items[k];
  }

  lemma RewritesBy(lines: seq<string>, items: Items, i: nat, k: SettingKey)
    requires i < |lines|
    requires k in items && k in Values(lines, None) && LastAt(lines, i, k) && Values(lines, None)[k] != items[k]
    ensures Rewrites(lines, items, i)
  {
    hide LastAt, Values;
  }

  lemma RewritesLineMeans(index: Index, o: Override, i: nat)
    ensures MergeFrame.RewritesLine(index, o, i) <==>
            o.Key() in index && index[o.Key()].lineIndex == i && Trim(index[o.Key()].value) != Trim(o.value)
  {
    hide Trim;
  }

  /** After the rewriting loop a line ends in a carriage return just when it did and was not rewritten. */
  lemma RewriteCr(lines: seq<string>, index: Index, items: Items, i: nat, times: nat)
    requires IsIndex(lines, index) && InBounds(index, |lines|) && FreeOf(lines, '\n') && i < |lines|
    requires ValuesOf(index) == Values(lines, None) && WellFormed(items)
    ensures EndsInCr(RewriteAll(index, lines, Listing(items))[i], times) <==>
            EndsInCr(lines[i], times) && !Rewrites(lines, items, i)
  {
    hide *;
    var os := Listing(items);
    RewritesMeans(lines, index, items, i);
    ListingWellFormed(items);
    MergeFrame.RewriteAllFrame(index, lines, os, i);
    if exists o :: o in os && MergeFrame.RewritesLine(index, o, i) {
      var o := RewrittenAt(index, lines, os, i);
      RewritesLineMeans(index, o, i);
      RewrittenEnds(lines, index, o, times);
    }
  }

  lemma {:induction false} ShapeTexts(a: seq<string>, b: seq<string>)
    requires SameShape(a, b)
    ensures HeaderTexts(a) == HeaderTexts(b) && (Trim(Last(a)) == "" <==> Trim(Last(b)) == "")
  {
    if a != [] {
      hide Trim, Classify, IsHeader;
      var n := |a| - 1;
      assert SameShape(a[..n], b[..n]);
      ShapeTexts(a[..n], b[..n]);
      assert Alike(a[n], b[n]);
      EntryIsPlain(a[n]);
      EntryIsPlain(b[n]);
    }
  }

  lemma EntryIsPlain(l: string)
    ensures Classify(l).Entry? ==> !IsHeader(Trim(l)) && Trim(l) != ""
  {
    hide Trim, SplitEntry;
  }

  lemma EndsFileShape(a: seq<string>, b: seq<string>, section: string)
    requires SameShape(a, b)
    ensures EndsFile(a, section) <==> EndsFile(b, section)
  {
    hide SameShape, HeaderTexts, Trim, Last;
    ShapeTexts(a, b);
  }

  // ---- the theorems --------------------------------------------------------------

  lemma PendingLast(lines: seq<string>, index: Index, items: Items)
    requires ValuesOf(index) == Values(lines, None) && WellFormed(items)
    ensures var order := OrderOf(Pending(index, Listing(items)));
            && (forall s | s in order :: EntriesOf(Pending(index, Listing(items)), s) != [])
            && (AllStay(lines, Headers(lines), order) <==> LastStays(lines, items))
  {
    hide *;
    var os := Listing(items);
    var pending := Pending(index, os);
    var order := OrderOf(pending);
    OrderOfSections(pending);
    forall s | s in order ensures EntriesOf(pending, s) != [] {
      var o :| o in pending && o.section == s;
      EntriesOfSome(pending, o);
    }
    if LastStays(lines, items) {
      forall s | s in order ensures s in Headers(lines) && !EndsFile(lines, s) {
        var o :| o in pending && o.section == s;
        PendingKey(index, os, o);
        ListedHas(items, o);
        IndexValue(index, Values(lines, None), o.Key());
        KeyParts(o);
        LastStaysAt(lines, items, o.Key());
      }
      AllStayBy(lines, Headers(lines), order);
    }
    if AllStay(lines, Headers(lines), order) {
      forall k | k in items && k !in Values(lines, None)
        ensures k.section in Headers(lines) && !EndsFile(lines, k.section)
      {
        var o := Override(k.section, k.name, items[k]);
        ListedAt(items, k, o);
        IndexValue(index, Values(lines, None), k);
        PendingHas(index, os, o);
        assert o.section == k.section;
        AllStayAt(lines, Headers(lines), order, k.section);
      }
      LastStaysBy(lines, items);
    }
  }

  lemma LastStaysAt(lines: seq<string>, items: Items, k: SettingKey)
    requires LastStays(lines, items) && k in items && k !in Values(lines, None)
    ensures k.section in Headers(lines) && !EndsFile(lines, k.section)
  {
    hide Values, Headers, EndsFile;
  }

  lemma LastStaysBy(lines: seq<string>, items: Items)
    requires forall k | k in items && k !in Values(lines, None) ::
               k.section in Headers(lines) && !EndsFile(lines, k.section)
    ensures LastStays(lines, items)
  {
    hide Values, Headers, EndsFile;
  }

  lemma AllStayAt(lines: seq<string>, known: set<string>, order: seq<string>, s: string)
    requires AllStay(lines, known, order) && s in order
    ensures s in known && !EndsFile(lines, s)
  {
    hide EndsFile;
  }

  lemma AllStayBy(lines: seq<string>, known: set<string>, order: seq<string>)
    requires forall s | s in order :: s in known && !EndsFile(lines, s)
    ensures AllStay(lines, known, order)
  {
    hide EndsFile;
  }

  lemma {:induction false} PendingHas(index: Index, os: seq<Override>, o: Override)
    requires o in os && o.Key() !in index
    ensures o in Pending(index, os)
  {
    if o != os[|os| - 1] {
      PendingHas(index, os[..|os| - 1], o);
    }
  }

  lemma {:induction false} EntriesOfSome(os: seq<Override>, o: Override)
    requires o in os
    ensures EntriesOf(os, o.section) != []
  {
    if o != os[|os| - 1] {
      EntriesOfSome(os[..|os| - 1], o);
    }
  }

  /** What is kept of the rewritten lines, by what is kept of the generated ones. */
  lemma KeepsCrMeans(lines: seq<string>, a: seq<string>, items: Items, times: nat)
    requires lines != [] && |a| == |lines|
    requires forall i | 0 <= i < |a| ::
               EndsInCr(a[i], times) <==> EndsInCr(lines[i], times) && !Rewrites(lines, items, i)
    ensures KeepsCr(lines, items, times) <==> if LastStays(lines, items) then HasCr(Init(a), times) else HasCr(a, times)
  {
    hide EndsInCr, Rewrites, LastStays;
    if KeepsCr(lines, items, times) {
      var i :| 0 <= i < |lines| && EndsInCr(lines[i], times) && !Rewrites(lines, items, i)
        && (i < |lines| - 1 || !LastStays(lines, items));
      assert a[i] in a;
      assert i < |lines| - 1 ==> Init(a)[i] == a[i] && a[i] in Init(a);
    }
    if LastStays(lines, items) && HasCr(Init(a), times) {
      var l :| l in Init(a) && EndsInCr(l, times);
      var i :| 0 <= i < |a| - 1 && a[i] == l;
      assert EndsInCr(lines[i], times);
    }
    if !LastStays(lines, items) && HasCr(a, times) {
      var l :| l in a && EndsInCr(l, times);
      var i :| 0 <= i < |a| && a[i] == l;
      assert EndsInCr(lines[i], times);
    }
  }

  /** WHICH MERGED TEXTS HOLD A "\r\n", after normalising so many times, by the generated file and the
      overrides: those where a line that ends in more carriage returns is neither rewritten nor the last
      line of the merged text. */
  lemma MergedBreaks(body: string, items: Items, times: nat)
    requires WellFormed(items)
    ensures NoCrlf(Normalised(Merged(body, items), times)) <==> !KeepsCr(FileLines(body), items, times)
  {
    MergedIs(body, items);
    hide *;
    var lines := FileLines(body);
    if lines == [] {
      EncodedReads(items);
      NormaliseFixed(Encoded(items));
      NormalisedStays(Encoded(items), times);
      NoLinesKeepNothing(items, times);
    } else {
      LinesBreaks(body, items, times);
    }
  }

  lemma {:induction false} NormalisedStays(s: string, times: nat)
    requires NoCrlf(s)
    ensures Normalised(s, times) == s
  {
    if times > 0 {
      NormaliseFixed(s);
      hide Normalise, NoCrlf;
      NormalisedStays(s, times - 1);
    }
  }

  lemma NoLinesKeepNothing(items: Items, times: nat)
    ensures !KeepsCr([], items, times)
  {
  }

  lemma LinesBreaks(body: string, items: Items, times: nat)
    requires WellFormed(items) && FileLines(body) != []
    ensures NoCrlf(Normalised(Merged(body, items), times)) <==> !KeepsCr(FileLines(body), items, times)
  {
    MergedIs(body, items);
    var f := FileOf("", FileLines(body));
    var lines, index, os := f.lines, Latest(Flat(f.sections)), Listing(items);
    var a, pending := RewriteAll(index, lines, os), Pending(index, os);
    var known, order := SectionNames(f.sections), OrderOf(pending);
    var r := AppendAll(a, known, pending, order);
    assert r == MergedLines(f, os);
    hide *;
    ParserFacts(f);
    FreeOfParser(f);
    ListingWellFormed(items);
    ListingDistinct(items);
    RewriteAllReads(index, lines, os);
    SameShapeLength(a, lines);
    forall i | 0 <= i < |a| ensures EndsInCr(a[i], times) <==> EndsInCr(lines[i], times) && !Rewrites(lines, items, i) {
      RewriteCr(lines, index, items, i, times);
    }
    KeepsCrMeans(lines, a, items, times);
    PendingIs(index, os);
    OrderIsTidy(pending);
    PendingLast(lines, index, items);
    AllStayShape(a, lines, known, order);
    AppendAllCr(a, known, pending, order, times);
    MergedLinesRead(f, items);
    NormalisedBreaks(r, times);
  }

  lemma AllStayShape(a: seq<string>, b: seq<string>, known: set<string>, order: seq<string>)
    requires SameShape(a, b)
    ensures AllStay(a, known, order) <==> AllStay(b, known, order)
  {
    hide SameShape, EndsFile;
    forall s | s in order ensures EndsFile(a, s) <==> EndsFile(b, s) {
      EndsFileShape(a, b, s);
    }
  }

  /** MERGING AGAIN, EXACTLY: the second merge changes the text just when such a line is kept. */
  lemma MergeAgainExactly(body: string, items: Items)
    requires WellFormed(items)
    ensures var m := Merged(body, items);
            Merged(m, items) == m <==> !KeepsCr(FileLines(body), items, 0)
  {
    hide *;
    MergeAgainSettles(body, items);
    MergedBreaks(body, items, 0);
    NormalisedNone(Merged(body, items));
  }

  /** The text after so many merges. */
  ghost function MergedTimes(body: string, items: Items, times: nat): string {
    if times == 0 then body else Merged(MergedTimes(body, items, times - 1), items)
  }

  lemma {:induction false} MergesNormalise(body: string, items: Items, times: nat)
    requires WellFormed(items)
    ensures MergedTimes(body, items, times + 1) == Normalised(Merged(body, items), times)
  {
    hide Merged, Normalise, NoCrlf, WellFormed;
    assert MergedTimes(body, items, times + 1) == Merged(MergedTimes(body, items, times), items);
    if times > 0 {
      MergesNormalise(body, items, times - 1);
      MergeAgainSettles(MergedTimes(body, items, times - 1), items);
    }
  }

  /** HOW MANY MERGES BRING A FILE TO REST, EXACTLY: after the first, one for each carriage return that
      ends a kept line, at most. */
  lemma RestsAfter(body: string, items: Items, times: nat)
    requires WellFormed(items)
    ensures MergedTimes(body, items, times + 2) == MergedTimes(body, items, times + 1) <==>
            !KeepsCr(FileLines(body), items, times)
  {
    hide *;
    MergesNormalise(body, items, times);
    MergesNormalise(body, items, times + 1);
    MergedBreaks(body, items, times);
    NormaliseFixed(Normalised(Merged(body, items), times));
    OneMoreTime(Merged(body, items), times);
  }

  lemma OneMoreTime(s: string, times: nat)
    ensures Normalised(s, times + 1) == Normalise(Normalised(s, times))
  {
  }

  /** Every carriage return is part of a line break. */
  predicate NoStrayCr(s: string) {
    forall i | 0 <= i < |s| && s[i] == '\r' :: i + 1 < |s| && s[i + 1] == '\n'
  }

  lemma {:induction false} NoStrayNormalised(s: string)
    requires NoStrayCr(s)
    ensures '\r' !in Normalise(s)
  {
    if s != "" {
      var n := if |s| >= 2 && s[0] == '\r' && s[1] == '\n' then 2 else 1;
      forall i | 0 <= i < |s[n..]| && s[n..][i] == '\r' ensures i + 1 < |s[n..]| && s[n..][i + 1] == '\n' {
        assert s[n + i] == '\r';
      }
      NoStrayNormalised(s[n..]);
    }
  }

  lemma {:induction false} SplitKeepsOut(s: string, c: char, x: char)
    requires x !in s
    ensures forall l | l in Split(s, c) :: x !in l
  {
    if s != "" {
      SplitKeepsOut(s[1..], c, x);
    }
  }

  /** A FILE WITHOUT STRAY CARRIAGE RETURNS MERGES TO A FIXED POINT. */
  lemma PlainFileSettles(body: string, items: Items)
    requires WellFormed(items) && NoStrayCr(body)
    ensures !KeepsCr(FileLines(body), items, 0)
    ensures Merged(Merged(body, items), items) == Merged(body, items)
  {
    hide *;
    PlainFileKeepsNone(body, items, 0);
    MergeAgainExactly(body, items);
  }

  lemma PlainFileKeepsNone(body: string, items: Items, times: nat)
    requires NoStrayCr(body)
    ensures !KeepsCr(FileLines(body), items, times)
  {
    hide Normalise, Split, Rewrites, LastStays, NoStrayCr;
    NoStrayNormalised(body);
    SplitKeepsOut(Normalise(body), '\n', '\r');
    var lines := FileLines(body);
    forall i | 0 <= i < |lines| ensures !EndsInCr(lines[i], times) {
      assert lines[i] in lines;
    }
  }

  /** And files exist that take any number of merges: a section whose header is the last line and ends
      in so many carriage returns, which the first entry below it turns into part of a line break. */
  lemma LoneReturnBreaks(section: string, crs: string, items: Items, times: nat)
    requires WellFormedSection(section) && WellFormed(items) && AllCr(crs)
    requires items != map[] && forall k | k in items :: k.section == section
    ensures var body := HeaderLine(section) + crs;
            MergedTimes(body, items, times + 2) == MergedTimes(body, items, times + 1) <==> |crs| <= times
  {
    hide *;
    var body := HeaderLine(section) + crs;
    LoneReturnLines(section, crs, body);
    var k :| k in items;
    EndsFileAt([body], items, k);
    KeepsCrAt([body], items, times);
    RestsAfter(body, items, times);
  }

  lemma KeepsCrAt(lines: seq<string>, items: Items, times: nat)
    requires |lines| == 1 && !LastStays(lines, items) && Values(lines, None) == map[]
    ensures KeepsCr(lines, items, times) <==> EndsInCr(lines[0], times)
  {
    hide Values, LastStays, EndsInCr;
  }

  lemma EndsFileAt(lines: seq<string>, items: Items, k: SettingKey)
    requires k in items && k !in Values(lines, None) && EndsFile(lines, k.section)
    ensures !LastStays(lines, items)
  {
    hide Values, EndsFile, Headers;
  }

  predicate AllCr(s: string) {
    forall i | 0 <= i < |s| :: s[i] == '\r'
  }

  lemma LoneReturnLines(section: string, crs: string, body: string)
    requires WellFormedSection(section) && body == HeaderLine(section) + crs && AllCr(crs)
    ensures FileLines(body) == [body] && Values([body], None) == map[] && EndsFile([body], section)
    ensures forall times: nat :: EndsInCr(body, times) <==> times < |crs|
  {
    hide *;
    LoneReturnReads(section, crs, body);
    LoneReturnEnds(section, crs, body);
    OneLineFile(body);
    OneHeaderValues(body, section);
    OneHeaderText(body, section);
    EndsItself(body, section);
  }

  lemma LoneReturnEnds(section: string, crs: string, body: string)
    requires WellFormedSection(section) && body == HeaderLine(section) + crs && AllCr(crs)
    ensures '\n' !in body && forall times: nat :: EndsInCr(body, times) <==> times < |crs|
  {
    hide Trimmed, Returns;
    HowManyReturns(HeaderLine(section), crs);
    assert '\n' !in crs;
  }

  lemma OneLineFile(body: string)
    requires '\n' !in body
    ensures FileLines(body) == [body] || body == ""
  {
    NormaliseNoBreak(body);
    SplitOne(body, '\n');
  }

  lemma OneHeaderValues(body: string, section: string)
    requires Classify(body) == Header(section)
    ensures Values([body], None) == map[]
  {
    hide Classify;
    LastLine([], body, None);
    assert [] + [body] == [body];
  }

  lemma EndsItself(body: string, section: string)
    requires Trim(body) == HeaderLine(section) && HeaderTexts([body]) == [HeaderLine(section)]
    ensures EndsFile([body], section) && body != ""
  {
    hide HeaderTexts, Trim;
    TrimOfTrimmed("");
    assert HeaderLine(section) != "";
  }

  lemma {:induction false} HowManyReturns(l: string, crs: string)
    requires l != "" && l[|l| - 1] != '\r' && AllCr(crs)
    ensures Returns(l + crs) == |crs|
  {
    if crs == "" {
      assert l + crs == l;
    } else {
      var n := |crs| - 1;
      assert (l + crs)[..|l| + n] == l + crs[..n];
      HowManyReturns(l, crs[..n]);
    }
  }

  lemma LoneReturnReads(section: string, crs: string, body: string)
    requires WellFormedSection(section) && body == HeaderLine(section) + crs && AllCr(crs)
    ensures Classify(body) == Header(section) && Trim(body) == HeaderLine(section)
  {
    hide Trim, Classify;
    HeaderLineReads(section);
    assert AllSpace(crs);
    TrimPadRight(HeaderLine(section), crs);
    HeaderReads(body, section);
  }
}
