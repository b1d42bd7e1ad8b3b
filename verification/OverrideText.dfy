/** The text an override set is stored as: internal/domain/bepinex.go, lines 487-575. */
module OverrideText {
  import opened Text
  import opened Wrappers
  import opened Overrides
  import opened ConfigLines

  /** The entries of a named section: entries before any header, or below "[]", are dropped. */
  function Named(m: Items): Items {
    map k | k in m && k.section != "" :: m[k]
  }

  function TextLines(text: string): seq<string> {
    Split(Normalise(text), '\n')
  }

  /** The overrides a stored text records. */
  function Recorded(text: string): Items {
    Named(Values(TextLines(text), None))
  }

  /** The lines Encode writes: a header per section, a blank line between sections. */
  function EncodeLines(os: seq<Override>): seq<string> {
    if os == [] then []
    else
      var before, o := os[..|os| - 1], os[|os| - 1];
      EncodeLines(before) + SectionBreak(before, o) + [EntryLine(o)]
  }

  function SectionBreak(before: seq<Override>, o: Override): seq<string> {
    if before == [] then [HeaderLine(o.section)]
    else if o.section != before[|before| - 1].section then ["", HeaderLine(o.section)]
    else []
  }

  ghost function Encoded(items: Items): string {
    Unlines(EncodeLines(Listing(items)))
  }

  function SectionOrEmpty(section: Option<string>): string {
    if section.None? then "" else section.value
  }

  /** The domain.OverrideSet struct: a map its methods update in place. */
  class OverrideSet {
    var items: Items

    constructor ()
      ensures items == map[]
    {
      items := map[];
    }

    method Set(section: string, name: string, value: string)
      modifies this
      ensures items == old(items)[SettingKey(section, name) := value]
    {
      items := items[SettingKey(section, name) := value];
    }

    method Unset(section: string, name: string) returns (had: bool)
      modifies this
      ensures had == (SettingKey(section, name) in old(items))
      ensures items == old(items) - {SettingKey(section, name)}
    {
      var k := SettingKey(section, name);
      if k !in items {
        return false;
      }
      items := items - {k};
      return true;
    }

    /** The overrides in key order, whatever order the map is walked in. */
    method All() returns (out: seq<Override>)
      ensures out == Listing(items)
    {
      out := [];
      var rest := items.Keys;
      while rest != {}
        invariant rest <= items.Keys
        invariant DistinctKeys(out) && MapOf(out) == items - rest
        decreases |rest|
      {
        var k :| k in rest;
        KeepOneMore(items, rest, k);
        DistinctAppend(out, Override(k.section, k.name, items[k]));
        out := out + [Override(k.section, k.name, items[k])];
        rest := rest - {k};
      }
      assert items - {} == items;
      out := SortOverrides(out);
      ListingUnique(out, Listing(items));
    }

    method Encode() returns (text: string)
      ensures text == Encoded(items)
    {
      hide *;
      EncodedIs(items);
      NothingEncoded();
      var all := All();
      text := "";
      var cur := "";
      for i := 0 to |all|
        invariant text == Unlines(EncodeLines(all[..i]))
        invariant i > 0 ==> cur == all[i - 1].section
      {
        var o := all[i];
        assert all[..i + 1] == all[..i] + [o];
        EncodeStep(all[..i], o);
        if o.section != cur || i == 0 {
          if i > 0 {
            text := text + "\n";
          }
          text := text + (HeaderLine(o.section) + "\n");
          cur := o.section;
        }
        text := text + (EntryLine(o) + "\n");
      }
      assert all[..|all|] == all;
    }
  }

  lemma EncodedIs(items: Items)
    ensures Encoded(items) == Unlines(EncodeLines(Listing(items)))
  {
  }

  lemma NothingEncoded()
    ensures Unlines(EncodeLines([])) == ""
  {
  }

  /** The text one more override adds. */
  lemma EncodeStep(before: seq<Override>, o: Override)
    ensures var text, header := Unlines(EncodeLines(before)), HeaderLine(o.section) + "\n";
            Unlines(EncodeLines(before + [o])) ==
            (if before == [] then text + header
             else if o.section != before[|before| - 1].section then text + "\n" + header
             else text) + (EntryLine(o) + "\n")
  {
    EncodeLinesLast(before, o);
    hide *;
    var ls, b, h := EncodeLines(before), SectionBreak(before, o), HeaderLine(o.section);
    BreakCases(before, o);
    UnlinesAppend(ls + b, [EntryLine(o)]);
    UnlinesAppend(ls, b);
    UnlinesAppend(ls + [""], [h]);
    UnlinesAppend(ls, [""]);
    UnlinesOne(EntryLine(o));
    UnlinesOne(h);
    UnlinesOne("");
    assert ls + ["", h] == ls + [""] + [h];
    assert ls + [] == ls;
    assert "" + "\n" == "\n";
  }

  lemma EncodeLinesLast(before: seq<Override>, o: Override)
    ensures EncodeLines(before + [o]) == EncodeLines(before) + SectionBreak(before, o) + [EntryLine(o)]
  {
    assert (before + [o])[..|before|] == before;
  }

  /** ENCODED SECTION BY SECTION: each below its header, and a blank line before every header but the first. */
  lemma {:induction false} EncodedBySection(p: seq<Override>, os: seq<Override>, section: string)
    requires os != [] && (forall o | o in os :: o.section == section)
    requires p != [] ==> p[|p| - 1].section != section
    ensures EncodeLines(p + os) ==
            EncodeLines(p) + (if p == [] then [] else [""]) + [HeaderLine(section)] + EntryLines(os)
  {
    hide *;
    var before, o := os[..|os| - 1], os[|os| - 1];
    assert o in os && o.section == section;
    assert p + os == p + before + [o];
    EncodeLinesLast(p + before, o);
    BreakCases(p + before, o);
    EntryLinesLast(os);
    if before == [] {
      assert p + before == p;
    } else {
      assert before[|before| - 1] in os;
      EncodedBySection(p, before, section);
    }
  }

  lemma EntryLinesLast(os: seq<Override>)
    requires os != []
    ensures EntryLines(os) == EntryLines(os[..|os| - 1]) + [EntryLine(os[|os| - 1])]
    ensures |os| == 1 ==> EntryLines(os) == [EntryLine(os[0])]
  {
    hide EntryLine;
  }

  lemma UnlinesOne(l: string)
    ensures Unlines([l]) == l + "\n"
  {
    assert Unlines([l][1..]) == "";
  }

  /** One turn of ParseOverrideSet's loop. */
  function Recording(items: Items, section: string, raw: string): (Items, string) {
    var line, entry := Trim(raw), SplitEntry(raw);
    if line == "" || HasPrefix(line, "#") then (items, section)
    else if IsHeader(line) then (items, Trim(line[1..|line| - 1]))
    else if entry.0 != "" && section != "" then (items[SettingKey(section, entry.0) := entry.2], section)
    else (items, section)
  }

  /** What the lines say, as the loop keeps it: the named settings and the open section. */
  function RecordedLines(lines: seq<string>): (Items, string) {
    (Named(Values(lines, None)), SectionOrEmpty(Section(lines, None)))
  }

  lemma RecordingIs(items: Items, section: string, raw: string)
    ensures var line, entry := Trim(raw), SplitEntry(raw);
            Recording(items, section, raw) ==
            if line == "" || HasPrefix(line, "#") then (items, section)
            else if IsHeader(line) then (items, Trim(line[1..|line| - 1]))
            else if entry.0 != "" && section != "" then (items[SettingKey(section, entry.0) := entry.2], section)
            else (items, section)
  {
    hide Trim, SplitEntry;
  }

  lemma RecordedStep(lines: seq<string>, i: nat)
    requires i < |lines|
    ensures RecordedLines(lines[..i + 1]) ==
            Recording(RecordedLines(lines[..i]).0, RecordedLines(lines[..i]).1, lines[i])
  {
    hide Values, Section, Classify, SplitEntry, Trim, Named, IsHeader;
    var raw := lines[i];
    assert lines[..i + 1] == lines[..i] + [raw];
    LastLine(lines[..i], raw, None);
    NamedStep(Values(lines[..i], None), Classify(raw), Section(lines[..i], None));
    HeaderOf(raw);
    SplitEntryKey(raw);
  }

  lemma NothingRecorded(lines: seq<string>)
    ensures RecordedLines(lines[..0]) == (map[], "") && lines[..|lines|] == lines
  {
  }

  lemma RecordedIs(text: string)
    ensures Recorded(text) == RecordedLines(Split(Normalise(text), '\n')).0
  {
    hide Values, Named, Normalise, Split;
  }

  lemma HeaderLong(line: string)
    requires IsHeader(line)
    ensures |line| >= 2
  {
  }

  /** ParseOverrideSet: one pass, remembering the section it is in. */
  method ParseOverrideSet(text: string) returns (set_: OverrideSet)
    ensures fresh(set_) && set_.items == Recorded(text)
  {
    hide *;
    set_ := new OverrideSet();
    var lines := Split(Normalise(text), '\n');
    var section := "";
    NothingRecorded(lines);
    RecordedIs(text);
    for i := 0 to |lines|
      invariant RecordedLines(lines[..i]) == (set_.items, section)
      invariant fresh(set_)
    {
      var raw := lines[i];
      RecordedStep(lines, i);
      RecordingIs(set_.items, section, raw);
      var line := Trim(raw);
      if line == "" || HasPrefix(line, "#") {
        continue;
      }
      if IsHeader(line) {
        HeaderLong(line);
        section := Trim(line[1..|line| - 1]);
        continue;
      }
      var entry := SplitEntry(raw);
      if entry.0 != "" && section != "" {
        set_.Set(section, entry.0, entry.2);
      }
    }
  }

  /** A line is an entry of the parser's switch exactly when splitEntry gives it a key. */
  lemma SplitEntryKey(raw: string)
    ensures Classify(raw).Entry? <==>
            SplitEntry(raw).0 != "" && Trim(raw) != "" && !HasPrefix(Trim(raw), "#") && !IsHeader(Trim(raw))
    ensures Classify(raw).Entry? ==> Classify(raw) == Entry(SplitEntry(raw).0, SplitEntry(raw).1, SplitEntry(raw).2)
  {
    hide SeparatorOf, Trim;
    if '=' in raw {
      TrimKeepsIn(raw, '=');
    }
  }

  lemma HeaderOf(raw: string)
    ensures Classify(raw).Header? <==> IsHeader(Trim(raw))
    ensures IsHeader(Trim(raw)) ==>
              Classify(raw) == Header(Trim(Trim(raw)[1..|Trim(raw)| - 1]))
              && Trim(raw) != "" && !HasPrefix(Trim(raw), "#") && |Trim(raw)| >= 2
  {
    hide Trim, SplitEntry;
  }

  lemma NamedStep(m: Items, line: Line, cur: Option<string>)
    ensures Named(m + Sets(line, cur)) ==
            if line.Entry? && SectionOrEmpty(cur) != ""
            then Named(m)[SettingKey(SectionOrEmpty(cur), line.key) := line.value]
            else Named(m)
  {
  }

  // ---- the round trip --------------------------------------------------------

  /** A line that does not end in '\r' reads back whole. */
  ghost predicate KeepsBreaks(ls: seq<string>) {
    forall l | l in ls :: '\n' !in l && DropCr(l) == l
  }

  lemma KeptLines(ls: seq<string>)
    requires KeepsBreaks(ls)
    ensures TextLines(Unlines(ls)) == ls + [""]
    ensures Normalise(Unlines(ls)) == Unlines(ls)
  {
    var all := ls + [""];
    UnlinesIsJoin(ls);
    NormaliseJoin(all);
    assert DropCrs(all) == all;
    JoinSplit(Normalise(Unlines(ls)), '\n');
  }

  lemma EntryLineKept(o: Override)
    requires WellFormedOverride(o)
    ensures '\n' !in EntryLine(o) && DropCr(EntryLine(o)) == EntryLine(o)
  {
    hide Classify;
    EntryLineReads(o);
    var l := EntryLine(o);
    assert l[|l| - 1] == if o.value == "" then ' ' else o.value[|o.value| - 1];
  }

  lemma {:induction false} EncodeLinesKept(os: seq<Override>)
    requires forall o | o in os :: WellFormedOverride(o)
    ensures KeepsBreaks(EncodeLines(os))
  {
    if os != [] {
      var p, o := os[..|os| - 1], os[|os| - 1];
      EncodeLinesKept(p);
      EntryLineKept(o);
      assert DropCr("") == "";
      WellFormedParts(o);
      HeaderLineKept(o.section);
    }
  }

  lemma HeaderLineKept(section: string)
    requires '\n' !in section
    ensures '\n' !in HeaderLine(section) && DropCr(HeaderLine(section)) == HeaderLine(section)
  {
  }

  function SectionsOf(os: seq<Override>): set<string> {
    if os == [] then {} else SectionsOf(os[..|os| - 1]) + {os[|os| - 1].section}
  }

  lemma {:induction false} SectionsOfMap(os: seq<Override>)
    requires DistinctKeys(os)
    ensures SectionsOf(os) == set k | k in MapOf(os) :: k.section
  {
    if os != [] {
      var p, o := os[..|os| - 1], os[|os| - 1];
      assert DistinctKeys(p);
      SectionsOfMap(p);
      MapOfInit(os);
      assert MapOf(os).Keys == MapOf(p).Keys + {o.Key()};
    }
  }

  lemma {:induction false} EncodeLinesRead(os: seq<Override>)
    requires forall o | o in os :: WellFormedOverride(o)
    ensures Values(EncodeLines(os), None) == MapOf(os)
    ensures Section(EncodeLines(os), None) == if os == [] then None else Some(os[|os| - 1].section)
    ensures Headers(EncodeLines(os)) == SectionsOf(os)
  {
    if os != [] {
      hide Classify, EntryLine, Values, Section, Headers, WellFormedOverride, SectionBreak;
      var p, o := os[..|os| - 1], os[|os| - 1];
      EncodeLinesRead(p);
      WellFormedParts(o);
      SectionBreakReads(p, o);
      EntryLineReads(o);
      LastLine(EncodeLines(p) + SectionBreak(p, o), EntryLine(o), None);
      UpdateOne(MapOf(p), o.Key(), o.value);
    }
  }

  lemma SectionBreakReads(p: seq<Override>, o: Override)
    requires WellFormedSection(o.section)
    requires Section(EncodeLines(p), None) == if p == [] then None else Some(p[|p| - 1].section)
    requires Headers(EncodeLines(p)) == SectionsOf(p)
    ensures var ls, old_ := EncodeLines(p) + SectionBreak(p, o), EncodeLines(p);
            && Values(ls, None) == Values(old_, None) && Section(ls, None) == Some(o.section)
            && Headers(ls) == SectionsOf(p) + {o.section}
  {
    hide *;
    BreakCases(p, o);
    var old_, h := EncodeLines(p), HeaderLine(o.section);
    WellFormedSectionTrimmed(o.section);
    if p == [] {
      HeaderAppended(old_, o.section);
    } else if o.section != p[|p| - 1].section {
      BlankAppended(old_);
      HeaderAppended(old_ + [""], o.section);
      assert old_ + ["", h] == old_ + [""] + [h];
    } else {
      assert old_ + [] == old_;
      SectionsOfLast(p);
    }
  }

  lemma BreakCases(p: seq<Override>, o: Override)
    ensures SectionBreak(p, o) ==
            if p == [] then [HeaderLine(o.section)]
            else if o.section != p[|p| - 1].section then ["", HeaderLine(o.section)]
            else []
  {
  }

  lemma WellFormedSectionTrimmed(section: string)
    requires WellFormedSection(section)
    ensures section != "" && Trimmed(section) && '\n' !in section
  {
  }

  lemma SectionsOfLast(p: seq<Override>)
    requires p != []
    ensures p[|p| - 1].section in SectionsOf(p)
  {
  }

  lemma ListingWellFormed(items: Items)
    requires WellFormed(items)
    ensures forall o | o in Listing(items) :: WellFormedOverride(o)
  {
    ListingHas(items);
    forall o | o in Listing(items) ensures WellFormedOverride(o) {
      assert o == Override(o.Key().section, o.Key().name, items[o.Key()]);
    }
  }

  /** The encoded text of a well-formed set, read as lines. */
  lemma EncodedReads(items: Items)
    requires WellFormed(items)
    ensures Values(TextLines(Encoded(items)), None) == items
    ensures Normalise(Encoded(items)) == Encoded(items)
    ensures Headers(TextLines(Encoded(items))) == set k | k in items :: k.section
  {
    hide Values, Headers, Section, Classify, EncodeLines, Listing, SectionsOf, MapOf;
    var os := Listing(items);
    ListingWellFormed(items);
    SortedIsDistinct(os);
    EncodeLinesRead(os);
    EncodeLinesKept(os);
    SectionsOfMap(os);
    KeptLines(EncodeLines(os));
    BlankAppended(EncodeLines(os));
  }

  lemma NamedOfWellFormed(items: Items)
    requires WellFormed(items)
    ensures Named(items) == items
  {
    forall k | k in items ensures k.section != "" {
      WellFormedParts(Override(k.section, k.name, items[k]));
    }
  }

  /** The parser's output invariant. */
  lemma RecordedIsWellFormed(text: string)
    ensures WellFormed(Recorded(text))
  {
    var lines := TextLines(text);
    SplitFree(Normalise(text), '\n');
    ValuesWellFormed(lines, None);
  }

  /** Encoding loses nothing: the set of any stored text reads back from its own encoding. */
  lemma RoundTrip(text: string)
    ensures Recorded(Encoded(Recorded(text))) == Recorded(text)
  {
    RecordedIsWellFormed(text);
    EncodedReads(Recorded(text));
    NamedOfWellFormed(Recorded(text));
  }

  /** A set built by Set alone survives its encoding exactly when it is well formed. */
  lemma EncodingIsFaithful(items: Items)
    ensures Recorded(Encoded(items)) == items <==> WellFormed(items)
  {
    RecordedIsWellFormed(Encoded(items));
    if WellFormed(items) {
      EncodedReads(items);
      NamedOfWellFormed(items);
    }
  }

  /** An override the parser would read as a header does not survive. */
  lemma HeaderLikeOverrideIsLost()
    ensures var k := SettingKey("General", "[a");
            var items: Items := map[k := "b]"];
            Recorded(Encoded(items)) != items
  {
    hide Recorded, Encoded;
    var k := SettingKey("General", "[a");
    var items: Items := map[k := "b]"];
    HeaderLike(items, k);
    hide WellFormed;
    EncodingIsFaithful(items);
  }

  lemma HeaderLike(items: Items, k: SettingKey)
    requires k in items && k.name == "[a" && items[k] == "b]"
    ensures !WellFormed(items)
  {
    hide WellFormedSection, WellFormedKey;
    assert !WellFormedValue(k.name, items[k]);
    assert !WellFormedOverride(Override(k.section, k.name, items[k]));
  }
}
