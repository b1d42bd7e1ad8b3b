/** What the config parser makes of the comments BepInEx writes: internal/domain/bepinex.go,
    lines 10-48, 200-295 and 407-446. */
module ConfigTexts {
  import opened Text
  import opened Wrappers
  import opened Overrides
  import opened ConfigLines
  import opened ConfigFiles

  // ---- one comment line ----------------------------------------------------------

  lemma DocReads(text: string)
    ensures Classify("## " + text) == Doc(Trim(text))
  {
    hide Trim, SplitEntry;
    var l, r := TrimParts(text);
    var t := Trim(text);
    var line := "## " + text;
    if t == "" {
      TrimUnique("", "##", " " + l + r);
      assert line == "" + "##" + (" " + l + r);
      assert "##"[2..] == "";
      TrimOfTrimmed("");
    } else {
      TrimUnique("", "## " + l + t, r);
      assert line == "" + ("## " + l + t) + r;
      assert ("## " + l + t)[2..] == " " + l + t;
      TrimPadLeft(" " + l, t);
      TrimOfTrimmed(t);
    }
  }

  lemma MetaReads(meta: string)
    requires Trim(meta) != ""
    ensures Classify("# " + meta) == Meta(Trim(meta))
  {
    hide Trim, SplitEntry;
    var l, r := TrimParts(meta);
    var t := Trim(meta);
    var line := "# " + meta;
    TrimUnique("", "# " + l + t, r);
    assert line == "" + ("# " + l + t) + r;
    assert ("# " + l + t)[1..] == " " + l + t;
    TrimPadLeft(" " + l, t);
    TrimOfTrimmed(t);
    assert Trim(line) == "# " + l + t;
    assert Trim(line)[1] == ' ';
  }

  /** A label and what follows it, whatever the white space around. */
  lemma LabelReads(head: string, x: string)
    requires head != "" && Trimmed(head)
    ensures CutPrefix(Trim(head + " " + x), head) == Some(Trim(x))
    ensures Trim(head + " " + x) != "" && head <= Trim(head + " " + x)
  {
    hide Trim;
    var l, r := TrimParts(x);
    var t := Trim(x);
    if t == "" {
      TrimUnique("", head, " " + l + r);
      assert head + " " + x == "" + head + (" " + l + r);
      TrimOfTrimmed("");
      assert head[|head|..] == "";
    } else {
      var s := head + " " + l + t;
      TrimUnique("", s, r);
      assert head + " " + x == "" + s + r;
      assert s[|head|..] == " " + l + t;
      TrimPadLeft(" " + l, t);
      TrimOfTrimmed(t);
    }
  }

  // ---- the plugin a file is for ----------------------------------------------------

  /** The GUID a line announces: "## Plugin GUID: g", with any white space at the ends. */
  function GuidLine(line: string): Option<string> {
    var t := Trim(line);
    if !("##" <= t) then None
    else
      var u := Trim(t[2..]);
      if "Plugin GUID: " <= u then Some(Trim(u[|"Plugin GUID: "|..])) else None
  }

  lemma GuidLineReads(guid: string)
    requires Trim(guid) != ""
    ensures GuidLine("## Plugin GUID: " + guid) == Some(Trim(guid))
  {
    hide Trim;
    var l, r := TrimParts(guid);
    var t := Trim(guid);
    var announced := "Plugin GUID: " + (l + t);
    var line := "## " + announced;
    assert "## Plugin GUID: " + guid == "" + line + r;
    TrimUnique("", line, r);
    assert line[2..] == " " + announced + "";
    TrimUnique(" ", announced, "");
    assert announced[|"Plugin GUID: "|..] == l + t;
    TrimPadLeft(l, t);
    TrimOfTrimmed(t);
  }

  /** Line i stands above the first section. */
  predicate Above(lines: seq<string>, i: nat)
    requires i < |lines|
  {
    forall j | 0 <= j <= i :: !IsHeader(Trim(lines[j]))
  }

  /** The GUID line i announces, if it stands above the first section. */
  function GuidAt(lines: seq<string>, i: nat): Option<string>
    requires i < |lines|
  {
    if Above(lines, i) then GuidLine(lines[i]) else None
  }

  function GuidsAt(lines: seq<string>): (r: seq<Option<string>>)
    ensures |r| == |lines| && forall i | 0 <= i < |lines| :: r[i] == GuidAt(lines, i)
  {
    seq(|lines|, i requires 0 <= i < |lines| => GuidAt(lines, i))
  }

  /** x is the last value there is, or none is there and x is "". */
  ghost predicate LastIs(found: seq<Option<string>>, x: string) {
    || (x == "" && forall i | 0 <= i < |found| :: found[i] == None)
    || exists i :: 0 <= i < |found| && found[i] == Some(x) && forall j | i < j < |found| :: found[j] == None
  }

  /** The last GUID announced above the first section is guid; "" stands for none. */
  ghost predicate Announces(lines: seq<string>, guid: string) {
    LastIs(GuidsAt(lines), guid)
  }

  lemma LastBefore(found: seq<Option<string>>, x: string)
    requires found != [] && LastIs(found, x)
    ensures if found[|found| - 1].Some? then found[|found| - 1] == Some(x) else LastIs(found[..|found| - 1], x)
  {
    var n := |found| - 1;
    if found[n] == None {
      var p := found[..n];
      if i :| 0 <= i < |found| && found[i] == Some(x) && forall j | i < j < |found| :: found[j] == None {
        assert p[i] == Some(x);
      }
    }
  }

  lemma GuidOfLine(line: string)
    ensures GuidLine(line).Some? ==> Classify(line).Doc? && PluginGUID(Classify(line).text) == GuidLine(line)
    ensures Classify(line).Doc? ==> PluginGUID(Classify(line).text) == GuidLine(line)
    ensures Classify(line).Header? <==> IsHeader(Trim(line))
  {
    hide Trim, SplitEntry;
    TrimOfTrimmed("");
  }

  /** One more line: the GUID and whether a section was seen. */
  lemma GuidStep(st: ParseState, i: nat, line: string)
    ensures var next := Step(st, i, line);
            && (next.seenSection <==> st.seenSection || IsHeader(Trim(line)))
            && next.pluginGUID == if !st.seenSection && GuidLine(line).Some? then GuidLine(line).value
               else st.pluginGUID
  {
    hide *;
    StepCases(st, i, line);
    GuidOfLine(line);
    if Classify(line).Doc? {
      FileHeaderIs(st, line, Classify(line).text);
    }
  }

  lemma AboveMeans(lines: seq<string>, i: nat)
    requires i < |lines|
    ensures Above(lines, i) <==> (i > 0 ==> Above(lines, i - 1)) && !IsHeader(Trim(lines[i]))
  {
    hide Trim, IsHeader;
  }

  lemma AbovePrefix(lines: seq<string>, i: nat)
    requires i < |lines| - 1
    ensures Above(lines[..|lines| - 1], i) == Above(lines, i)
  {
    hide Trim, IsHeader;
    var p := lines[..|lines| - 1];
    assert forall j | 0 <= j <= i :: p[j] == lines[j];
  }

  lemma {:induction false} SectionSeen(lines: seq<string>)
    ensures Parsed(lines).seenSection <==> lines != [] && !Above(lines, |lines| - 1)
  {
    hide *;
    if lines == [] {
      NothingParsed();
      NothingSeen();
    } else {
      var n := |lines| - 1;
      SectionSeen(lines[..n]);
      GuidStep(Parsed(lines[..n]), n, lines[n]);
      ParsedNext(lines, n);
      assert lines[..n + 1] == lines;
      AboveMeans(lines, n);
      if n > 0 {
        AbovePrefix(lines, n - 1);
      }
    }
  }

  lemma NothingSeen()
    ensures !Parsed([]).seenSection && Parsed([]).pluginGUID == ""
  {
  }

  /** THE PLUGIN OF A FILE is the one its last GUID line above the first section announces. */
  lemma {:induction false} GuidReads(lines: seq<string>, guid: string)
    requires Announces(lines, guid)
    ensures Parsed(lines).pluginGUID == guid
  {
    hide *;
    if lines == [] {
      NothingSeen();
      NothingAnnounced(guid);
    } else {
      var n := |lines| - 1;
      SectionSeen(lines[..n]);
      GuidStep(Parsed(lines[..n]), n, lines[n]);
      ParsedNext(lines, n);
      assert lines[..n + 1] == lines;
      AboveMeans(lines, n);
      if n > 0 {
        AbovePrefix(lines, n - 1);
      }
      GuidBefore(lines, guid);
      if !(Above(lines, n) && GuidLine(lines[n]).Some?) {
        GuidReads(lines[..n], guid);
        if !Above(lines, n) && (n == 0 || Above(lines, n - 1)) {
          HeaderHides(lines);
        }
      }
    }
  }

  lemma NothingAnnounced(guid: string)
    ensures Announces([], guid) ==> guid == ""
  {
  }

  lemma HeaderHides(lines: seq<string>)
    requires lines != [] && !Above(lines, |lines| - 1) && (|lines| > 1 ==> Above(lines, |lines| - 2))
    ensures GuidLine(lines[|lines| - 1]).None?
  {
    GuidOfLine(lines[|lines| - 1]);
    AboveMeans(lines, |lines| - 1);
  }

  lemma GuidAtPrefix(lines: seq<string>, i: nat)
    requires i < |lines| - 1
    ensures GuidAt(lines[..|lines| - 1], i) == GuidAt(lines, i)
  {
    hide Above, GuidLine;
    AbovePrefix(lines, i);
  }

  /** The last line announces the GUID, or those before it do. */
  lemma GuidBefore(lines: seq<string>, guid: string)
    requires lines != [] && Announces(lines, guid)
    ensures var n := |lines| - 1;
            if Above(lines, n) && GuidLine(lines[n]).Some? then GuidLine(lines[n]) == Some(guid)
            else Announces(lines[..n], guid)
  {
    hide Above, GuidLine, LastIs, GuidAt;
    var n := |lines| - 1;
    forall i | 0 <= i < n ensures GuidAt(lines[..n], i) == GuidAt(lines, i) {
      GuidAtPrefix(lines, i);
    }
    assert GuidsAt(lines[..n]) == GuidsAt(lines)[..n];
    LastBefore(GuidsAt(lines), guid);
    GuidAtIs(lines, n);
  }

  lemma GuidAtIs(lines: seq<string>, i: nat)
    requires i < |lines|
    ensures GuidAt(lines, i) == if Above(lines, i) then GuidLine(lines[i]) else None
  {
    hide Above, GuidLine;
  }

  // ---- the plugin's name and version -----------------------------------------------

  const CREATED := "Settings file was created by plugin "

  lemma {:induction false} LastFound(a: string, p: string, b: string, i: nat)
    requires |a| <= i <= |a + p + b| && p != "" && p[0] == ' ' && ' ' !in p[1..] && ' ' !in b
    ensures FindLast(a + p + b, p, i) == Some(|a|)
    decreases i
  {
    var s := a + p + b;
    if i == |a| {
      assert s[i..] == p + b;
    } else {
      NotHere(a, p, b, i);
      LastFound(a, p, b, i - 1);
    }
  }

  lemma NotHere(a: string, p: string, b: string, i: nat)
    requires |a| < i <= |a + p + b| && p != "" && p[0] == ' ' && ' ' !in p[1..] && ' ' !in b
    ensures !(p <= (a + p + b)[i..])
  {
    var s := a + p + b;
    assert forall j | |a| < j < |a| + |p| :: s[j] == p[1..][j - |a| - 1];
    assert forall j | |a| + |p| <= j < |s| :: s[j] == b[j - |a| - |p|];
  }

  /** A NAME AND A VERSION are told apart at the last " v". */
  lemma NameAndVersion(name: string, version: string)
    requires Trimmed(name) && ' ' !in version && Trimmed(version)
    ensures SplitPluginAndVersion(name + " v" + version) == (name, version)
  {
    hide Trim;
    var s := name + " v" + version;
    LastFound(name, " v", version, |s|);
    assert s[..|name|] == name && s[|name| + 2..] == version;
    TrimOfTrimmed(name);
    TrimOfTrimmed(version);
  }

  lemma CreatedReads(name: string, version: string)
    requires name != "" && Trimmed(name) && version != "" && ' ' !in version && Trimmed(version)
    ensures var text := CREATED + (name + " v" + version);
            Trim(text) == text && CreatedBy(text) == Some((name, version)) && PluginGUID(text) == None
  {
    hide Trim;
    var what := name + " v" + version;
    var text := CREATED + what;
    assert text[0] == 'S' && text[|text| - 1] == version[|version| - 1];
    assert what[0] == name[0] && what[|what| - 1] == version[|version| - 1];
    TrimOfTrimmed(text);
    TrimOfTrimmed(what);
    NameAndVersion(name, version);
    assert text[|CREATED|..] == what;
    Apart(CREATED, "Plugin GUID: ", text, 0);
  }

  /** THE HEADER OF A FILE names its plugin, its version and its GUID. */
  lemma HeaderReads(st: ParseState, i: nat, name: string, version: string)
    requires !st.seenSection && name != "" && Trimmed(name) && version != "" && ' ' !in version && Trimmed(version)
    ensures var line := "## " + (CREATED + (name + " v" + version));
            Step(st, i, line) ==
            st.(headerLines := st.headerLines + [line], pluginName := name, pluginVersion := version)
  {
    hide Classify, Step, Trim, FileHeader, CreatedBy, PluginGUID;
    var text := CREATED + (name + " v" + version);
    DocReads(text);
    CreatedReads(name, version);
    StepCases(st, i, "## " + text);
    FileHeaderIs(st, "## " + text, text);
  }

  // ---- the comment block of an entry ------------------------------------------------

  const SEVERAL := "Multiple values can be set at the same time"

  /** An entry as BepInEx writes it; several holds how the line about several values goes on. */
  datatype Block = Block(
    descriptions: seq<string>,
    typ: string,
    default_: Option<string>,
    range: Option<SettingRange>,
    choices: seq<string>,
    several: Option<string>,
    key: string,
    value: string)

  function DescriptionLines(ds: seq<string>): seq<string> {
    if ds == [] then [] else DescriptionLines(ds[..|ds| - 1]) + ["## " + ds[|ds| - 1]]
  }

  /** A comment line: "# head x". */
  function MetaLine(head: string, x: string): string {
    "# " + (head + " " + x)
  }

  function RangeText(r: SettingRange): string {
    "From " + r.from + " to " + r.to
  }

  function MetaLines(b: Block): seq<string> {
    [MetaLine("Setting type:", b.typ)]
    + (if b.default_.Some? then [MetaLine("Default value:", b.default_.value)] else [])
    + (if b.range.Some? then [MetaLine("Acceptable value range:", RangeText(b.range.value))] else [])
    + (if b.choices != [] then [MetaLine("Acceptable values:", Join(b.choices, ", "))] else [])
    + (if b.several.Some? then ["# " + (SEVERAL + b.several.value)] else [])
  }

  function BlockLines(b: Block): seq<string> {
    DescriptionLines(b.descriptions) + MetaLines(b) + [b.key + " = " + b.value]
  }

  /** Words without white space at their ends, choices without commas, a range of two words. */
  ghost predicate Tidy(b: Block) {
    && (forall d | d in b.descriptions :: Trimmed(d))
    && Trimmed(b.typ) && (b.default_.Some? ==> Trimmed(b.default_.value))
    && (b.range.Some? ==> IsWord(b.range.value.from) && IsWord(b.range.value.to))
    && (forall c | c in b.choices :: c != "" && Trimmed(c) && ',' !in c)
    && (b.several.Some? ==> Trimmed(SEVERAL + b.several.value))
    && WellFormedKey(b.key) && WellFormedValue(b.key, b.value)
  }

  ghost predicate IsWord(s: string) {
    s != "" && forall i | 0 <= i < |s| :: !IsSpace(s[i])
  }

  /** The setting such a block declares in a section. */
  function BlockSetting(b: Block, section: string, i: nat): Setting {
    Setting(section, b.key, Join(b.descriptions, "\n"), b.typ,
            if b.default_.Some? then b.default_.value else "", b.default_.Some?, b.choices, b.range, b.several.Some?,
            b.value, false, i, " = ")
  }

  // ---- what each comment says --------------------------------------------------------

  lemma TypeSays(s: Setting, x: string)
    requires Trimmed(x)
    ensures var line := Classify(MetaLine("Setting type:", x)); line.Meta? && Describe(s, line.text) == s.(typ := x)
  {
    hide Classify, Trim, Describe, CutPrefix, MetaLine;
    LabelLine("Setting type:", x);
    TrimOfTrimmed(x);
    DescribeType(s, Trim("Setting type:" + " " + x));
  }

  lemma DefaultSays(s: Setting, x: string)
    requires Trimmed(x)
    ensures var line := Classify(MetaLine("Default value:", x));
            line.Meta? && Describe(s, line.text) == s.(default_ := x, hasDefault := true)
  {
    hide Classify, Trim, Describe, CutPrefix, MetaLine;
    LabelLine("Default value:", x);
    TrimOfTrimmed(x);
    DescribeDefault(s, Trim("Default value:" + " " + x));
  }

  lemma RangeSays(s: Setting, r: SettingRange)
    requires IsWord(r.from) && IsWord(r.to)
    ensures var line := Classify(MetaLine("Acceptable value range:", RangeText(r)));
            line.Meta? && Describe(s, line.text) == s.(range := Some(r))
  {
    hide Classify, Trim, Describe, CutPrefix, MetaLine, ParseRange, RangeText;
    var x := RangeText(r);
    RangeReads(r);
    LabelLine("Acceptable value range:", x);
    TrimOfTrimmed(x);
    DescribeRange(s, Trim("Acceptable value range:" + " " + x));
  }

  lemma ChoicesSay(s: Setting, choices: seq<string>)
    requires choices != [] && forall c | c in choices :: c != "" && Trimmed(c) && ',' !in c
    ensures var line := Classify(MetaLine("Acceptable values:", Join(choices, ", ")));
            line.Meta? && Describe(s, line.text) == s.(acceptable := choices)
  {
    hide Classify, Trim, Describe, CutPrefix, MetaLine, SplitAcceptable, Join;
    var x := Join(choices, ", ");
    ChoicesRead(choices);
    LabelLine("Acceptable values:", x);
    TrimOfTrimmed(x);
    DescribeChoices(s, Trim("Acceptable values:" + " " + x));
  }

  lemma SeveralSays(s: Setting, rest: string)
    requires Trimmed(SEVERAL + rest)
    ensures var line := "# " + (SEVERAL + rest);
            Classify(line).Meta? && Describe(s, Classify(line).text) == s.(multipleValues := true)
  {
    hide Classify, Trim, Describe;
    var meta := SEVERAL + rest;
    TrimOfTrimmed(meta);
    MetaReads(meta);
    DescribeSeveral(s, meta);
  }

  lemma LabelLine(head: string, x: string)
    requires head != "" && Trimmed(head)
    ensures Classify(MetaLine(head, x)) == Meta(Trim(head + " " + x))
    ensures CutPrefix(Trim(head + " " + x), head) == Some(Trim(x)) && head <= Trim(head + " " + x)
  {
    hide Classify, Trim;
    LabelReads(head, x);
    MetaReads(head + " " + x);
  }

  /** Two labels that differ somewhere do not start one text. */
  lemma Apart(p: string, q: string, meta: string, i: nat)
    requires p <= meta && i < |p| && i < |q| && p[i] != q[i]
    ensures CutPrefix(meta, q).None? && !HasPrefix(meta, q)
  {
  }

  lemma DescribeType(s: Setting, meta: string)
    requires "Setting type:" <= meta
    ensures CutPrefix(meta, "Setting type:").Some?
    ensures Describe(s, meta) == s.(typ := CutPrefix(meta, "Setting type:").value)
  {
    hide Trim, ParseRange, SplitAcceptable;
  }

  lemma DescribeDefault(s: Setting, meta: string)
    requires "Default value:" <= meta
    ensures CutPrefix(meta, "Default value:").Some?
    ensures Describe(s, meta) == s.(default_ := CutPrefix(meta, "Default value:").value, hasDefault := true)
  {
    hide Trim, ParseRange, SplitAcceptable;
    Apart("Default value:", "Setting type:", meta, 0);
  }

  lemma CutStarts(meta: string, p: string)
    ensures CutPrefix(meta, p).Some? <==> p <= meta
  {
  }

  lemma DescribeRange(s: Setting, meta: string)
    requires "Acceptable value range:" <= meta
    ensures CutPrefix(meta, "Acceptable value range:").Some?
    ensures Describe(s, meta) == s.(range := ParseRange(CutPrefix(meta, "Acceptable value range:").value))
  {
    CutStarts(meta, "Acceptable value range:");
    Apart("Acceptable value range:", "Setting type:", meta, 0);
    Apart("Acceptable value range:", "Default value:", meta, 0);
    hide Trim, ParseRange, SplitAcceptable, CutPrefix;
  }

  lemma DescribeChoices(s: Setting, meta: string)
    requires "Acceptable values:" <= meta
    ensures CutPrefix(meta, "Acceptable values:").Some?
    ensures Describe(s, meta) == s.(acceptable := SplitAcceptable(CutPrefix(meta, "Acceptable values:").value))
  {
    hide Trim, ParseRange, SplitAcceptable, CutPrefix;
    CutStarts(meta, "Acceptable values:");
    Apart("Acceptable values:", "Setting type:", meta, 0);
    Apart("Acceptable values:", "Default value:", meta, 0);
    Apart("Acceptable values:", "Acceptable value range:", meta, 16);
  }

  lemma DescribeSeveral(s: Setting, meta: string)
    requires SEVERAL <= meta
    ensures Describe(s, meta) == s.(multipleValues := true)
  {
    hide Trim, ParseRange, SplitAcceptable, CutPrefix;
    Apart(SEVERAL, "Setting type:", meta, 0);
    Apart(SEVERAL, "Default value:", meta, 0);
    Apart(SEVERAL, "Acceptable value range:", meta, 0);
    Apart(SEVERAL, "Acceptable values:", meta, 0);
  }

  // ---- ranges and choices --------------------------------------------------------------

  lemma WordIsTrimmed(s: string)
    requires IsWord(s)
    ensures s != "" && Trimmed(s) && ' ' !in s
  {
  }

  lemma RangeReads(r: SettingRange)
    requires IsWord(r.from) && IsWord(r.to)
    ensures ParseRange(RangeText(r)) == Some(r) && Trimmed(RangeText(r))
  {
    hide *;
    RangeTextIs(r);
    WordIsTrimmed(r.from);
    WordIsTrimmed(r.to);
    EndsTrimmed("From " + r.from, " to ", r.to);
    BoundsRead(r.from, r.to);
    ParseRangeIs(r.from + " to " + r.to);
  }

  lemma BoundsRead(from: string, to: string)
    requires IsWord(from) && IsWord(to)
    ensures var t := from + " to " + to;
            Trim(t) == t && Find(t, " to ", 0) == |from|
            && Trim(t[..|from|]) == from && Trim(t[|from| + 4..]) == to
  {
    hide *;
    WordIsTrimmed(from);
    WordIsTrimmed(to);
    var t := from + " to " + to;
    EndsTrimmed(from, " to ", to);
    TrimOfTrimmed(t);
    FindAfter(from, " to ", to, 0);
    assert t[..|from|] == from && t[|from| + 4..] == to;
    TrimOfTrimmed(from);
    TrimOfTrimmed(to);
  }

  lemma RangeTextIs(r: SettingRange)
    ensures RangeText(r) == "From " + (r.from + " to " + r.to) == ("From " + r.from) + " to " + r.to
  {
  }

  lemma EndsTrimmed(a: string, m: string, b: string)
    requires a != "" && b != "" && (Trimmed(a) || a[0] == 'F') && Trimmed(b)
    ensures Trimmed(a + m + b)
  {
    var x := a + m + b;
    assert x[0] == a[0] && x[|x| - 1] == b[|b| - 1];
  }

  lemma ParseRangeIs(rest: string)
    ensures var t := Trim(rest);
            var i := Find(t, " to ", 0);
            ParseRange("From " + rest) ==
            if i + 4 > |t| then None else Some(SettingRange(Trim(t[..i]), Trim(t[i + 4..])))
  {
    hide Trim;
    var x := "From " + rest;
    assert x[5..] == rest;
  }

  lemma {:induction false} FindAfter(a: string, p: string, b: string, i: nat)
    requires i <= |a| && ' ' !in a && p != "" && p[0] == ' '
    ensures Find(a + p + b, p, i) == |a|
    decreases |a| - i
  {
    var s := a + p + b;
    if i < |a| {
      assert s[i..][0] == a[i] && a[i] in a;
      FindAfter(a, p, b, i + 1);
    } else {
      assert s[i..] == p + b;
    }
  }

  lemma {:induction false} TrimmedPartsAppend(a: seq<string>, b: seq<string>)
    ensures TrimmedParts(a + b) == TrimmedParts(a) + TrimmedParts(b)
  {
    hide Trim;
    if b == [] {
      assert a + b == a;
    } else {
      assert (a + b)[..|a + b| - 1] == a + b[..|b| - 1];
      TrimmedPartsAppend(a, b[..|b| - 1]);
    }
  }

  lemma OnePart(p: string, c: string)
    requires Trim(p) == c && c != ""
    ensures TrimmedParts([p]) == [c]
  {
    hide Trim;
    assert [p][..0] == [];
  }

  /** Choices joined by ", " are read back. */
  lemma {:induction false} ChoicesRead(choices: seq<string>)
    requires choices != [] && forall c | c in choices :: c != "" && Trimmed(c) && ',' !in c
    ensures SplitAcceptable(Join(choices, ", ")) == choices
    ensures var x := Join(choices, ", "); x != "" && Trimmed(x)
  {
    hide Trim, Split, TrimmedParts;
    var c := choices[0];
    assert c in choices;
    TrimOfTrimmed(c);
    OnePart(c, c);
    if |choices| == 1 {
      SplitOne(c, ',');
      assert choices == [c];
    } else {
      var more := choices[1..];
      assert forall d | d in more :: d in choices;
      ChoicesRead(more);
      var rest := Join(more, ", ");
      assert Join(choices, ", ") == c + [','] + (" " + rest);
      SplitAt(c, ',', " " + rest);
      SpaceFirst(rest);
      TrimmedPartsAppend([c], Split(" " + rest, ','));
      assert choices == [c] + more;
    }
  }

  /** A space before the first part does not matter. */
  lemma SpaceFirst(s: string)
    requires s != "" && Trimmed(s)
    ensures TrimmedParts(Split(" " + s, ',')) == TrimmedParts(Split(s, ','))
  {
    hide Trim, TrimmedParts;
    var parts := Split(s, ',');
    assert (" " + s)[1..] == s;
    assert Split(" " + s, ',') == [[' '] + parts[0]] + parts[1..];
    hide Split;
    TrimPadLeft([' '], parts[0]);
    TrimmedPartsAppend([[' '] + parts[0]], parts[1..]);
    TrimmedPartsAppend([parts[0]], parts[1..]);
    assert [parts[0]] + parts[1..] == parts;
    SamePart([' '] + parts[0], parts[0]);
  }

  lemma SamePart(p: string, q: string)
    requires Trim(p) == Trim(q)
    ensures TrimmedParts([p]) == TrimmedParts([q])
  {
    hide Trim;
    assert [p][..0] == [] && [q][..0] == [];
  }

  // ---- a whole block -------------------------------------------------------------------

  /** The parser's turns over some lines, from a state and a position. */
  function StepAll(st: ParseState, i: nat, lines: seq<string>): ParseState {
    if lines == [] then st else Step(StepAll(st, i, lines[..|lines| - 1]), i + |lines| - 1, lines[|lines| - 1])
  }

  lemma {:induction false} StepAllAppend(st: ParseState, i: nat, a: seq<string>, b: seq<string>)
    ensures StepAll(st, i, a + b) == StepAll(StepAll(st, i, a), i + |a|, b)
  {
    hide Step;
    if b == [] {
      assert a + b == a;
    } else {
      assert (a + b)[..|a + b| - 1] == a + b[..|b| - 1];
      StepAllAppend(st, i, a, b[..|b| - 1]);
    }
  }

  lemma {:induction false} ParsedAll(lines: seq<string>)
    ensures Parsed(lines) == StepAll(START, 0, lines)
  {
    hide Step;
    if lines != [] {
      ParsedAll(lines[..|lines| - 1]);
    }
  }

  /** A state that remembers descriptions and a setting for the next entry. */
  function Remembers(st: ParseState, desc: seq<string>, pending: Setting, have: bool): ParseState {
    st.(desc := desc, pending := pending, havePending := have)
  }

  lemma DocStep(st: ParseState, i: nat, desc: seq<string>, pending: Setting, have: bool, d: string)
    requires st.seenSection && Trimmed(d)
    ensures Step(Remembers(st, desc, pending, have), i, "## " + d) == Remembers(st, desc + [d], pending, true)
  {
    hide Step, Classify, Trim;
    DocReads(d);
    TrimOfTrimmed(d);
    StepCases(Remembers(st, desc, pending, have), i, "## " + d);
  }

  lemma {:induction false} DescriptionSteps(st: ParseState, i: nat, ds: seq<string>, pending: Setting)
    requires st.seenSection && forall d | d in ds :: Trimmed(d)
    ensures StepAll(Remembers(st, [], pending, false), i, DescriptionLines(ds)) == Remembers(st, ds, pending, ds != [])
    ensures |DescriptionLines(ds)| == |ds|
  {
    hide *;
    if ds != [] {
      var n := |ds| - 1;
      assert forall d | d in ds[..n] :: d in ds;
      DescriptionSteps(st, i, ds[..n], pending);
      assert ds[n] in ds;
      DocStep(st, i + n, ds[..n], pending, ds[..n] != [], ds[n]);
      LastDescription(ds);
      StepLast(Remembers(st, [], pending, false), i, DescriptionLines(ds[..n]), "## " + ds[n]);
      assert ds == ds[..n] + [ds[n]];
    } else {
      NoDescription(Remembers(st, [], pending, false), i);
    }
  }

  lemma LastDescription(ds: seq<string>)
    requires ds != []
    ensures DescriptionLines(ds) == DescriptionLines(ds[..|ds| - 1]) + ["## " + ds[|ds| - 1]]
  {
  }

  lemma NoDescription(st: ParseState, i: nat)
    ensures DescriptionLines([]) == [] && StepAll(st, i, []) == st
  {
  }

  /** A comment line, if it is there, only adds to the setting that is remembered. */
  lemma MetaNext(st: ParseState, i: nat, desc: seq<string>, was: ParseState, before: seq<string>, p: Setting,
                 have: bool,
                 line: seq<string>, q: Setting)
    requires StepAll(was, i, before) == Remembers(st, desc, p, have)
    requires if line == [] then q == p && have
             else |line| == 1 && Classify(line[0]).Meta? && Describe(p, Classify(line[0]).text) == q
    ensures StepAll(was, i, before + line) == Remembers(st, desc, q, true)
  {
    if line == [] {
      assert before + line == before;
    } else {
      hide Classify, Describe, Step;
      assert (before + line)[..|before|] == before && (before + line)[|before|] == line[0];
      StepCases(Remembers(st, desc, p, have), i + |before|, line[0]);
    }
  }

  /** What the comments above an entry come to, one after the other. */
  function Typed(s: Setting, b: Block): Setting {
    s.(typ := b.typ)
  }

  function Defaulted(s: Setting, b: Block): Setting {
    if b.default_.Some? then s.(default_ := b.default_.value, hasDefault := true) else s
  }

  function Ranged(s: Setting, b: Block): Setting {
    if b.range.Some? then s.(range := b.range) else s
  }

  function Chosen(s: Setting, b: Block): Setting {
    if b.choices != [] then s.(acceptable := b.choices) else s
  }

  function Several(s: Setting, b: Block): Setting {
    if b.several.Some? then s.(multipleValues := true) else s
  }

  function Described(s: Setting, b: Block): Setting {
    Several(Chosen(Ranged(Defaulted(Typed(s, b), b), b), b), b)
  }

  function TypeLine(b: Block): seq<string> {
    [MetaLine("Setting type:", b.typ)]
  }

  function DefaultLine(b: Block): seq<string> {
    if b.default_.Some? then [MetaLine("Default value:", b.default_.value)] else []
  }

  function RangeLine(b: Block): seq<string> {
    if b.range.Some? then [MetaLine("Acceptable value range:", RangeText(b.range.value))] else []
  }

  function ChoiceLine(b: Block): seq<string> {
    if b.choices != [] then [MetaLine("Acceptable values:", Join(b.choices, ", "))] else []
  }

  function SeveralLine(b: Block): seq<string> {
    if b.several.Some? then ["# " + (SEVERAL + b.several.value)] else []
  }

  /** A line of a block, if it is there, says this of the setting. */
  ghost predicate Says(line: seq<string>, p: Setting, q: Setting) {
    if line == [] then q == p
    else |line| == 1 && Classify(line[0]).Meta? && Describe(p, Classify(line[0]).text) == q
  }

  lemma BlockSays(s: Setting, b: Block)
    requires Tidy(b)
    ensures Says(TypeLine(b), s, Typed(s, b)) && TypeLine(b) != []
    ensures Says(DefaultLine(b), s, Defaulted(s, b)) && Says(RangeLine(b), s, Ranged(s, b))
    ensures Says(ChoiceLine(b), s, Chosen(s, b)) && Says(SeveralLine(b), s, Several(s, b))
  {
    hide Classify, Describe, MetaLine, RangeText, Join, Trimmed, IsWord, Tidy;
    TidyParts(b);
    TypeSays(s, b.typ);
    if b.default_.Some? {
      DefaultSays(s, b.default_.value);
    }
    if b.range.Some? {
      RangeSays(s, b.range.value);
    }
    if b.choices != [] {
      ChoicesSay(s, b.choices);
    }
    if b.several.Some? {
      SeveralSays(s, b.several.value);
    }
  }

  lemma SaysNext(st: ParseState, i: nat, desc: seq<string>, was: ParseState, before: seq<string>, p: Setting,
                 have: bool, line: seq<string>, q: Setting)
    requires StepAll(was, i, before) == Remembers(st, desc, p, have) && Says(line, p, q) && (have || line != [])
    ensures StepAll(was, i, before + line) == Remembers(st, desc, q, true)
  {
    hide Classify, Describe, StepAll, Remembers;
    MetaNext(st, i, desc, was, before, p, have, line, q);
  }

  lemma MetaSteps(st: ParseState, i: nat, desc: seq<string>, was: ParseState, before: seq<string>, s: Setting,
                  have: bool,
                  b: Block)
    requires Tidy(b) && StepAll(was, i, before) == Remembers(st, desc, s, have)
    ensures StepAll(was, i, before + MetaLines(b)) == Remembers(st, desc, Described(s, b), true)
  {
    hide *;
    var s1, l1 := Typed(s, b), before + TypeLine(b);
    var s2, l2 := Defaulted(s1, b), l1 + DefaultLine(b);
    var s3, l3 := Ranged(s2, b), l2 + RangeLine(b);
    var s4, l4 := Chosen(s3, b), l3 + ChoiceLine(b);
    BlockSays(s, b);
    BlockSays(s1, b);
    BlockSays(s2, b);
    BlockSays(s3, b);
    BlockSays(s4, b);
    SaysNext(st, i, desc, was, before, s, have, TypeLine(b), s1);
    SaysNext(st, i, desc, was, l1, s1, true, DefaultLine(b), s2);
    SaysNext(st, i, desc, was, l2, s2, true, RangeLine(b), s3);
    SaysNext(st, i, desc, was, l3, s3, true, ChoiceLine(b), s4);
    SaysNext(st, i, desc, was, l4, s4, true, SeveralLine(b), Several(s4, b));
    LinesGrouped(before, b);
    DescribedIs(s, b);
  }

  lemma LinesGrouped(before: seq<string>, b: Block)
    ensures before + TypeLine(b) + DefaultLine(b) + RangeLine(b) + ChoiceLine(b) + SeveralLine(b) ==
            before + MetaLines(b)
  {
    hide MetaLine, RangeText, Join;
  }

  lemma DescribedIs(s: Setting, b: Block)
    ensures Described(s, b) == Several(Chosen(Ranged(Defaulted(Typed(s, b), b), b), b), b)
  {
    hide Several, Chosen, Ranged, Defaulted, Typed;
  }

  lemma TidyParts(b: Block)
    requires Tidy(b)
    ensures Trimmed(b.typ) && (b.default_.Some? ==> Trimmed(b.default_.value))
    ensures b.range.Some? ==> IsWord(b.range.value.from) && IsWord(b.range.value.to)
    ensures forall c | c in b.choices :: c != "" && Trimmed(c) && ',' !in c
    ensures b.several.Some? ==> Trimmed(SEVERAL + b.several.value)
    ensures WellFormedKey(b.key) && WellFormedValue(b.key, b.value) && forall d | d in b.descriptions :: Trimmed(d)
  {
    hide Trimmed, IsWord, WellFormedKey, WellFormedValue;
  }

  /** Nothing is remembered for the next entry. */
  predicate AtRest(st: ParseState) {
    st == Remembers(st, [], NO_SETTING, false)
  }

  /** The state with one more setting in its last section. */
  function Adding(st: ParseState, s: Setting): ParseState
    requires st.sections != []
  {
    st.(sections := AddSetting(st.sections, s))
  }

  lemma EntryStep(st: ParseState, i: nat, desc: seq<string>, p: Setting, line: string, key: string, sep: string,
                  value: string)
    requires AtRest(st) && st.sections != [] && Classify(line) == Entry(key, sep, value)
    ensures Step(Remembers(st, desc, p, true), i, line) ==
            Adding(st, p.(section := st.sections[|st.sections| - 1].name, name := key, value := value,
                          description := Join(desc, "\n"), orphaned := false, lineIndex := i, separator := sep))
  {
    hide Step, Classify, Join;
    StepCases(Remembers(st, desc, p, true), i, line);
  }

  lemma SettingOfBlock(b: Block, section: string, i: nat)
    ensures Described(NO_SETTING, b).(section := section, name := b.key, value := b.value,
                                      description := Join(b.descriptions, "\n"), orphaned := false, lineIndex := i,
                                      separator := " = ") == BlockSetting(b, section, i)
  {
    hide Join;
  }

  /** A BLOCK DECLARES ITS ENTRY: with its comments' type, default, range and choices, and nothing of it is
      left for the next one. */
  lemma BlockSteps(st: ParseState, i: nat, b: Block)
    requires Tidy(b) && AtRest(st) && st.seenSection && st.sections != []
    ensures var s := BlockSetting(b, st.sections[|st.sections| - 1].name, i + |BlockLines(b)| - 1);
            StepAll(st, i, BlockLines(b)) == Adding(st, s)
  {
    hide *;
    TidyParts(b);
    EntryOfBlock(b);
    var ds, line := DescriptionLines(b.descriptions), b.key + " = " + b.value;
    var all := ds + MetaLines(b);
    RestIs(st);
    DescriptionSteps(st, i, b.descriptions, NO_SETTING);
    MetaSteps(st, i, b.descriptions, st, ds, NO_SETTING, b.descriptions != [], b);
    LastLineOf(b, all, line);
    StepLast(st, i, all, line);
    EntryStep(st, i + |all|, b.descriptions, Described(NO_SETTING, b), line, b.key, " = ", b.value);
    SettingOfBlock(b, st.sections[|st.sections| - 1].name, i + |all|);
  }

  lemma RestIs(st: ParseState)
    ensures AtRest(st) <==> st == Remembers(st, [], NO_SETTING, false)
  {
    hide Remembers;
  }

  lemma LastLineOf(b: Block, all: seq<string>, line: string)
    requires all == DescriptionLines(b.descriptions) + MetaLines(b) && line == b.key + " = " + b.value
    ensures BlockLines(b) == all + [line]
  {
    hide DescriptionLines, MetaLines;
  }

  lemma StepLast(st: ParseState, i: nat, before: seq<string>, line: string)
    ensures StepAll(st, i, before + [line]) == Step(StepAll(st, i, before), i + |before|, line)
  {
    hide Step;
    assert (before + [line])[..|before|] == before;
  }

  lemma EntryOfBlock(b: Block)
    requires WellFormedKey(b.key) && WellFormedValue(b.key, b.value)
    ensures Classify(b.key + " = " + b.value) == Entry(b.key, " = ", b.value)
  {
    hide Classify, WellFormedKey, WellFormedValue;
    EntryLineReads(Override("", b.key, b.value));
  }

  lemma HeaderStep(st: ParseState, i: nat, section: string)
    requires Trimmed(section)
    ensures var next := Step(st, i, HeaderLine(section));
            && AtRest(next) && next.seenSection && next.sections == st.sections + [ConfigSection(section, [])]
  {
    hide Step, Classify, HeaderLine, Trimmed;
    HeaderLineReads(section);
    StepCases(st, i, HeaderLine(section));
  }

  lemma AddedToNew(st: ParseState, before: seq<ConfigSection>, section: string, s: Setting)
    requires st.sections == before + [ConfigSection(section, [])]
    ensures Adding(st, s).sections == before + [ConfigSection(section, [s])]
  {
    assert [] + [s] == [s];
    assert st.sections[|before|] == ConfigSection(section, []);
  }

  /** THE FIRST BLOCK OF A SECTION, wherever the section stands in the file. */
  lemma BlockReads(before: seq<string>, section: string, b: Block)
    requires Trimmed(section) && Tidy(b)
    ensures Parsed(before + [HeaderLine(section)] + BlockLines(b)).sections ==
            Parsed(before).sections + [ConfigSection(section, [BlockSetting(b, section, |before| + |BlockLines(b)|)])]
  {
    hide *;
    var header := HeaderLine(section);
    var st := Step(Parsed(before), |before|, header);
    ParsedOne(before, header);
    ParsedPlus(before + [header], BlockLines(b));
    HeaderStep(Parsed(before), |before|, section);
    LastOf(st.sections, Parsed(before).sections, ConfigSection(section, []));
    BlockSteps(st, |before| + 1, b);
    AddedToNew(st, Parsed(before).sections, section, BlockSetting(b, section, |before| + |BlockLines(b)|));
  }

  lemma LastOf(all: seq<ConfigSection>, before: seq<ConfigSection>, s: ConfigSection)
    requires all == before + [s]
    ensures all != [] && all[|all| - 1] == s
  {
  }

  lemma ParsedOne(before: seq<string>, line: string)
    ensures Parsed(before + [line]) == Step(Parsed(before), |before|, line)
  {
    hide Step;
    assert (before + [line])[..|before|] == before;
  }

  lemma ParsedPlus(a: seq<string>, b: seq<string>)
    ensures Parsed(a + b) == StepAll(Parsed(a), |a|, b)
  {
    hide *;
    ParsedAll(a);
    ParsedAll(a + b);
    StepAllAppend(START, 0, a, b);
  }

  // ---- warnings ------------------------------------------------------------------------

  /** What is wrong with line i, if anything. */
  predicate Wrong(lines: seq<string>, i: nat, reason: Reason)
    requires i < |lines|
  {
    match reason
    case EntryHasNoKey => Classify(lines[i]).NoKey?
    case EntryBeforeHeader => Classify(lines[i]).Entry? && forall j | 0 <= j < i :: !IsHeader(Trim(lines[j]))
    case UnrecognisedLine => Classify(lines[i]).Unrecognised?
  }

  lemma WrongPrefix(lines: seq<string>, i: nat, reason: Reason)
    requires i < |lines| - 1
    ensures Wrong(lines[..|lines| - 1], i, reason) == Wrong(lines, i, reason)
  {
    hide Classify, Trim, IsHeader;
    var p := lines[..|lines| - 1];
    assert forall j | 0 <= j <= i :: p[j] == lines[j];
  }

  /** One more line: its warning, and whether there is a section now. */
  lemma WarningStep(st: ParseState, i: nat, line: string)
    ensures var next, kind := Step(st, i, line), Classify(line);
            && (next.sections == [] <==> st.sections == [] && !IsHeader(Trim(line)))
            && next.warnings ==
               if kind.NoKey? then st.warnings + [ParseWarning(i + 1, line, EntryHasNoKey)]
               else if kind.Entry? && st.sections == [] then
                 st.warnings + [ParseWarning(i + 1, line, EntryBeforeHeader)]
               else if kind.Unrecognised? then st.warnings + [ParseWarning(i + 1, line, UnrecognisedLine)]
               else st.warnings
  {
    hide *;
    StepCases(st, i, line);
    GuidOfLine(line);
    if Classify(line).Doc? {
      FileHeaderIs(st, line, Classify(line).text);
    }
    if Classify(line).Entry? && st.sections != [] {
      DeclaredIs(st, i, Classify(line).key, Classify(line).sep, Classify(line).value);
    }
  }

  lemma {:induction false} NoSectionYet(lines: seq<string>)
    ensures Parsed(lines).sections == [] <==> forall j | 0 <= j < |lines| :: !IsHeader(Trim(lines[j]))
  {
    hide Step, Trim, IsHeader, Classify;
    if lines != [] {
      var n := |lines| - 1;
      NoSectionYet(lines[..n]);
      WarningStep(Parsed(lines[..n]), n, lines[n]);
      assert forall j | 0 <= j < n :: lines[..n][j] == lines[j];
    }
  }

  /** THE WARNINGS OF A FILE, EXACTLY: one for each line that is wrong, with its number and its text. */
  lemma {:induction false} WarningsExactly(lines: seq<string>, w: ParseWarning)
    ensures w in Parsed(lines).warnings <==>
            1 <= w.line <= |lines| && w.text == lines[w.line - 1] && Wrong(lines, w.line - 1, w.reason)
  {
    hide *;
    if lines == [] {
      NothingSeen();
      NoWarnings();
    } else {
      var n := |lines| - 1;
      WarningsExactly(lines[..n], w);
      WarningStep(Parsed(lines[..n]), n, lines[n]);
      ParsedNext(lines, n);
      assert lines[..n + 1] == lines;
      NoSectionYet(lines[..n]);
      LastWrong(lines, w.reason);
      if 1 <= w.line <= n {
        WrongPrefix(lines, w.line - 1, w.reason);
      }
    }
  }

  lemma NoWarnings()
    ensures Parsed([]).warnings == []
  {
  }

  lemma LastWrong(lines: seq<string>, reason: Reason)
    requires lines != []
    ensures var n := |lines| - 1;
            Wrong(lines, n, reason) <==>
            match reason
            case EntryHasNoKey => Classify(lines[n]).NoKey?
            case EntryBeforeHeader =>
              Classify(lines[n]).Entry? && forall j | 0 <= j < n :: !IsHeader(Trim(lines[..n][j]))
            case UnrecognisedLine => Classify(lines[n]).Unrecognised?
  {
    hide Classify, Trim, IsHeader;
    var n := |lines| - 1;
    assert forall j | 0 <= j < n :: lines[..n][j] == lines[j];
  }
}
