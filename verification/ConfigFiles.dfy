/** Reading a generated config: internal/domain/bepinex.go, lines 10-48, 167-356 and 407-446. */
module ConfigFiles {
  import opened Text
  import opened Wrappers
  import opened Overrides
  import opened ConfigLines

  datatype SettingRange = SettingRange(from: string, to: string)

  datatype Setting = Setting(
    section: string,
    name: string,
    description: string,
    typ: string,
    default_: string,
    hasDefault: bool,
    acceptable: seq<string>,
    range: Option<SettingRange>,
    multipleValues: bool,
    value: string,
    orphaned: bool,
    lineIndex: nat,
    separator: string)
  {
    function Key(): SettingKey {
      SettingKey(section, name)
    }
  }

  const NO_SETTING := Setting("", "", "", "", "", false, [], None, false, "", false, 0, "")

  datatype ConfigSection = ConfigSection(name: string, settings: seq<Setting>)

  /** "entry has no key", "entry before any section header", "unrecognised line". */
  datatype Reason = EntryHasNoKey | EntryBeforeHeader | UnrecognisedLine

  datatype ParseWarning = ParseWarning(line: nat, text: string, reason: Reason)

  datatype ConfigFile = ConfigFile(
    name: string,
    headerLines: seq<string>,
    pluginName: string,
    pluginVersion: string,
    pluginGUID: string,
    sections: seq<ConfigSection>,
    warnings: seq<ParseWarning>,
    lines: seq<string>)

  /** The file so far, and what is remembered for the next entry. */
  datatype ParseState = ParseState(
    headerLines: seq<string>,
    pluginName: string,
    pluginVersion: string,
    pluginGUID: string,
    sections: seq<ConfigSection>,
    warnings: seq<ParseWarning>,
    desc: seq<string>,
    pending: Setting,
    havePending: bool,
    seenSection: bool)
  {
    function Reset(): ParseState {
      this.(desc := [], pending := NO_SETTING, havePending := false)
    }

    function Warn(i: nat, raw: string, reason: Reason): ParseState {
      this.(warnings := warnings + [ParseWarning(i + 1, raw, reason)]).Reset()
    }
  }

  const START := ParseState([], "", "", "", [], [], [], NO_SETTING, false, false)

  /** strings.Index: the first place p occurs in s at or after i, or |s| + 1. */
  function Find(s: string, p: string, i: nat): nat
    requires i <= |s|
    decreases |s| - i
  {
    if p <= s[i..] then i
    else if i == |s| then |s| + 1
    else Find(s, p, i + 1)
  }

  /** strings.LastIndex, None when absent. */
  function FindLast(s: string, p: string, i: nat): (r: Option<nat>)
    requires i <= |s|
    ensures r.Some? ==> r.value + |p| <= |s|
  {
    if p <= s[i..] then Some(i) else if i == 0 then None else FindLast(s, p, i - 1)
  }

  function CutPrefix(s: string, p: string): Option<string> {
    if p <= s then Some(Trim(s[|p|..])) else None
  }

  function CreatedBy(text: string): Option<(string, string)> {
    var rest := CutPrefix(text, "Settings file was created by plugin ");
    if rest.Some? then Some(SplitPluginAndVersion(rest.value)) else None
  }

  function PluginGUID(text: string): Option<string> {
    CutPrefix(text, "Plugin GUID: ")
  }

  function SplitPluginAndVersion(s: string): (string, string) {
    match FindLast(s, " v", |s|)
    case None => (Trim(s), "")
    case Some(i) => (Trim(s[..i]), Trim(s[i + 2..]))
  }

  function ParseRange(s: string): Option<SettingRange> {
    if !("From " <= s) then None
    else
      var rest := Trim(s[5..]);
      var i := Find(rest, " to ", 0);
      if i + 4 > |rest| then None
      else Some(SettingRange(Trim(rest[..i]), Trim(rest[i + 4..])))
  }

  function TrimmedParts(parts: seq<string>): seq<string> {
    if parts == [] then []
    else
      var p := Trim(parts[|parts| - 1]);
      TrimmedParts(parts[..|parts| - 1]) + if p != "" then [p] else []
  }

  function SplitAcceptable(s: string): seq<string> {
    TrimmedParts(Split(s, ','))
  }

  /** What a "# key: value" comment says about the entry below it. */
  function Describe(s: Setting, meta: string): Setting {
    var typ := CutPrefix(meta, "Setting type:");
    if typ.Some? then s.(typ := typ.value) else
    var def := CutPrefix(meta, "Default value:");
    if def.Some? then s.(default_ := def.value, hasDefault := true) else
    var rng := CutPrefix(meta, "Acceptable value range:");
    if rng.Some? then s.(range := ParseRange(rng.value)) else
    var acc := CutPrefix(meta, "Acceptable values:");
    if acc.Some? then s.(acceptable := SplitAcceptable(acc.value)) else
    if HasPrefix(meta, "Multiple values can be set at the same time") then s.(multipleValues := true) else
    s
  }

  function FileHeader(st: ParseState, raw: string, text: string): ParseState {
    var created, guid := CreatedBy(text), PluginGUID(text);
    st.(headerLines := st.headerLines + [raw],
        pluginName := if created.Some? then created.value.0 else st.pluginName,
        pluginVersion := if created.Some? then created.value.1 else st.pluginVersion,
        pluginGUID := if guid.Some? then guid.value else st.pluginGUID)
  }

  /** The entry a line declares, with everything the comments above said of it. */
  function Declared(st: ParseState, i: nat, key: string, sep: string, value: string): Setting
    requires st.sections != []
  {
    st.pending.(
      section := st.sections[|st.sections| - 1].name,
      name := key,
      value := value,
      description := Join(st.desc, "\n"),
      orphaned := !st.havePending,
      lineIndex := i,
      separator := sep)
  }

  function AddSetting(sections: seq<ConfigSection>, s: Setting): seq<ConfigSection>
    requires sections != []
  {
    var last := sections[|sections| - 1];
    sections[|sections| - 1 := last.(settings := last.settings + [s])]
  }

  /** One turn of the parser's loop. */
  function Step(st: ParseState, i: nat, raw: string): ParseState {
    match Classify(raw)
    case Blank => st
    case Doc(text) =>
      if !st.seenSection then FileHeader(st, raw, text)
      else st.(desc := st.desc + [text], havePending := true)
    case Meta(meta) => st.(pending := Describe(st.pending, meta), havePending := true)
    case Header(name) =>
      st.(seenSection := true, sections := st.sections + [ConfigSection(name, [])]).Reset()
    case NoKey => st.Warn(i, raw, EntryHasNoKey)
    case Entry(key, sep, value) =>
      if st.sections == [] then st.Warn(i, raw, EntryBeforeHeader)
      else st.(sections := AddSetting(st.sections, Declared(st, i, key, sep, value))).Reset()
    case Unrecognised => st.Warn(i, raw, UnrecognisedLine)
  }

  function Parsed(lines: seq<string>): ParseState {
    if lines == [] then START
    else Step(Parsed(lines[..|lines| - 1]), |lines| - 1, lines[|lines| - 1])
  }

  /** The lines a file is kept as: none for an empty file. */
  function FileLines(body: string): seq<string> {
    if Normalise(body) == "" then [] else Split(Normalise(body), '\n')
  }

  function FileOf(name: string, lines: seq<string>): ConfigFile {
    var st := Parsed(lines);
    ConfigFile(name, st.headerLines, st.pluginName, st.pluginVersion, st.pluginGUID,
               st.sections, st.warnings, lines)
  }

  /** ParseConfigFile: one pass over the lines. */
  method ParseConfigFile(name: string, body: string) returns (f: ConfigFile)
    ensures f == FileOf(name, FileLines(body))
  {
    hide *;
    var normalised := Normalise(body);
    FileIs(name, body);
    if normalised == "" {
      return ConfigFile(name, [], "", "", "", [], [], []);
    }
    var lines := Split(normalised, '\n');
    StartParsed(lines);
    var headerLines, pluginName, pluginVersion, pluginGUID := [], "", "", "";
    var sections, warnings := [], [];
    var desc, pending, havePending, seenSection := [], NO_SETTING, false, false;
    for i := 0 to |lines|
      invariant Parsed(lines[..i]) ==
                ParseState(headerLines, pluginName, pluginVersion, pluginGUID,
                           sections, warnings, desc, pending, havePending, seenSection)
    {
      ParsedNext(lines, i);
      var raw := lines[i];
      ghost var st := Parsed(lines[..i]);
      StepCases(st, i, raw);
      match Classify(raw) {
        case Blank =>
        case Doc(text) =>
          FileHeaderIs(st, raw, text);
          if !seenSection {
            headerLines := headerLines + [raw];
            var created := CreatedBy(text);
            if created.Some? {
              pluginName, pluginVersion := created.value.0, created.value.1;
            }
            var guid := PluginGUID(text);
            if guid.Some? {
              pluginGUID := guid.value;
            }
          } else {
            desc := desc + [text];
            havePending := true;
          }
        case Meta(meta) =>
          pending := Describe(pending, meta);
          havePending := true;
        case Header(header) =>
          seenSection := true;
          sections := sections + [ConfigSection(header, [])];
          desc, pending, havePending := [], NO_SETTING, false;
        case NoKey =>
          warnings := warnings + [ParseWarning(i + 1, raw, EntryHasNoKey)];
          desc, pending, havePending := [], NO_SETTING, false;
        case Entry(key, sep, value) =>
          var cur := |sections| - 1;
          if cur < 0 {
            warnings := warnings + [ParseWarning(i + 1, raw, EntryBeforeHeader)];
          } else {
            DeclaredIs(st, i, key, sep, value);
            pending := pending.(section := sections[cur].name, name := key, value := value,
                                description := Join(desc, "\n"), orphaned := !havePending,
                                lineIndex := i, separator := sep);
            sections := sections[cur := sections[cur].(settings := sections[cur].settings + [pending])];
          }
          desc, pending, havePending := [], NO_SETTING, false;
        case Unrecognised =>
          warnings := warnings + [ParseWarning(i + 1, raw, UnrecognisedLine)];
          desc, pending, havePending := [], NO_SETTING, false;
      }
    }
    return ConfigFile(name, headerLines, pluginName, pluginVersion, pluginGUID, sections, warnings, lines);
  }

  lemma FileIs(name: string, body: string)
    ensures var lines := if Normalise(body) == "" then [] else Split(Normalise(body), '\n');
            var st := Parsed(lines);
            FileOf(name, FileLines(body)) ==
            ConfigFile(name, st.headerLines, st.pluginName, st.pluginVersion, st.pluginGUID, st.sections, st.warnings,
                       lines)
    ensures Parsed([]) == ParseState([], "", "", "", [], [], [], NO_SETTING, false, false)
  {
    hide Normalise, Split, Step;
  }

  lemma StartParsed(lines: seq<string>)
    ensures Parsed(lines[..0]) == ParseState([], "", "", "", [], [], [], NO_SETTING, false, false)
    ensures lines[..|lines|] == lines
  {
  }

  lemma FileHeaderIs(st: ParseState, raw: string, text: string)
    ensures var created, guid := CreatedBy(text), PluginGUID(text);
            FileHeader(st, raw, text) ==
            st.(headerLines := st.headerLines + [raw],
                pluginName := if created.Some? then created.value.0 else st.pluginName,
                pluginVersion := if created.Some? then created.value.1 else st.pluginVersion,
                pluginGUID := if guid.Some? then guid.value else st.pluginGUID)
  {
    hide CreatedBy, PluginGUID;
  }

  /** The sections with the entry a line declares in the last one. */
  lemma DeclaredIs(st: ParseState, i: nat, key: string, sep: string, value: string)
    requires st.sections != []
    ensures var cur := |st.sections| - 1;
            AddSetting(st.sections, Declared(st, i, key, sep, value)) ==
            st.sections[cur := st.sections[cur].(settings := st.sections[cur].settings +
              [st.pending.(section := st.sections[cur].name, name := key, value := value,
                           description := Join(st.desc, "\n"), orphaned := !st.havePending,
                           lineIndex := i, separator := sep)])]
  {
    hide Join;
  }

  /** The cases of one turn, spelled out for the loop. */
  lemma StepCases(st: ParseState, i: nat, raw: string)
    ensures match Classify(raw)
            case Blank => Step(st, i, raw) == st
            case Doc(text) =>
              Step(st, i, raw) ==
              if !st.seenSection then FileHeader(st, raw, text)
              else st.(desc := st.desc + [text], havePending := true)
            case Meta(meta) =>
              Step(st, i, raw) == st.(pending := Describe(st.pending, meta), havePending := true)
            case Header(name) =>
              Step(st, i, raw) ==
              st.(seenSection := true, sections := st.sections + [ConfigSection(name, [])],
                  desc := [], pending := NO_SETTING, havePending := false)
            case NoKey =>
              Step(st, i, raw) ==
              st.(warnings := st.warnings + [ParseWarning(i + 1, raw, EntryHasNoKey)],
                  desc := [], pending := NO_SETTING, havePending := false)
            case Entry(key, sep, value) =>
              Step(st, i, raw) ==
              if st.sections == []
              then st.(warnings := st.warnings + [ParseWarning(i + 1, raw, EntryBeforeHeader)],
                       desc := [], pending := NO_SETTING, havePending := false)
              else st.(sections := AddSetting(st.sections, Declared(st, i, key, sep, value)),
                       desc := [], pending := NO_SETTING, havePending := false)
            case Unrecognised =>
              Step(st, i, raw) ==
              st.(warnings := st.warnings + [ParseWarning(i + 1, raw, UnrecognisedLine)],
                  desc := [], pending := NO_SETTING, havePending := false)
  {
    hide Classify, FileHeader, Describe, AddSetting, Declared;
  }

  lemma ParsedNext(lines: seq<string>, i: nat)
    requires i < |lines|
    ensures Parsed(lines[..i + 1]) == Step(Parsed(lines[..i]), i, lines[i])
  {
    assert lines[..i + 1][..i] == lines[..i];
  }

  function Render(f: ConfigFile): string {
    if f.lines == [] then "" else Join(f.lines, "\n")
  }

  /** ConfigFile.Settings: every setting, in file order. */
  function Flat(sections: seq<ConfigSection>): seq<Setting> {
    if sections == [] then [] else Flat(sections[..|sections| - 1]) + sections[|sections| - 1].settings
  }

  /** The last setting of every key: the index Merge builds. */
  function Latest(ss: seq<Setting>): map<SettingKey, Setting> {
    if ss == [] then map[] else Latest(ss[..|ss| - 1])[ss[|ss| - 1].Key() := ss[|ss| - 1]]
  }

  function ValuesOf(m: map<SettingKey, Setting>): Items {
    map k | k in m :: m[k].value
  }

  /** The settings a config text declares, as the parser finds them. */
  function Settings(body: string): Items {
    ValuesOf(Latest(Flat(FileOf("", FileLines(body)).sections)))
  }

  function SectionNames(sections: seq<ConfigSection>): set<string> {
    if sections == [] then {} else SectionNames(sections[..|sections| - 1]) + {sections[|sections| - 1].name}
  }

  function FirstNamed(ss: seq<Setting>, name: string): Option<Setting> {
    if ss == [] then None else if ss[0].name == name then Some(ss[0]) else FirstNamed(ss[1..], name)
  }

  /** ConfigFile.Lookup: the first setting of a key, unlike the index, which keeps the last. */
  function LookupIn(sections: seq<ConfigSection>, k: SettingKey): Option<Setting> {
    if sections == [] then None
    else
      var found := if sections[0].name == k.section then FirstNamed(sections[0].settings, k.name) else None;
      if found.Some? then found else LookupIn(sections[1..], k)
  }

  method Lookup(f: ConfigFile, section: string, name: string) returns (r: Option<Setting>)
    ensures r == LookupIn(f.sections, SettingKey(section, name))
  {
    var k := SettingKey(section, name);
    for i := 0 to |f.sections|
      invariant LookupIn(f.sections, k) == LookupIn(f.sections[i..], k)
    {
      var sec := f.sections[i];
      if sec.name != section {
        continue;
      }
      for j := 0 to |sec.settings|
        invariant FirstNamed(sec.settings, name) == FirstNamed(sec.settings[j..], name)
      {
        if sec.settings[j].name == name {
          return Some(sec.settings[j]);
        }
      }
    }
    return None;
  }

  // ---- the parser against the lines ------------------------------------------

  /** The setting line i of a file sets, if it is an entry below a header. */
  function KeyAt(lines: seq<string>, i: nat): Option<SettingKey>
    requires i < |lines|
  {
    var section := Section(lines[..i], None);
    if Classify(lines[i]).Entry? && section.Some? then Some(SettingKey(section.value, Classify(lines[i]).key))
    else None
  }

  /** s records line s.lineIndex: its key, its exact separator and its value. */
  ghost predicate Records(lines: seq<string>, s: Setting) {
    s.lineIndex < |lines| && KeyAt(lines, s.lineIndex) == Some(s.Key())
    && Classify(lines[s.lineIndex]) == Entry(s.name, s.separator, s.value)
  }

  lemma {:induction false} FlatAppend(a: seq<ConfigSection>, b: ConfigSection)
    ensures Flat(a + [b]) == Flat(a) + b.settings
    ensures SectionNames(a + [b]) == SectionNames(a) + {b.name}
  {
    assert (a + [b])[..|a|] == a;
  }

  lemma FlatAdd(sections: seq<ConfigSection>, s: Setting)
    requires sections != []
    ensures Flat(AddSetting(sections, s)) == Flat(sections) + [s]
    ensures SectionNames(AddSetting(sections, s)) == SectionNames(sections)
  {
    assert AddSetting(sections, s)[..|sections| - 1] == sections[..|sections| - 1];
  }

  /** How one turn of the loop changes the sections. */
  lemma StepSections(st: ParseState, i: nat, raw: string)
    ensures var r, line := Step(st, i, raw).sections, Classify(raw);
            r == if line.Header? then st.sections + [ConfigSection(line.name, [])]
                 else if line.Entry? && st.sections != []
                 then AddSetting(st.sections, Declared(st, i, line.key, line.sep, line.value))
                 else st.sections
  {
    hide Classify, Describe, AddSetting, Declared, CreatedBy, PluginGUID;
  }

  lemma NothingParsed()
    ensures Parsed([]).sections == [] && Flat([]) == [] && Latest([]) == map[]
    ensures Section([], None) == None && Values([], None) == map[]
    ensures SectionNames([]) == {} && Headers([]) == {}
  {
  }

  /** The section the parser is in is the one the lines leave open. */
  lemma {:induction false} ParsedSections(lines: seq<string>)
    ensures var ss := Parsed(lines).sections;
            && Section(lines, None) == (if ss == [] then None else Some(ss[|ss| - 1].name))
            && SectionNames(ss) == Headers(lines)
  {
    hide *;
    if lines == [] {
      NothingParsed();
      return;
    }
    var before, raw := lines[..|lines| - 1], lines[|lines| - 1];
    var st, line := Parsed(before), Classify(raw);
    ParsedSections(before);
    ParsedNext(lines, |lines| - 1);
    assert lines[..|lines|] == lines == before + [raw];
    StepSections(st, |lines| - 1, raw);
    LastLine(before, raw, None);
    OpensCases(line, Section(before, None));
    if line.Header? {
      FlatAppend(st.sections, ConfigSection(line.name, []));
    } else if line.Entry? && st.sections != [] {
      AddSettingKeeps(st.sections, Declared(st, |lines| - 1, line.key, line.sep, line.value));
    }
  }

  lemma OpensCases(line: Line, cur: Option<string>)
    ensures Opens(line, cur) == if line.Header? then Some(line.name) else cur
  {
  }

  lemma AddSettingKeeps(sections: seq<ConfigSection>, s: Setting)
    requires sections != []
    ensures var r := AddSetting(sections, s);
            && r != [] && r[|r| - 1].name == sections[|sections| - 1].name
            && SectionNames(r) == SectionNames(sections)
  {
    FlatAdd(sections, s);
  }

  /** One line adds exactly the setting it declares, or none. */
  lemma SettingsStep(lines: seq<string>)
    requires lines != []
    ensures var before, raw := lines[..|lines| - 1], lines[|lines| - 1];
            var old_, new_ := Flat(Parsed(before).sections), Flat(Parsed(lines).sections);
            if KeyAt(lines, |lines| - 1) == None then new_ == old_
            else
              && |new_| == |old_| + 1 && new_[..|old_|] == old_
              && Records(lines, new_[|old_|]) && new_[|old_|].lineIndex == |lines| - 1
  {
    hide Classify, Describe, AddSetting, SectionNames, Step, Flat;
    var before, st := lines[..|lines| - 1], Parsed(lines[..|lines| - 1]);
    ParsedSections(before);
    StepSections(st, |lines| - 1, lines[|lines| - 1]);
    var line := Classify(lines[|lines| - 1]);
    if line.Header? {
      FlatAppend(st.sections, ConfigSection(line.name, []));
      assert Flat(st.sections) + [] == Flat(st.sections);
    } else if line.Entry? && st.sections != [] {
      FlatAdd(st.sections, Declared(st, |lines| - 1, line.key, line.sep, line.value));
    }
  }

  lemma RecordsPrefix(lines: seq<string>, n: nat, s: Setting)
    requires n <= |lines| && Records(lines[..n], s)
    ensures Records(lines, s)
  {
    assert lines[..n][..s.lineIndex] == lines[..s.lineIndex];
  }

  ghost predicate Indexed(lines: seq<string>, ss: seq<Setting>) {
    && (forall i | 0 <= i < |ss| :: Records(lines, ss[i]))
    && (forall i, j | 0 <= i < j < |ss| :: ss[i].lineIndex < ss[j].lineIndex)
  }

  lemma IndexedStep(lines: seq<string>, old_: seq<Setting>, new_: seq<Setting>)
    requires lines != [] && Indexed(lines[..|lines| - 1], old_)
    requires new_ == old_ || (|new_| == |old_| + 1 && new_[..|old_|] == old_
                              && Records(lines, new_[|old_|]) && new_[|old_|].lineIndex == |lines| - 1)
    ensures Indexed(lines, new_)
  {
    hide Records;
    forall i | 0 <= i < |old_|
      ensures Records(lines, new_[i]) && new_[i].lineIndex == old_[i].lineIndex < |lines| - 1
    {
      assert new_[i] == new_[..|old_|][i] == old_[i];
      RecordsPrefix(lines, |lines| - 1, old_[i]);
      RecordsInside(lines[..|lines| - 1], old_[i]);
    }
  }

  lemma IndexedNothing()
    ensures Indexed([], []) && IsIndex([], map[])
  {
  }

  lemma {:induction false} SettingsRecord(lines: seq<string>)
    ensures Indexed(lines, Flat(Parsed(lines).sections))
  {
    hide *;
    if lines == [] {
      NothingParsed();
      IndexedNothing();
      return;
    }
    SettingsRecord(lines[..|lines| - 1]);
    SettingsStep(lines);
    IndexedStep(lines, Flat(Parsed(lines[..|lines| - 1]).sections), Flat(Parsed(lines).sections));
  }

  lemma RecordsInside(lines: seq<string>, s: Setting)
    requires Records(lines, s)
    ensures s.lineIndex < |lines|
  {
  }

  lemma {:induction false} SettingsComplete(lines: seq<string>, i: nat) returns (j: nat)
    requires i < |lines| && KeyAt(lines, i).Some?
    ensures var ss := Flat(Parsed(lines).sections); j < |ss| && ss[j].lineIndex == i
  {
    hide *;
    var n := |lines| - 1;
    SettingsStep(lines);
    var old_, new_ := Flat(Parsed(lines[..n]).sections), Flat(Parsed(lines).sections);
    if i < n {
      KeyAtPrefix(lines, n, i);
      j := SettingsComplete(lines[..n], i);
      assert new_[..|old_|] == old_ || new_ == old_;
      assert new_[j] == old_[j];
    } else {
      j := |old_|;
    }
  }

  /** Frame: line indices are in bounds and strictly increasing, every setting records its
      line, and every entry below a header is recorded. */
  lemma SettingsIndexed(lines: seq<string>)
    ensures var ss := Flat(Parsed(lines).sections);
            && Indexed(lines, ss)
            && (forall i | 0 <= i < |lines| && KeyAt(lines, i).Some? ::
                  exists j :: 0 <= j < |ss| && ss[j].lineIndex == i)
  {
    hide *;
    SettingsRecord(lines);
    forall i | 0 <= i < |lines| && KeyAt(lines, i).Some?
      ensures var ss := Flat(Parsed(lines).sections); exists j :: 0 <= j < |ss| && ss[j].lineIndex == i
    {
      var j := SettingsComplete(lines, i);
    }
  }

  lemma KeyAtPrefix(lines: seq<string>, n: nat, i: nat)
    requires i < n <= |lines|
    ensures KeyAt(lines[..n], i) == KeyAt(lines, i)
  {
    assert lines[..n][..i] == lines[..i];
  }

  /** No line after i sets k. */
  ghost predicate LastAt(lines: seq<string>, i: nat, k: SettingKey) {
    i < |lines| && KeyAt(lines, i) == Some(k)
    && forall j | i < j < |lines| :: KeyAt(lines, j) != Some(k)
  }

  lemma ValuesOfNothing()
    ensures ValuesOf(map[]) == map[]
  {
  }

  lemma LatestStep(old_: seq<Setting>, new_: seq<Setting>)
    requires |new_| == |old_| + 1 && new_[..|old_|] == old_
    ensures Latest(new_) == Latest(old_)[new_[|old_|].Key() := new_[|old_|]]
    ensures ValuesOf(Latest(new_)) == ValuesOf(Latest(old_))[new_[|old_|].Key() := new_[|old_|].value]
  {
  }

  /** The index says what the lines say. */
  lemma {:induction false} LatestValues(lines: seq<string>)
    ensures ValuesOf(Latest(Flat(Parsed(lines).sections))) == Values(lines, None)
  {
    hide *;
    if lines == [] {
      NothingParsed();
      ValuesOfNothing();
      return;
    }
    var n := |lines| - 1;
    LatestValues(lines[..n]);
    SettingsStep(lines);
    LastSets(lines);
    var old_, new_ := Flat(Parsed(lines[..n]).sections), Flat(Parsed(lines).sections);
    if KeyAt(lines, n).Some? {
      LatestStep(old_, new_);
      RecordsWhat(lines, new_[|old_|]);
    }
  }

  lemma RecordsWhat(lines: seq<string>, s: Setting)
    requires Records(lines, s)
    ensures s.lineIndex < |lines| && KeyAt(lines, s.lineIndex) == Some(s.Key())
    ensures Classify(lines[s.lineIndex]) == Entry(s.name, s.separator, s.value)
  {
  }

  ghost predicate IndexEntry(lines: seq<string>, k: SettingKey, s: Setting) {
    s.Key() == k && Records(lines, s) && LastAt(lines, s.lineIndex, k)
  }

  ghost predicate IsIndex(lines: seq<string>, m: map<SettingKey, Setting>) {
    forall k | k in m :: IndexEntry(lines, k, m[k])
  }

  lemma IndexStep(lines: seq<string>, a: map<SettingKey, Setting>, b: map<SettingKey, Setting>, s: Setting)
    requires lines != [] && IsIndex(lines[..|lines| - 1], a)
    requires b == a[s.Key() := s] && Records(lines, s) && s.lineIndex == |lines| - 1
    ensures IsIndex(lines, b)
  {
    RecordsWhat(lines, s);
    IndexEntryNew(lines, s);
    hide IndexEntry, Records, KeyAt;
    forall k | k in b && k != s.Key() ensures IndexEntry(lines, k, b[k]) {
      IndexEntryKept(lines, k, a[k]);
    }
  }

  lemma IndexSkip(lines: seq<string>, a: map<SettingKey, Setting>)
    requires lines != [] && IsIndex(lines[..|lines| - 1], a) && KeyAt(lines, |lines| - 1) == None
    ensures IsIndex(lines, a)
  {
    hide IndexEntry, KeyAt;
    forall k | k in a ensures IndexEntry(lines, k, a[k]) {
      IndexEntryKept(lines, k, a[k]);
    }
  }

  /** The index is last-wins. */
  lemma {:induction false} LatestIsLast(lines: seq<string>)
    ensures IsIndex(lines, Latest(Flat(Parsed(lines).sections)))
  {
    hide *;
    if lines == [] {
      NothingParsed();
      IndexedNothing();
      return;
    }
    var before := lines[..|lines| - 1];
    LatestIsLast(before);
    SettingsStep(lines);
    var old_, new_ := Flat(Parsed(before).sections), Flat(Parsed(lines).sections);
    if KeyAt(lines, |lines| - 1) == None {
      IndexSkip(lines, Latest(old_));
    } else {
      LatestStep(old_, new_);
      IndexStep(lines, Latest(old_), Latest(new_), new_[|old_|]);
    }
  }

  lemma IndexEntryNew(lines: seq<string>, s: Setting)
    requires Records(lines, s) && s.lineIndex == |lines| - 1
    ensures IndexEntry(lines, s.Key(), s)
  {
    hide KeyAt, Classify;
  }

  lemma IndexEntryKept(lines: seq<string>, k: SettingKey, s: Setting)
    requires lines != [] && IndexEntry(lines[..|lines| - 1], k, s) && KeyAt(lines, |lines| - 1) != Some(k)
    ensures IndexEntry(lines, k, s)
  {
    hide KeyAt, Classify, Records;
    RecordsPrefix(lines, |lines| - 1, s);
    LastAtPrefix(lines, s.lineIndex, k);
  }

  lemma LastAtPrefix(lines: seq<string>, i: nat, k: SettingKey)
    requires lines != [] && LastAt(lines[..|lines| - 1], i, k) && KeyAt(lines, |lines| - 1) != Some(k)
    ensures LastAt(lines, i, k)
  {
    hide KeyAt;
    forall j | i <= j < |lines| - 1 ensures KeyAt(lines[..|lines| - 1], j) == KeyAt(lines, j) {
      KeyAtPrefix(lines, |lines| - 1, j);
    }
  }

  /** What the last line adds to the values. */
  lemma LastSets(lines: seq<string>)
    requires lines != []
    ensures var n := |lines| - 1;
            Values(lines, None) ==
            if KeyAt(lines, n) == None then Values(lines[..n], None)
            else Values(lines[..n], None)[KeyAt(lines, n).value := Classify(lines[n]).value]
  {
    hide Classify;
  }

  /** The parser's map of a text is the map its lines spell. */
  lemma SettingsOfLines(body: string)
    ensures Settings(body) == Values(FileLines(body), None)
  {
    LatestValues(FileLines(body));
  }

  /** Frame: rendering gives back the file with its line breaks normalised. */
  lemma RenderIsNormalised(name: string, body: string)
    ensures Render(FileOf(name, FileLines(body))) == Normalise(body)
  {
    JoinSplit(Normalise(body), '\n');
  }
}
