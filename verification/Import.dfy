/** Importing a pasted config: internal/domain/bepinex_import.go, and the checks of
    internal/domain/bepinex.go, lines 106-165 and 336-348. */
module Import {
  import opened Text
  import opened Wrappers
  import opened Overrides
  import opened ConfigLines
  import opened ConfigFiles
  import opened OverrideText
  import Order

  /** strconv's parsers: which texts they accept, and how accepted numbers compare. */
  datatype Numbers = Numbers(isInt: string -> bool, isFloat: string -> bool, less: (string, string) -> bool)

  predicate EqualFold(a: string, b: string) {
    ToLower(a) == ToLower(b)
  }

  predicate IsIntegerType(t: string) {
    ToLower(t) in ["int32", "int64", "int16", "byte", "sbyte", "uint32", "uint64", "uint16"]
  }

  predicate IsFloatType(t: string) {
    ToLower(t) in ["single", "double", "decimal", "float"]
  }

  predicate Accepts(acceptable: seq<string>, v: string) {
    exists a | a in acceptable :: EqualFold(a, v)
  }

  /** Why a value is refused, with what the message names. */
  datatype Refusal =
    | NotOneOf(value: string, acceptable: seq<string>)
    | NotBoolean(value: string)
    | NotWhole(value: string)
    | NotNumber(value: string)
    | OutOfRange(value: string, from: string, to: string)

  /** The first part of a list that is neither blank nor acceptable. */
  function FirstRefused(acceptable: seq<string>, parts: seq<string>): Option<string> {
    if parts == [] then None
    else if Trim(parts[0]) == "" || Accepts(acceptable, Trim(parts[0])) then FirstRefused(acceptable, parts[1..])
    else Some(Trim(parts[0]))
  }

  /** Setting.Validate: None when v is accepted. */
  function Refuses(s: Setting, n: Numbers, value: string): Option<Refusal> {
    var v := Trim(value);
    if s.hasDefault && v == Trim(s.default_) then None
    else if s.acceptable != [] && !s.multipleValues then
      if Accepts(s.acceptable, v) then None else Some(NotOneOf(v, s.acceptable))
    else if s.multipleValues then
      var part := FirstRefused(s.acceptable, Split(v, ','));
      if part.Some? then Some(NotOneOf(part.value, s.acceptable)) else None
    else if EqualFold(s.typ, "Boolean") then
      if EqualFold(v, "true") || EqualFold(v, "false") then None else Some(NotBoolean(v))
    else if IsIntegerType(s.typ) && !n.isInt(v) then Some(NotWhole(v))
    else if !IsIntegerType(s.typ) && IsFloatType(s.typ) && !n.isFloat(v) then Some(NotNumber(v))
    else if s.range.Some? then
      var SettingRange(from, to) := s.range.value;
      if !n.isFloat(v) then Some(NotNumber(v))
      else if n.isFloat(from) && n.isFloat(to) && (n.less(v, from) || n.less(to, v)) then Some(OutOfRange(v, from, to))
      else None
    else None
  }

  predicate Validate(s: Setting, n: Numbers, value: string) {
    Refuses(s, n, value).None?
  }

  datatype ImportStatus = ImportApply | ImportSame | ImportUnmatched | ImportRejected

  datatype Reason = NoReason | NotDeclared | SameAsDefault | SameAsCurrent | Refused(why: Refusal)

  datatype ImportEntry = ImportEntry(
    section: string,
    name: string,
    value: string,
    current: string,
    default_: string,
    status: ImportStatus,
    reason: Reason)
  {
    function Key(): SettingKey {
      SettingKey(section, name)
    }

    predicate Wanted() {
      status == ImportApply || status == ImportUnmatched
    }

    function Override(): Override {
      Overrides.Override(section, name, value)
    }
  }

  /** What a pasted setting means for the generated file. */
  function Judge(f: ConfigFile, n: Numbers, s: Setting): ImportEntry {
    var value := Trim(s.value);
    match LookupIn(f.sections, s.Key())
    case None => ImportEntry(s.section, s.name, value, "", "", ImportUnmatched, NotDeclared)
    case Some(known) =>
      var current, def := Trim(known.value), Trim(known.default_);
      var (status, reason) :=
        if value == (if known.hasDefault then def else current) then
          (ImportSame, if known.hasDefault then SameAsDefault else SameAsCurrent)
        else
          match Refuses(known, n, value)
          case Some(why) => (ImportRejected, Refused(why))
          case None => (ImportApply, NoReason);
      ImportEntry(s.section, s.name, value, current, def, status, reason)
  }

  function JudgeAll(f: ConfigFile, n: Numbers, ss: seq<Setting>): (r: seq<ImportEntry>)
    ensures |r| == |ss| && forall i | 0 <= i < |ss| :: r[i] == Judge(f, n, ss[i])
  {
    if ss == [] then [] else JudgeAll(f, n, ss[..|ss| - 1]) + [Judge(f, n, ss[|ss| - 1])]
  }

  predicate EntryLess(a: ImportEntry, b: ImportEntry) {
    KeyLess(a.Key(), b.Key())
  }

  /** sort.SliceStable by section and name. */
  function StableSorted(s: seq<ImportEntry>): seq<ImportEntry> {
    if s == [] then [] else Order.Place(StableSorted(s[..|s| - 1]), EntryLess, s[|s| - 1])
  }

  /** ImportPlan.Overrides: the Apply and Unmatched entries, the last of a key winning. */
  function Imported(s: seq<ImportEntry>): Items {
    if s == [] then map[]
    else
      var e := s[|s| - 1];
      if e.Wanted() then Imported(s[..|s| - 1])[e.Key() := e.value] else Imported(s[..|s| - 1])
  }

  function Plan(f: ConfigFile, n: Numbers, pasted: string): seq<ImportEntry> {
    StableSorted(JudgeAll(f, n, Pasted(pasted)))
  }

  datatype ImportPlan = ImportPlan(
    pluginName: string,
    pluginVersion: string,
    pluginGUID: string,
    parsed: bool,
    entries: seq<ImportEntry>)

  function PlanOf(f: ConfigFile, n: Numbers, pasted: string): ImportPlan {
    var g := FileOf("", FileLines(pasted));
    ImportPlan(g.pluginName, g.pluginVersion, g.pluginGUID, Flat(g.sections) != [], Plan(f, n, pasted))
  }

  /** The preview of a paste: what it says of its plugin, whether it holds a setting, and every one of
      its settings in order. */
  method PlanImport(f: ConfigFile, n: Numbers, pasted: string) returns (plan: ImportPlan)
    ensures plan == PlanOf(f, n, pasted)
  {
    hide *;
    PlanOfIs(f, n, pasted);
    var incoming := ParseConfigFile("", pasted);
    var entries: seq<ImportEntry> := [];
    var ss := Flat(incoming.sections);
    NothingJudged(f, n, ss);
    for i := 0 to |ss|
      invariant entries == JudgeAll(f, n, ss[..i])
    {
      JudgeStep(f, n, ss, i);
      var in_ := ss[i];
      JudgeCases(f, n, in_);
      var value := Trim(in_.value);
      var known := Lookup(f, in_.section, in_.name);
      if known == None {
        entries := entries + [ImportEntry(in_.section, in_.name, value, "", "", ImportUnmatched, NotDeclared)];
        continue;
      }
      var current, def := Trim(known.value.value), Trim(known.value.default_);
      var baseline := if known.value.hasDefault then def else current;
      if value == baseline {
        var same := if known.value.hasDefault then SameAsDefault else SameAsCurrent;
        entries := entries + [ImportEntry(in_.section, in_.name, value, current, def, ImportSame, same)];
        continue;
      }
      var refused := Refuses(known.value, n, value);
      if refused.Some? {
        var why := Refused(refused.value);
        entries := entries + [ImportEntry(in_.section, in_.name, value, current, def, ImportRejected, why)];
        continue;
      }
      entries := entries + [ImportEntry(in_.section, in_.name, value, current, def, ImportApply, NoReason)];
    }
    plan := ImportPlan(incoming.pluginName, incoming.pluginVersion, incoming.pluginGUID, |ss| > 0,
                       StableSorted(entries));
  }

  lemma PlanOfIs(f: ConfigFile, n: Numbers, pasted: string)
    ensures var g := FileOf("", FileLines(pasted));
            PlanOf(f, n, pasted) ==
            ImportPlan(g.pluginName, g.pluginVersion, g.pluginGUID, Flat(g.sections) != [],
                       StableSorted(JudgeAll(f, n, Flat(g.sections))))
  {
    hide Flat, FileOf, FileLines, StableSorted, JudgeAll;
  }

  lemma NothingJudged(f: ConfigFile, n: Numbers, ss: seq<Setting>)
    ensures JudgeAll(f, n, ss[..0]) == [] && ss[..|ss|] == ss
  {
  }

  lemma JudgeStep(f: ConfigFile, n: Numbers, ss: seq<Setting>, i: nat)
    requires i < |ss|
    ensures JudgeAll(f, n, ss[..i + 1]) == JudgeAll(f, n, ss[..i]) + [Judge(f, n, ss[i])]
  {
    hide Judge;
    assert ss[..i + 1][..i] == ss[..i];
  }

  lemma JudgeCases(f: ConfigFile, n: Numbers, s: Setting)
    ensures var value, known := Trim(s.value), LookupIn(f.sections, s.Key());
            Judge(f, n, s) ==
            if known.None? then ImportEntry(s.section, s.name, value, "", "", ImportUnmatched, NotDeclared)
            else
              var current, def := Trim(known.value.value), Trim(known.value.default_);
              if value == (if known.value.hasDefault then def else current) then
                ImportEntry(s.section, s.name, value, current, def, ImportSame,
                            if known.value.hasDefault then SameAsDefault else SameAsCurrent)
              else if Refuses(known.value, n, value).Some? then
                ImportEntry(s.section, s.name, value, current, def, ImportRejected,
                            Refused(Refuses(known.value, n, value).value))
              else ImportEntry(s.section, s.name, value, current, def, ImportApply, NoReason)
    ensures s.Key() == SettingKey(s.section, s.name)
  {
    hide Trim, Refuses, LookupIn;
  }

  /** ImportPlan.Overrides. */
  method PlannedOverrides(entries: seq<ImportEntry>) returns (set_: OverrideSet)
    ensures fresh(set_) && set_.items == Imported(entries)
  {
    set_ := new OverrideSet();
    for i := 0 to |entries|
      invariant fresh(set_) && set_.items == Imported(entries[..i])
    {
      assert entries[..i + 1][..i] == entries[..i];
      if entries[i].Wanted() {
        set_.Set(entries[i].section, entries[i].name, entries[i].value);
      }
    }
    assert entries[..|entries|] == entries;
  }

  // ---- the stable sort does not show -----------------------------------------

  lemma EntriesOrder()
    ensures Order.Orders(EntryLess)
  {
    KeyLessOrders();
    hide KeyLess;
  }

  lemma ImportedLast(s: seq<ImportEntry>, e: ImportEntry)
    ensures Imported(s + [e]) == if e.Wanted() then Imported(s)[e.Key() := e.value] else Imported(s)
    ensures Imported([]) == map[]
  {
    assert (s + [e])[..|s|] == s;
  }

  /** A stable insertion leaves the last entry of every key the last. */
  lemma {:induction false} PlaceImport(s: seq<ImportEntry>, e: ImportEntry)
    ensures Imported(Order.Place(s, EntryLess, e)) ==
            if e.Wanted() then Imported(s)[e.Key() := e.value] else Imported(s)
  {
    hide KeyLess, Imported;
    ImportedLast(s, e);
    if s == [] {
      ImportedLast([], e);
      assert s + [e] == [e];
      return;
    }
    var p, l := s[..|s| - 1], s[|s| - 1];
    if EntryLess(e, l) {
      PlaceImport(p, e);
      ImportedLast(Order.Place(p, EntryLess, e), l);
      ImportedLast(p, l);
      assert s == p + [l];
      KeyLessIrreflexive(e.Key());
    }
  }

  /** The preview is sorted; what is imported is what the paste says, last entry first. */
  lemma {:induction false} SortKeepsImport(s: seq<ImportEntry>)
    ensures Order.InOrder(StableSorted(s), EntryLess)
    ensures multiset(StableSorted(s)) == multiset(s)
    ensures Imported(StableSorted(s)) == Imported(s)
  {
    hide KeyLess, EntryLess, Imported, Order.Place, Order.Orders;
    if s == [] {
      return;
    }
    var p, e := s[..|s| - 1], s[|s| - 1];
    SortKeepsImport(p);
    EntriesOrder();
    Order.PlaceMembers(StableSorted(p), EntryLess, e);
    Order.PlaceInOrder(StableSorted(p), EntryLess, e);
    PlaceImport(StableSorted(p), e);
    ImportedLast(p, e);
    assert s == p + [e];
  }

  lemma {:induction false} ImportedFrom(s: seq<ImportEntry>, k: SettingKey) returns (e: ImportEntry)
    requires k in Imported(s)
    ensures e in s && e.Wanted() && e.Key() == k && e.value == Imported(s)[k]
  {
    var l := s[|s| - 1];
    if l.Wanted() && l.Key() == k {
      e := l;
    } else {
      e := ImportedFrom(s[..|s| - 1], k);
    }
  }

  /** The settings a paste holds. */
  function Pasted(pasted: string): seq<Setting> {
    Flat(FileOf("", FileLines(pasted)).sections)
  }

  /** What is imported is what some setting of the paste was judged to be. */
  lemma ImportedSetting(f: ConfigFile, n: Numbers, pasted: string, k: SettingKey) returns (s: Setting)
    requires k in Imported(Plan(f, n, pasted))
    ensures s in Pasted(pasted) && Judge(f, n, s).Wanted()
    ensures Judge(f, n, s).Key() == k && Judge(f, n, s).value == Imported(Plan(f, n, pasted))[k]
  {
    hide *;
    var ss := Pasted(pasted);
    PlanIs(f, n, pasted);
    SortKeepsImport(JudgeAll(f, n, ss));
    var e := ImportedFrom(JudgeAll(f, n, ss), k);
    var i :| 0 <= i < |ss| && JudgeAll(f, n, ss)[i] == e;
    s := ss[i];
  }

  /** EVERY IMPORTED CHANGE IS ACCEPTED by the validation Apply repeats. */
  lemma ImportIsAccepted(f: ConfigFile, n: Numbers, pasted: string, k: SettingKey)
    requires k in Imported(Plan(f, n, pasted))
    ensures var known := LookupIn(f.sections, k);
            known.Some? ==> Validate(known.value, n, Imported(Plan(f, n, pasted))[k])
  {
    hide *;
    var s := ImportedSetting(f, n, pasted, k);
    JudgedIsAccepted(f, n, s);
  }

  lemma JudgedIsAccepted(f: ConfigFile, n: Numbers, s: Setting)
    requires Judge(f, n, s).Wanted()
    ensures var known, e := LookupIn(f.sections, s.Key()), Judge(f, n, s);
            e.Key() == s.Key() && (known.Some? ==> Validate(known.value, n, e.value))
  {
    hide Refuses, LookupIn, Trim;
  }

  /** What a paste imports: entries as the parser leaves them, so well formed but for an
      empty section name. */
  lemma ImportIsWellFormed(f: ConfigFile, n: Numbers, pasted: string, k: SettingKey)
    requires k in Imported(Plan(f, n, pasted))
    ensures WellFormedOverride(Override(k.section, k.name, Imported(Plan(f, n, pasted))[k])) <==> k.section != ""
  {
    hide *;
    var s := ImportedSetting(f, n, pasted, k);
    PastedSetting(pasted, s);
    JudgeValue(f, n, s);
    TrimOfTrimmed(s.value);
    WellFormedIff(k, s.value);
  }

  lemma PlanIs(f: ConfigFile, n: Numbers, pasted: string)
    ensures Plan(f, n, pasted) == StableSorted(JudgeAll(f, n, Pasted(pasted)))
  {
    hide Flat, FileOf, FileLines, StableSorted, JudgeAll;
  }

  lemma PastedSetting(pasted: string, s: Setting)
    requires s in Pasted(pasted)
    ensures var k := s.Key();
            && Trimmed(k.section) && '\n' !in k.section
            && WellFormedKey(k.name) && WellFormedValue(k.name, s.value) && Trimmed(s.value)
  {
    var lines := FileLines(pasted);
    assert Pasted(pasted) == Flat(Parsed(lines).sections);
    hide *;
    SettingsRecord(lines);
    FileLinesFreeOf(pasted);
    var i :| 0 <= i < |Pasted(pasted)| && Pasted(pasted)[i] == s;
    SettingWellFormed(lines, Pasted(pasted), i);
  }

  lemma FileLinesFreeOf(body: string)
    ensures FreeOf(FileLines(body), '\n')
  {
    SplitFree(Normalise(body), '\n');
  }

  lemma JudgeValue(f: ConfigFile, n: Numbers, s: Setting)
    ensures Judge(f, n, s).Key() == s.Key() && Judge(f, n, s).value == Trim(s.value)
  {
    hide Refuses, Trim;
  }

  lemma WellFormedIff(k: SettingKey, value: string)
    requires Trimmed(k.section) && '\n' !in k.section && WellFormedKey(k.name) && WellFormedValue(k.name, value)
    ensures WellFormedOverride(Override(k.section, k.name, value)) <==> k.section != ""
  {
  }

  lemma SettingWellFormed(lines: seq<string>, ss: seq<Setting>, i: nat)
    requires FreeOf(lines, '\n') && Indexed(lines, ss) && i < |ss|
    ensures var k := ss[i].Key();
            && Trimmed(k.section) && '\n' !in k.section
            && WellFormedKey(k.name) && WellFormedValue(k.name, ss[i].value) && Trimmed(ss[i].value)
  {
    hide Classify;
    var s := ss[i];
    RecordsWhat(lines, s);
    assert lines[s.lineIndex] in lines;
    ClassifyYields(lines[s.lineIndex]);
    ValuesWellFormed(lines[..s.lineIndex], None);
  }
}
