/** Which values a setting refuses, by what its comments declare: internal/domain/bepinex.go, lines 106-165
    and 460-487. */
module ImportLaws {
  import opened Text
  import opened Wrappers
  import opened Overrides
  import opened ConfigFiles
  import opened ConfigTexts
  import opened Import
  import Order

  /** The value is one of the words, in any case. */
  predicate OneOf(words: seq<string>, v: string) {
    exists i :: 0 <= i < |words| && SameLetters(words[i], v)
  }

  lemma OneOfMeans(words: seq<string>, v: string)
    ensures Accepts(words, v) <==> OneOf(words, v)
  {
    if a :| a in words && EqualFold(a, v) {
      var i :| 0 <= i < |words| && words[i] == a;
      SameLower(a, v);
    }
    if i :| 0 <= i < |words| && SameLetters(words[i], v) {
      SameLower(words[i], v);
      assert words[i] in words;
    }
  }

  /** THE DEFAULT IS ALWAYS ACCEPTED, white space aside. */
  lemma DefaultAccepted(s: Setting, n: Numbers, value: string)
    requires s.hasDefault && Trim(value) == Trim(s.default_)
    ensures Refuses(s, n, value).None?
  {
    hide Trim, FirstRefused, Accepts;
  }

  /** A value that is no default. */
  predicate Judged(s: Setting, value: string) {
    s.hasDefault ==> Trim(value) != Trim(s.default_)
  }

  /** ONE OF SEVERAL CHOICES: accepted just when it is one of them, in any case. */
  lemma ChoiceAccepted(s: Setting, n: Numbers, value: string)
    requires Judged(s, value) && s.acceptable != [] && !s.multipleValues
    ensures Refuses(s, n, value) == if OneOf(s.acceptable, Trim(value)) then None
                                    else Some(NotOneOf(Trim(value), s.acceptable))
  {
    hide Trim, FirstRefused, Accepts;
    OneOfMeans(s.acceptable, Trim(value));
  }

  /** A part that counts for nothing, or is one of the words. */
  predicate Passes(words: seq<string>, part: string) {
    Trim(part) == "" || OneOf(words, Trim(part))
  }

  /** Part i is the first that does not pass. */
  predicate FirstBad(words: seq<string>, parts: seq<string>, i: nat) {
    i < |parts| && !Passes(words, parts[i]) && forall j | 0 <= j < i :: Passes(words, parts[j])
  }

  lemma FirstBadNext(words: seq<string>, parts: seq<string>, i: nat)
    requires parts != [] && Passes(words, parts[0]) && FirstBad(words, parts[1..], i)
    ensures FirstBad(words, parts, i + 1) && parts[i + 1] == parts[1..][i]
  {
    hide Passes;
    forall j | 0 <= j < i + 1 ensures Passes(words, parts[j]) {
      assert j > 0 ==> parts[j] == parts[1..][j - 1];
    }
  }

  lemma AllPassNext(words: seq<string>, parts: seq<string>)
    requires parts != [] && Passes(words, parts[0]) && forall p | p in parts[1..] :: Passes(words, p)
    ensures forall p | p in parts :: Passes(words, p)
  {
    hide Passes;
    assert parts == [parts[0]] + parts[1..];
  }

  lemma {:induction false} FirstRefusedMeans(words: seq<string>, parts: seq<string>) returns (i: nat)
    ensures FirstRefused(words, parts).None? ==> forall p | p in parts :: Passes(words, p)
    ensures FirstRefused(words, parts).Some? ==>
              FirstBad(words, parts, i) && FirstRefused(words, parts).value == Trim(parts[i])
  {
    hide *;
    i := 0;
    if parts == [] {
      NothingRefused(words);
    } else {
      RefusedFirst(words, parts);
      if Passes(words, parts[0]) {
        i := FirstRefusedMeans(words, parts[1..]);
        if FirstRefused(words, parts[1..]).Some? {
          FirstBadNext(words, parts, i);
          i := i + 1;
        } else {
          AllPassNext(words, parts);
        }
      } else {
        BadFirst(words, parts);
      }
    }
  }

  lemma NothingRefused(words: seq<string>)
    ensures FirstRefused(words, []).None?
  {
  }

  lemma RefusedFirst(words: seq<string>, parts: seq<string>)
    requires parts != []
    ensures FirstRefused(words, parts) ==
            if Passes(words, parts[0]) then FirstRefused(words, parts[1..]) else Some(Trim(parts[0]))
  {
    hide Trim, Accepts, OneOf;
    OneOfMeans(words, Trim(parts[0]));
  }

  lemma BadFirst(words: seq<string>, parts: seq<string>)
    requires parts != [] && !Passes(words, parts[0])
    ensures FirstBad(words, parts, 0)
  {
    hide Passes;
  }

  /** A LIST OF CHOICES: accepted just when every part between its commas is blank or one of them; the first
      that is neither is named. */
  lemma ListAccepted(s: Setting, n: Numbers, parts: seq<string>) returns (i: nat)
    requires parts != [] && (forall p | p in parts :: ',' !in p) && Judged(s, Join(parts, ",")) && s.multipleValues
    requires Trimmed(Join(parts, ","))
    ensures var r := Refuses(s, n, Join(parts, ","));
            && (r.None? <==> forall p | p in parts :: Passes(s.acceptable, p))
            && (r.Some? ==> FirstBad(s.acceptable, parts, i) && r == Some(NotOneOf(Trim(parts[i]), s.acceptable)))
  {
    hide Trim, FirstRefused, Accepts, Join, Split, Passes;
    assert [','] == ",";
    SplitJoin(parts, ',');
    TrimOfTrimmed(Join(parts, ","));
    i := FirstRefusedMeans(s.acceptable, parts);
  }

  /** Nothing but its type and range is declared of the setting. */
  predicate TypeOnly(s: Setting) {
    s.acceptable == [] && !s.multipleValues
  }

  lemma BooleanAccepted(s: Setting, n: Numbers, value: string)
    requires Judged(s, value) && TypeOnly(s) && ToLower(s.typ) == "boolean"
    ensures Refuses(s, n, value).None? <==> ToLower(Trim(value)) == "true" || ToLower(Trim(value)) == "false"
  {
    LowerWords();
    hide Trim, FirstRefused, Accepts, ToLower;
  }

  lemma LowerWords()
    ensures ToLower("Boolean") == "boolean" && ToLower("true") == "true" && ToLower("false") == "false"
  {
  }

  /** The names of whole numbers and of decimals, in lower case. */
  predicate WholeType(t: string) {
    t == "int16" || t == "int32" || t == "int64" || t == "uint16" || t == "uint32" || t == "uint64" || t == "byte"
    || t == "sbyte"
  }

  predicate DecimalType(t: string) {
    t == "single" || t == "double" || t == "decimal" || t == "float"
  }

  /** NUMBERS: a whole number must be one, a decimal must be one, and neither may leave a range whose ends
      are numbers. */
  lemma NumberAccepted(s: Setting, n: Numbers, value: string)
    requires Judged(s, value) && TypeOnly(s) && (WholeType(ToLower(s.typ)) || DecimalType(ToLower(s.typ)))
    ensures var v, r := Trim(value), Refuses(s, n, value);
            && (WholeType(ToLower(s.typ)) && !n.isInt(v) ==> r == Some(NotWhole(v)))
            && (DecimalType(ToLower(s.typ)) && !n.isFloat(v) ==> r == Some(NotNumber(v)))
            && (WholeType(ToLower(s.typ)) && n.isInt(v) && s.range.None? ==> r == None)
            && (DecimalType(ToLower(s.typ)) && n.isFloat(v) && s.range.None? ==> r == None)
            && (n.isInt(v) && n.isFloat(v) && s.range.Some? && n.isFloat(s.range.value.from)
                && n.isFloat(s.range.value.to) ==>
                  r == if n.less(v, s.range.value.from) || n.less(s.range.value.to, v)
                       then Some(OutOfRange(v, s.range.value.from, s.range.value.to)) else None)
  {
    LowerWords();
    hide Trim, FirstRefused, Accepts, ToLower;
  }

  /** ANY OTHER TEXT IS ACCEPTED. */
  lemma TextAccepted(s: Setting, n: Numbers, value: string)
    requires TypeOnly(s) && s.range.None? && ToLower(s.typ) != "boolean"
    requires !WholeType(ToLower(s.typ)) && !DecimalType(ToLower(s.typ))
    ensures Refuses(s, n, value).None?
  {
    LowerWords();
    hide Trim, FirstRefused, Accepts, ToLower;
  }

  /** FROM THE COMMENTS TO THE REFUSAL: a value outside the range a block's comments declare is refused. */
  lemma BlockRefuses(b: Block, section: string, i: nat, n: Numbers, value: string)
    requires Tidy(b) && b.choices == [] && b.several.None? && b.range.Some?
    requires WholeType(ToLower(b.typ)) || DecimalType(ToLower(b.typ))
    requires b.default_.Some? ==> Trim(value) != b.default_.value
    requires n.isInt(Trim(value)) && n.isFloat(Trim(value)) && n.isFloat(b.range.value.from)
             && n.isFloat(b.range.value.to)
    requires n.less(Trim(value), b.range.value.from) || n.less(b.range.value.to, Trim(value))
    ensures Refuses(BlockSetting(b, section, i), n, value) ==
            Some(OutOfRange(Trim(value), b.range.value.from, b.range.value.to))
  {
    TidyParts(b);
    hide Refuses, Tidy, ToLower, Trim;
    if b.default_.Some? {
      TrimOfTrimmed(b.default_.value);
    }
    NumberAccepted(BlockSetting(b, section, i), n, value);
  }

  // ---- the preview of a paste --------------------------------------------------------

  /** Setting b of section a is declared under the key. */
  predicate Declares(sections: seq<ConfigSection>, section: string, name: string, a: nat, b: nat) {
    a < |sections| && b < |sections[a].settings| && sections[a].name == section && sections[a].settings[b].name == name
  }

  /** And it is the first one that is. */
  ghost predicate DeclaresFirst(sections: seq<ConfigSection>, section: string, name: string, a: nat, b: nat) {
    Declares(sections, section, name, a, b)
    && forall c: nat, d: nat | Declares(sections, section, name, c, d) :: a < c || (a == c && b <= d)
  }

  lemma {:induction false} FirstNamedIs(ss: seq<Setting>, name: string) returns (b: nat)
    ensures FirstNamed(ss, name).Some? ==>
              b < |ss| && ss[b].name == name && FirstNamed(ss, name).value == ss[b]
              && forall d | 0 <= d < b :: ss[d].name != name
    ensures FirstNamed(ss, name).None? ==> forall d | 0 <= d < |ss| :: ss[d].name != name
  {
    b := 0;
    if ss != [] && ss[0].name != name {
      var c := FirstNamedIs(ss[1..], name);
      b := c + 1;
      assert forall d | 0 < d < |ss| :: ss[d] == ss[1..][d - 1];
    }
  }

  /** THE SETTING LOOKED UP is the first declared under the section and the name, if there is one. */
  lemma {:induction false} LookupFirst(sections: seq<ConfigSection>, k: SettingKey) returns (a: nat, b: nat)
    ensures LookupIn(sections, k).None? <==> forall c: nat, d: nat :: !Declares(sections, k.section, k.name, c, d)
    ensures LookupIn(sections, k).Some? ==>
              DeclaresFirst(sections, k.section, k.name, a, b) && LookupIn(sections, k).value == sections[a].settings[b]
  {
    a, b := 0, 0;
    if sections != [] {
      var first, rest := sections[0], sections[1..];
      var e := FirstNamedIs(first.settings, k.name);
      var c, d := LookupFirst(rest, k);
      forall x: nat, y: nat ensures Declares(sections, k.section, k.name, x + 1, y) ==
        Declares(rest, k.section, k.name, x, y) {
      }
      if first.name == k.section && FirstNamed(first.settings, k.name).Some? {
        b := e;
        assert Declares(sections, k.section, k.name, 0, e);
      } else {
        forall x: nat, y: nat ensures Declares(sections, k.section, k.name, x, y) ==>
                                        x > 0 && Declares(rest, k.section, k.name, x - 1, y) {
        }
        if LookupIn(rest, k).Some? {
          a, b := c + 1, d;
          assert Declares(sections, k.section, k.name, a, b);
        }
      }
    }
  }

  /** HOW A PASTED SETTING IS JUDGED: not declared; the same as the default, or as the value when there is no
      default; refused; or to be applied. */
  lemma JudgedByFields(f: ConfigFile, n: Numbers, s: Setting)
    ensures var e, known := Judge(f, n, s), LookupIn(f.sections, SettingKey(s.section, s.name));
            && e.section == s.section && e.name == s.name && e.value == Trim(s.value)
            && (e.status == ImportUnmatched <==> known == None)
            && (known.Some? ==>
                  var baseline := if known.value.hasDefault then known.value.default_ else known.value.value;
                  && (e.status == ImportSame <==> Trim(s.value) == Trim(baseline))
                  && (e.status == ImportRejected <==>
                        Trim(s.value) != Trim(baseline) && Refuses(known.value, n, Trim(s.value)).Some?)
                  && (e.status == ImportApply <==>
                        Trim(s.value) != Trim(baseline) && Refuses(known.value, n, Trim(s.value)).None?)
                  && e.current == Trim(known.value.value) && e.default_ == Trim(known.value.default_))
  {
    hide Trim, Refuses, LookupIn;
  }

  /** Entry i is the last to set its key to something that is imported. */
  predicate SetsLast(entries: seq<ImportEntry>, k: SettingKey, i: nat) {
    && i < |entries| && Imports(entries[i], k) && forall j | i < j < |entries| :: !Imports(entries[j], k)
  }

  predicate Imports(e: ImportEntry, k: SettingKey) {
    e.section == k.section && e.name == k.name && (e.status == ImportApply || e.status == ImportUnmatched)
  }

  /** WHAT A PREVIEW IMPORTS: the entries to apply and the undeclared ones, the last of a key winning. */
  lemma {:induction false} ImportedByStatus(entries: seq<ImportEntry>, k: SettingKey) returns (i: nat)
    ensures k in Imported(entries) <==> exists e :: e in entries && Imports(e, k)
    ensures k in Imported(entries) ==> SetsLast(entries, k, i) && Imported(entries)[k] == entries[i].value
  {
    i := 0;
    if entries != [] {
      var m := |entries| - 1;
      var before, e := entries[..m], entries[m];
      assert entries == before + [e];
      i := ImportedByStatus(before, k);
      if Imports(e, k) {
        i := m;
        assert e in entries;
      } else {
        assert forall x :: x in entries <==> x in before || x == e;
      }
    }
  }

  /** Section by section, and by name within one. */
  predicate Precedes(a: ImportEntry, b: ImportEntry) {
    Order.Less(a.section, b.section) || (a.section == b.section && Order.Less(a.name, b.name))
  }

  /** THE PREVIEW OF A PASTE: every setting of the paste judged once, in order, and marked as parsed just when
      there is one. */
  lemma PreviewOf(f: ConfigFile, n: Numbers, pasted: string)
    ensures var plan, ss := PlanOf(f, n, pasted), Pasted(pasted);
            && multiset(plan.entries) == multiset(JudgeAll(f, n, ss)) && |JudgeAll(f, n, ss)| == |ss|
            && (forall i | 0 <= i < |ss| :: JudgeAll(f, n, ss)[i] == Judge(f, n, ss[i]))
            && (forall i, j | 0 <= i < j < |plan.entries| :: !Precedes(plan.entries[j], plan.entries[i]))
            && (plan.parsed <==> ss != [])
            && Imported(plan.entries) == Imported(JudgeAll(f, n, ss))
  {
    hide Judge, Flat, FileOf, FileLines, StableSorted, Imported, JudgeAll, Order.Less, EntryLess, Precedes;
    var ss := Pasted(pasted);
    SortKeepsImport(JudgeAll(f, n, ss));
    PlanIs(f, n, pasted);
    var entries := PlanOf(f, n, pasted).entries;
    forall i, j | 0 <= i < j < |entries| ensures !Precedes(entries[j], entries[i]) {
      PrecedesIs(entries[j], entries[i]);
    }
  }

  lemma PrecedesIs(a: ImportEntry, b: ImportEntry)
    ensures Precedes(a, b) <==> EntryLess(a, b)
  {
    hide Order.Less;
    Order.LessIrreflexive(a.section);
  }
}
