/** One line of a BepInEx config, and what a list of lines says.
    internal/domain/bepinex.go, lines 223-292 (the switch), 394-405 (splitEntry)
    and 558-575 (ParseOverrideSet), whose switches read lines alike. */
module ConfigLines {
  import opened Text
  import opened Wrappers
  import opened Overrides

  datatype Line =
    | Blank
    | Doc(text: string)
    | Meta(text: string)
    | Header(name: string)
    | Entry(key: string, sep: string, value: string)
    | NoKey
    | Unrecognised

  /** The separator of an entry: the blanks around '=' and the '=' itself. */
  function SeparatorOf(left: string, right: string): string {
    left[BlanksStart(left, |left|)..] + "=" + right[..LeadingBlanks(right)]
  }

  /** splitEntry: the key, the exact separator and the value around the first '='. */
  function SplitEntry(raw: string): (string, string, string) {
    var i := IndexOf(raw, '=');
    if i == |raw| then ("", "", "")
    else
      (Trim(raw[..i]), SeparatorOf(raw[..i], raw[i + 1..]), Trim(raw[i + 1..]))
  }

  predicate IsHeader(line: string) {
    |line| >= 2 && line[0] == '[' && line[|line| - 1] == ']'
  }

  /** The branches of the parser's switch, in its order, on the trimmed line. */
  function ClassifyAs(line: string, entry: (string, string, string)): Line {
    if line == "" then Blank
    else if HasPrefix(line, "##") then Doc(Trim(line[2..]))
    else if HasPrefix(line, "#") then Meta(Trim(line[1..]))
    else if IsHeader(line) then Header(Trim(line[1..|line| - 1]))
    else if '=' in line then
      if entry.0 == "" then NoKey else Entry(entry.0, entry.1, entry.2)
    else Unrecognised
  }

  function Classify(raw: string): Line {
    ClassifyAs(Trim(raw), SplitEntry(raw))
  }

  /** The section open after one more line. */
  function Opens(line: Line, cur: Option<string>): Option<string> {
    if line.Header? then Some(line.name) else cur
  }

  /** The value one line sets inside the open section. */
  function Sets(line: Line, cur: Option<string>): Items {
    if line.Entry? && cur.Some? then map[SettingKey(cur.value, line.key) := line.value] else map[]
  }

  /** The section the lines leave open, starting inside cur. */
  function Section(lines: seq<string>, cur: Option<string>): Option<string> {
    if lines == [] then cur
    else Opens(Classify(lines[|lines| - 1]), Section(lines[..|lines| - 1], cur))
  }

  /** What the lines say: every setting's value, the last line of a key winning. */
  function Values(lines: seq<string>, cur: Option<string>): Items {
    if lines == [] then map[]
    else
      var before := lines[..|lines| - 1];
      Values(before, cur) + Sets(Classify(lines[|lines| - 1]), Section(before, cur))
  }

  /** The names of the sections the lines declare. */
  function Headers(lines: seq<string>): set<string> {
    if lines == [] then {}
    else
      var line := Classify(lines[|lines| - 1]);
      Headers(lines[..|lines| - 1]) + if line.Header? then {line.name} else {}
  }

  // ---- what a well-formed override looks like --------------------------------

  predicate WellFormedKey(name: string) {
    name != "" && Trimmed(name) && '=' !in name && '\n' !in name && name[0] != '#'
  }

  /** The value does not make the printed line look like a section header. */
  predicate WellFormedValue(name: string, value: string)
    requires name != ""
  {
    Trimmed(value) && '\n' !in value
    && !(name[0] == '[' && value != "" && value[|value| - 1] == ']')
  }

  predicate WellFormedSection(section: string) {
    section != "" && Trimmed(section) && '\n' !in section
  }

  predicate WellFormedOverride(o: Override) {
    WellFormedSection(o.section) && WellFormedKey(o.name) && WellFormedValue(o.name, o.value)
  }

  ghost predicate WellFormed(items: Items) {
    forall k | k in items :: WellFormedOverride(Override(k.section, k.name, items[k]))
  }

  ghost predicate IsSeparator(sep: string) {
    exists i :: 0 <= i < |sep| && sep[i] == '=' && AllBlank(sep[..i]) && AllBlank(sep[i + 1..])
  }

  function HeaderLine(section: string): string {
    "[" + section + "]"
  }

  function EntryLine(o: Override): string {
    o.name + " = " + o.value
  }

  // ---- classification --------------------------------------------------------

  lemma SplitEntryAt(left: string, right: string)
    requires '=' !in left
    ensures SplitEntry(left + "=" + right) == (Trim(left), SeparatorOf(left, right), Trim(right))
  {
    var raw := left + "=" + right;
    IndexOfSplit(left, '=', right);
    assert raw == left + ['='] + right;
    assert raw[..|left|] == left && raw[|left| + 1..] == right;
  }

  lemma IsSeparatorMade(b: string, c: string)
    requires AllBlank(b) && AllBlank(c)
    ensures IsSeparator(b + "=" + c)
  {
    var sep := b + "=" + c;
    assert sep[|b|] == '=' && sep[..|b|] == b && sep[|b| + 1..] == c;
  }

  lemma SeparatorReads(left: string, right: string)
    ensures IsSeparator(SeparatorOf(left, right))
  {
    IsSeparatorMade(left[BlanksStart(left, |left|)..], right[..LeadingBlanks(right)]);
  }

  /** The trimmed line starts with the key and ends with the value, or with '='. */
  lemma TrimmedEntry(left: string, right: string)
    requires Trim(left) != ""
    ensures var t, k, v := Trim(left + "=" + right), Trim(left), Trim(right);
            |t| >= 2 && '=' in t && t[0] == k[0] && t[|t| - 1] == (if v == "" then '=' else v[|v| - 1])
  {
    hide Trim;
    var ll, lr := TrimParts(left);
    var rl, rr := TrimParts(right);
    var k, v := Trim(left), Trim(right);
    if v == "" {
      CoreOf(ll, k, lr + "=", right);
      Reassociate(ll, k, lr, "=", "", "", right);
      assert "" + "" + right == right && lr + "=" + "" + "" == lr + "=";
    } else {
      CoreOf(ll, k, lr + "=" + rl + v, rr);
      Reassociate(ll, k, lr, "=", rl, v, rr);
    }
  }

  lemma Reassociate(ll: string, k: string, lr: string, e: string, rl: string, v: string, rr: string)
    ensures (ll + k + lr) + e + (rl + v + rr) == ll + (k + (lr + e + rl + v)) + rr
  {
  }

  lemma CoreOf(l: string, k: string, tail: string, r: string)
    requires AllSpace(l) && AllSpace(r) && k != "" && !IsSpace(k[0])
    requires tail != "" && !IsSpace(tail[|tail| - 1]) && '=' in tail
    ensures var t := Trim(l + (k + tail) + r);
            |t| >= 2 && '=' in t && t[0] == k[0] && t[|t| - 1] == tail[|tail| - 1]
  {
    var t := k + tail;
    TrimUnique(l, t, r);
    assert t[0] == k[0] && t[|t| - 1] == tail[|tail| - 1];
  }

  lemma ClassifyAsEntry(line: string, k: string, sep: string, v: string)
    requires |line| >= 2 && '=' in line && k != ""
    requires line[0] == k[0] && line[|line| - 1] == (if v == "" then '=' else v[|v| - 1])
    ensures ClassifyAs(line, (k, sep, v)) == Entry(k, sep, v)
            <==> k[0] != '#' && !(k[0] == '[' && v != "" && v[|v| - 1] == ']')
    ensures ClassifyAs(line, (k, sep, v)).Entry? ==> ClassifyAs(line, (k, sep, v)) == Entry(k, sep, v)
  {
  }

  /** When a line with a '=' reads as an entry, and which. */
  lemma ClassifyEntry(left: string, right: string)
    requires '=' !in left && Trim(left) != ""
    ensures var k, v := Trim(left), Trim(right);
            Classify(left + "=" + right) == Entry(k, SeparatorOf(left, right), v)
            <==> k[0] != '#' && !(k[0] == '[' && v != "" && v[|v| - 1] == ']')
    ensures Classify(left + "=" + right).Entry? ==>
              Classify(left + "=" + right) == Entry(Trim(left), SeparatorOf(left, right), Trim(right))
  {
    hide Trim, SplitEntry, SeparatorOf, ClassifyAs;
    SplitEntryAt(left, right);
    TrimmedEntry(left, right);
    ClassifyAsEntry(Trim(left + "=" + right), Trim(left), SeparatorOf(left, right), Trim(right));
  }

  /** Rewriting the right-hand side of an entry gives an entry with that value. */
  lemma RewrittenLine(name: string, sep: string, value: string)
    requires WellFormedKey(name) && WellFormedValue(name, value) && IsSeparator(sep)
    ensures Classify(name + sep + value) == Entry(name, sep, value)
  {
    hide *;
    var b, c := SeparatorParts(sep);
    KeyAndValue(name, value);
    RewrittenParts(name, b, c, value);
    Regroup(name, b, "=", c, value);
    EqualsOutside(name, b);
    ClassifyEntry(name + b, c + value);
  }

  lemma SeparatorParts(sep: string) returns (b: string, c: string)
    requires IsSeparator(sep)
    ensures AllBlank(b) && AllBlank(c) && sep == b + "=" + c
  {
    var i :| 0 <= i < |sep| && sep[i] == '=' && AllBlank(sep[..i]) && AllBlank(sep[i + 1..]);
    b, c := sep[..i], sep[i + 1..];
  }

  lemma KeyAndValue(name: string, value: string)
    requires WellFormedKey(name) && WellFormedValue(name, value)
    ensures name != "" && Trimmed(name) && '=' !in name && name[0] != '#' && Trimmed(value)
    ensures !(name[0] == '[' && value != "" && value[|value| - 1] == ']')
  {
    hide Trimmed;
  }

  lemma EqualsOutside(name: string, b: string)
    requires '=' !in name && AllBlank(b)
    ensures '=' !in name + b
  {
  }

  lemma RewrittenParts(name: string, b: string, c: string, value: string)
    requires Trimmed(name) && AllBlank(b) && AllBlank(c) && Trimmed(value)
    ensures Trim(name + b) == name && Trim(c + value) == value
    ensures SeparatorOf(name + b, c + value) == b + "=" + c
  {
    TrimPadRight(name, b);
    TrimPadLeft(c, value);
    TrimOfTrimmed(name);
    TrimOfTrimmed(value);
    BlanksAfter(name, b);
    BlanksBefore(c, value);
    assert (name + b)[|name|..] == b && (c + value)[..|c|] == c;
  }

  lemma BlanksAfter(s: string, b: string)
    requires Trimmed(s) && AllBlank(b)
    ensures BlanksStart(s + b, |s + b|) == |s|
  {
    var t := s + b;
    assert forall j | |s| <= j < |t| :: t[j] == b[j - |s|];
    assert s != "" ==> t[|s| - 1] == s[|s| - 1];
  }

  lemma BlanksBefore(b: string, s: string)
    requires AllBlank(b) && Trimmed(s)
    ensures LeadingBlanks(b + s) == |b|
  {
    var t := b + s;
    assert forall j | 0 <= j < |b| :: t[j] == b[j];
    assert s != "" ==> t[|b|] == s[0];
  }

  lemma RewrittenLineFree(name: string, sep: string, value: string)
    requires '\n' !in name && '\n' !in value && IsSeparator(sep)
    ensures '\n' !in name + sep + value
  {
    var i :| 0 <= i < |sep| && sep[i] == '=' && AllBlank(sep[..i]) && AllBlank(sep[i + 1..]);
    forall j | 0 <= j < |sep| ensures sep[j] != '\n' {
      assert j < i ==> sep[j] == sep[..i][j];
      assert j > i ==> sep[j] == sep[i + 1..][j - i - 1];
    }
  }

  lemma EntryLineReads(o: Override)
    requires WellFormedKey(o.name) && WellFormedValue(o.name, o.value)
    ensures Classify(EntryLine(o)) == Entry(o.name, " = ", o.value)
    ensures '\n' !in EntryLine(o)
  {
    assert " = "[1] == '=' && AllBlank(" = "[..1]) && AllBlank(" = "[2..]);
    RewrittenLine(o.name, " = ", o.value);
    RewrittenLineFree(o.name, " = ", o.value);
  }

  lemma HeaderLineReads(section: string)
    requires Trimmed(section)
    ensures Classify(HeaderLine(section)) == Header(section)
    ensures Trim(HeaderLine(section)) == HeaderLine(section)
  {
    hide Trim, SplitEntry;
    var line := HeaderLine(section);
    TrimOfTrimmed(line);
    assert line[0] == '[' && line[1..|line| - 1] == section;
    TrimOfTrimmed(section);
  }

  lemma BlankLineReads()
    ensures Classify("") == Blank
  {
  }

  lemma HeaderYields(raw: string)
    requires '\n' !in raw && Classify(raw).Header?
    ensures Trimmed(Classify(raw).name) && '\n' !in Classify(raw).name
  {
    var line := Trim(raw);
    TrimKeepsOut(raw, '\n');
    TrimKeepsOut(line[1..|line| - 1], '\n');
  }

  lemma EntryYieldsAt(left: string, right: string)
    requires '=' !in left && '\n' !in left && '\n' !in right
    requires Trim(left) != "" && Classify(left + "=" + right).Entry?
    ensures var e := Classify(left + "=" + right);
            WellFormedKey(e.key) && WellFormedValue(e.key, e.value) && IsSeparator(e.sep)
  {
    SeparatorReads(left, right);
    ClassifyEntry(left, right);
    TrimKeepsOut(left, '=');
    TrimKeepsOut(left, '\n');
    TrimKeepsOut(right, '\n');
  }

  lemma ClassifyHasEquals(raw: string)
    requires Classify(raw).Entry?
    ensures IndexOf(raw, '=') < |raw| && Trim(raw[..IndexOf(raw, '=')]) != ""
  {
    hide Trim, SeparatorOf;
  }

  lemma EntryYields(raw: string)
    requires '\n' !in raw && Classify(raw).Entry?
    ensures var e := Classify(raw);
            WellFormedKey(e.key) && WellFormedValue(e.key, e.value) && IsSeparator(e.sep)
  {
    hide Trim, SeparatorOf, ClassifyAs, Classify;
    ClassifyHasEquals(raw);
    var i := IndexOf(raw, '=');
    var left, right := raw[..i], raw[i + 1..];
    assert raw == left + "=" + right;
    EntryYieldsAt(left, right);
  }

  /** What a header or an entry read from one line satisfies. */
  lemma ClassifyYields(raw: string)
    requires '\n' !in raw
    ensures match Classify(raw)
            case Header(name) => Trimmed(name) && '\n' !in name
            case Entry(key, sep, value) =>
              WellFormedKey(key) && WellFormedValue(key, value) && IsSeparator(sep)
            case _ => true
  {
    match Classify(raw)
    case Header(_) => HeaderYields(raw);
    case Entry(_, _, _) => EntryYields(raw);
    case _ =>
  }

  lemma SeparatorDropCr(left: string, right: string)
    ensures SeparatorOf(left, right + "\r") == SeparatorOf(left, right)
  {
    var n, r := LeadingBlanks(right), right + "\r";
    assert forall j | 0 <= j < |right| :: r[j] == right[j];
    assert n < |r| && !IsBlank(r[n]);
    assert r[..n] == right[..n];
  }

  lemma SplitEntryDropCr(d: string)
    ensures SplitEntry(d + "\r") == SplitEntry(d)
  {
    var i := IndexOf(d, '=');
    if i < |d| {
      var left, right := d[..i], d[i + 1..];
      assert d == left + "=" + right;
      assert d + "\r" == left + "=" + (right + "\r");
      SplitEntryAt(left, right);
      SplitEntryAt(left, right + "\r");
      TrimPadRight(right, "\r");
      SeparatorDropCr(left, right);
    } else {
      assert '=' !in d + "\r";
    }
  }

  /** A trailing carriage return does not change how a line reads. */
  lemma ClassifyDropCr(raw: string)
    ensures Classify(DropCr(raw)) == Classify(raw)
  {
    if raw != "" && raw[|raw| - 1] == '\r' {
      var d := DropCr(raw);
      assert raw == d + "\r";
      TrimPadRight(d, "\r");
      SplitEntryDropCr(d);
    }
  }

  // ---- lists of lines --------------------------------------------------------

  lemma {:induction false} SectionAppend(a: seq<string>, b: seq<string>, cur: Option<string>)
    ensures Section(a + b, cur) == Section(b, Section(a, cur))
  {
    if b == [] {
      assert a + b == a;
    } else {
      assert (a + b)[..|a + b| - 1] == a + b[..|b| - 1];
      SectionAppend(a, b[..|b| - 1], cur);
    }
  }

  /** One more line. */
  lemma LastLine(lines: seq<string>, line: string, cur: Option<string>)
    ensures var c := Classify(line);
            && Section(lines + [line], cur) == Opens(c, Section(lines, cur))
            && Values(lines + [line], cur) == Values(lines, cur) + Sets(c, Section(lines, cur))
            && Headers(lines + [line]) == Headers(lines) + if c.Header? then {c.name} else {}
  {
    assert (lines + [line])[..|lines|] == lines;
  }

  lemma BlankAppended(lines: seq<string>)
    ensures Section(lines + [""], None) == Section(lines, None)
    ensures Values(lines + [""], None) == Values(lines, None)
    ensures Headers(lines + [""]) == Headers(lines)
  {
    hide Values, Section, Headers, Classify;
    BlankLineReads();
    LastLine(lines, "", None);
  }

  lemma HeaderAppended(lines: seq<string>, section: string)
    requires Trimmed(section)
    ensures var h := HeaderLine(section);
            && Section(lines + [h], None) == Some(section)
            && Values(lines + [h], None) == Values(lines, None)
            && Headers(lines + [h]) == Headers(lines) + {section}
  {
    hide Values, Section, Headers, Classify, HeaderLine;
    HeaderLineReads(section);
    LastLine(lines, HeaderLine(section), None);
  }

  lemma UpdateOne(m: Items, k: SettingKey, v: string)
    ensures m + map[k := v] == m[k := v]
  {
  }

  lemma UpdateTwice(a: Items, b: Items, c: Items)
    ensures a + b + c == a + (b + c)
  {
  }

  lemma {:induction false} ValuesAppend(a: seq<string>, b: seq<string>, cur: Option<string>)
    ensures Values(a + b, cur) == Values(a, cur) + Values(b, Section(a, cur))
  {
    if b == [] {
      assert a + b == a;
    } else {
      assert (a + b)[..|a + b| - 1] == a + b[..|b| - 1];
      var b' := b[..|b| - 1];
      ValuesAppend(a, b', cur);
      SectionAppend(a, b', cur);
      UpdateTwice(Values(a, cur), Values(b', Section(a, cur)), Sets(Classify(b[|b| - 1]), Section(a + b', cur)));
    }
  }

  lemma {:induction false} HeadersAppend(a: seq<string>, b: seq<string>)
    ensures Headers(a + b) == Headers(a) + Headers(b)
  {
    if b == [] {
      assert a + b == a;
    } else {
      assert (a + b)[..|a + b| - 1] == a + b[..|b| - 1];
      HeadersAppend(a, b[..|b| - 1]);
    }
  }

  /** Lines that read alike say the same. */
  lemma {:induction false} ReadAlike(a: seq<string>, b: seq<string>, cur: Option<string>)
    requires |a| == |b| && forall i | 0 <= i < |a| :: Classify(a[i]) == Classify(b[i])
    ensures Section(a, cur) == Section(b, cur)
    ensures Values(a, cur) == Values(b, cur)
    ensures Headers(a) == Headers(b)
  {
    if a != [] {
      ReadAlike(a[..|a| - 1], b[..|b| - 1], cur);
    }
  }

  lemma {:induction false} DropCrsReadAlike(ls: seq<string>, cur: Option<string>)
    ensures Section(DropCrs(ls), cur) == Section(ls, cur)
    ensures Values(DropCrs(ls), cur) == Values(ls, cur)
    ensures Headers(DropCrs(ls)) == Headers(ls)
  {
    forall i | 0 <= i < |ls| - 1 ensures Classify(DropCrs(ls)[i]) == Classify(ls[i]) {
      ClassifyDropCr(ls[i]);
    }
    ReadAlike(DropCrs(ls), ls, cur);
  }

  lemma {:induction false} ValuesSections(lines: seq<string>, cur: Option<string>)
    requires forall i | 0 <= i < |lines| :: !Classify(lines[i]).Header?
    ensures Section(lines, cur) == cur
    ensures Headers(lines) == {}
    ensures cur == None ==> Values(lines, cur) == map[]
  {
    if lines != [] {
      ValuesSections(lines[..|lines| - 1], cur);
    }
  }

  /** Every key the lines set sits in a declared section, or in the one open before. */
  lemma {:induction false} ValuesInSections(lines: seq<string>, cur: Option<string>)
    ensures Section(lines, cur) == cur || (Section(lines, cur).Some? && Section(lines, cur).value in Headers(lines))
    ensures forall k | k in Values(lines, cur) :: Some(k.section) == cur || k.section in Headers(lines)
  {
    if lines != [] {
      ValuesInSections(lines[..|lines| - 1], cur);
    }
  }

  lemma {:induction false} ValuesWellFormed(lines: seq<string>, cur: Option<string>)
    requires FreeOf(lines, '\n')
    requires cur.Some? ==> Trimmed(cur.value) && '\n' !in cur.value
    ensures Section(lines, cur).Some? ==> Trimmed(Section(lines, cur).value) && '\n' !in Section(lines, cur).value
    ensures forall k | k in Values(lines, cur) ::
              && Trimmed(k.section) && '\n' !in k.section
              && WellFormedKey(k.name) && WellFormedValue(k.name, Values(lines, cur)[k])
  {
    if lines != [] {
      ValuesWellFormed(lines[..|lines| - 1], cur);
      ClassifyYields(lines[|lines| - 1]);
    }
  }

  /** The lines written for a list of entries of one section. */
  function EntryLines(os: seq<Override>): (ls: seq<string>)
    ensures |ls| == |os| && forall i | 0 <= i < |os| :: ls[i] == EntryLine(os[i])
  {
    if os == [] then [] else EntryLines(os[..|os| - 1]) + [EntryLine(os[|os| - 1])]
  }

  lemma {:induction false} EntryLinesRead(os: seq<Override>, section: string)
    requires forall o | o in os :: WellFormedOverride(o) && o.section == section
    ensures Values(EntryLines(os), Some(section)) == MapOf(os)
    ensures Section(EntryLines(os), Some(section)) == Some(section)
    ensures Headers(EntryLines(os)) == {}
  {
    if os != [] {
      hide Classify, EntryLine, Values, Section, Headers, WellFormedOverride;
      var p, o := os[..|os| - 1], os[|os| - 1];
      EntryLinesRead(p, section);
      WellFormedParts(o);
      EntryLineReads(o);
      LastLine(EntryLines(p), EntryLine(o), Some(section));
      UpdateOne(MapOf(p), o.Key(), o.value);
    }
  }

  lemma WellFormedParts(o: Override)
    requires WellFormedOverride(o)
    ensures WellFormedSection(o.section) && WellFormedKey(o.name) && WellFormedValue(o.name, o.value)
  {
  }

  lemma EntryLinesFree(os: seq<Override>)
    requires forall o | o in os :: WellFormedOverride(o)
    ensures FreeOf(EntryLines(os), '\n')
  {
    forall i | 0 <= i < |os| ensures '\n' !in EntryLines(os)[i] {
      assert os[i] in os;
      EntryLineReads(os[i]);
    }
  }
}
