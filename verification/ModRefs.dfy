/** Mod references and the lines they are written as: internal/domain/mod.go, lines 137-236. */
module ModRefs {
  import opened Text
  import opened Wrappers
  import Versions

  datatype Game = Minecraft | Valheim | OtherGame

  datatype ModRef = ModRef(ns: string, name: string, ver: string) {
    /** What two entries of the same mod share. */
    function Key(): string {
      if ns == "" then ToLower(name) else ToLower(ns + "-" + name)
    }

    function FullName(): string {
      if ns == "" then name else ns + "-" + name
    }

    /** The line to store, pinned when the version is known. */
    function Entry(): string {
      if ns != "" && ver != "" then ns + "/" + name + "/" + ver
      else if ns != "" then ns + "-" + name
      else if ver != "" then name + ":" + ver
      else name
    }
  }

  /** isSemver: major.minor.patch. */
  predicate IsSemver(s: string) {
    var parts := Split(s, '.');
    |parts| == 3 && forall i | 0 <= i < 3 :: parts[i] != "" && Versions.AllDigits(parts[i])
  }

  /** strings.Cut at c, with both sides non-empty. */
  function CutBoth(s: string, c: char): Option<(string, string)> {
    var i := IndexOf(s, c);
    if 0 < i < |s| - 1 then Some((s[..i], s[i + 1..])) else None
  }

  /** The second cut of a Valheim entry: a name, maybe empty, and a version. */
  function CutVersion(rest: string): Option<(string, string)> {
    var i := IndexOf(rest, '-');
    if i < |rest| && IsSemver(rest[i + 1..]) then Some((rest[..i], rest[i + 1..])) else None
  }

  /** The entry without its surroundings: trimmed, and less one '?'. */
  function Bare(entry: string): string {
    TrimSuffix(Trim(entry), "?")
  }

  function Slashed(parts: seq<string>): ModRef
    requires |parts| >= 3
  {
    var n := |parts|;
    ModRef(Join(parts[..n - 2], "/"), parts[n - 2], parts[n - 1])
  }

  function ParseBare(e: string, game: Game): ModRef {
    var parts := Split(e, '/');
    if |parts| >= 3 then Slashed(parts)
    else
      match game
      case Minecraft =>
        var pinned := CutBoth(e, ':');
        if pinned.Some? then ModRef("", pinned.value.0, pinned.value.1)
        else if |parts| == 2 && parts[0] != "" && parts[1] != "" then ModRef("", parts[0], parts[1])
        else ModRef("", e, "")
      case Valheim =>
        var named := CutBoth(e, '-');
        if named.None? then ModRef("", e, "")
        else
          var versioned := CutVersion(named.value.1);
          if versioned.Some? then ModRef(named.value.0, versioned.value.0, versioned.value.1)
          else ModRef(named.value.0, named.value.1, "")
      case OtherGame => ModRef("", e, "")
  }

  function ParseModRef(entry: string, game: Game): Option<ModRef> {
    var e := Bare(entry);
    if e == "" || e[0] == '#' then None else Some(ParseBare(e, game))
  }

  // ---- which references print and parse back ---------------------------------

  /** Nothing ParseModRef strips, and no comment. */
  predicate Outright(e: string) {
    e != "" && Trimmed(e) && e[0] != '#' && e[|e| - 1] != '?'
  }

  function Slashes(e: string): nat {
    |Split(e, '/')| - 1
  }

  /** The exact condition: the printed entry is read outright, and its separators are found
      where they were put. */
  predicate Printable(r: ModRef, game: Game) {
    Outright(r.Entry()) &&
    if r.ns != "" && r.ver != "" then '/' !in r.name && '/' !in r.ver
    else if r.ns != "" then
      game == Valheim && Slashes(r.Entry()) < 2 && '-' !in r.ns && r.name != "" && CutVersion(r.name).None?
    else if r.ver != "" then
      game == Minecraft && Slashes(r.Entry()) < 2 && r.name != "" && ':' !in r.name
    else
      Slashes(r.name) < 2 &&
      match game
      case Minecraft =>
        CutBoth(r.name, ':').None?
        && !(Slashes(r.name) == 1 && Split(r.name, '/')[0] != "" && Split(r.name, '/')[1] != "")
      case Valheim => CutBoth(r.name, '-').None?
      case OtherGame => true
  }

  lemma TrimLength(s: string)
    ensures |Trim(s)| == |s| <==> Trimmed(s)
    ensures Trimmed(s) ==> Trim(s) == s
  {
    var l, r := TrimParts(s);
    if Trimmed(s) {
      TrimOfTrimmed(s);
    }
    hide Trim, AllSpace;
    assert l == "" && r == "" ==> Trim(s) == s;
  }

  lemma BareLength(entry: string)
    ensures |Bare(entry)| <= |entry|
    ensures |Bare(entry)| == |entry| <==> entry == "" || (Trimmed(entry) && entry[|entry| - 1] != '?')
    ensures |Bare(entry)| == |entry| ==> Bare(entry) == entry
  {
    hide Trim;
    TrimLength(entry);
  }

  lemma {:induction false} JoinTwo(a: seq<string>, b: seq<string>)
    requires a != [] && b != []
    ensures Join(a + b, "/") == Join(a, "/") + "/" + Join(b, "/")
  {
    if |a| == 1 {
      assert (a + b)[1..] == b;
    } else {
      assert (a + b)[1..] == a[1..] + b;
      JoinTwo(a[1..], b);
      assert a[0] + "/" + (Join(a[1..], "/") + "/" + Join(b, "/")) ==
             a[0] + "/" + Join(a[1..], "/") + "/" + Join(b, "/");
    }
  }

  /** What a line with two slashes reads as is that line again. */
  lemma SlashedReads(e: string)
    requires Slashes(e) >= 2
    ensures var r := Slashed(Split(e, '/')); e == r.ns + "/" + r.name + "/" + r.ver
    ensures var r := Slashed(Split(e, '/')); '/' !in r.name && '/' !in r.ver
  {
    var parts := Split(e, '/');
    var n := |parts|;
    JoinSplit(e, '/');
    SplitFree(e, '/');
    hide Split, Join;
    assert ['/'] == "/";
    LastTwoJoined(parts);
    assert parts[n - 2] in parts && parts[n - 1] in parts;
  }

  lemma LastTwoJoined(parts: seq<string>)
    requires |parts| >= 3
    ensures var n := |parts|;
            Join(parts, "/") == Join(parts[..n - 2], "/") + "/" + parts[n - 2] + "/" + parts[n - 1]
  {
    hide Join;
    var n := |parts|;
    var a, b, c := Join(parts[..n - 2], "/"), parts[n - 2], parts[n - 1];
    assert parts == parts[..n - 2] + [b, c];
    JoinTwo(parts[..n - 2], [b, c]);
    JoinPair(b, c);
    assert a + "/" + (b + "/" + c) == a + "/" + b + "/" + c;
  }

  lemma JoinPair(a: string, b: string)
    ensures Join([a, b], "/") == a + "/" + b
  {
    assert [a, b][1..] == [b];
  }

  /** A pinned entry splits back at its last two slashes. */
  lemma PinnedSplits(ns: string, name: string, ver: string)
    requires '/' !in name && '/' !in ver
    ensures var e := ns + "/" + name + "/" + ver;
            Slashes(e) >= 2 && Slashed(Split(e, '/')) == ModRef(ns, name, ver)
  {
    SplitAppend(ns + ['/'] + name, '/', ver);
    SplitAppend(ns, '/', name);
    SplitOne(name, '/');
    SplitOne(ver, '/');
    JoinSplit(ns, '/');
    hide Split, Join;
    var e := ns + "/" + name + "/" + ver;
    assert e == ns + ['/'] + name + ['/'] + ver;
    var parts := Split(ns, '/') + [name] + [ver];
    assert parts[..|parts| - 2] == Split(ns, '/');
  }

  function Separators(r: ModRef): nat {
    (if r.ns == "" then 0 else 1) + (if r.ver == "" then 0 else 1)
  }

  lemma EntryLength(r: ModRef)
    ensures |r.Entry()| == |r.ns| + |r.name| + |r.ver| + Separators(r)
  {
  }

  lemma ValheimReads(e: string)
    requires Slashes(e) < 2
    ensures var q := ParseBare(e, Valheim);
            || q == ModRef("", e, "")
            || (q.ver == "" && e == q.ns + ['-'] + q.name)
            || e == q.ns + ['-'] + (q.name + ['-'] + q.ver)
  {
    CutParts(e, '-');
    hide Split, IsSemver;
    if CutBoth(e, '-').Some? && CutVersion(CutBoth(e, '-').value.1).Some? {
      CutVersionParts(CutBoth(e, '-').value.1);
    }
    hide CutBoth, CutVersion;
  }

  lemma CutVersionParts(rest: string)
    requires CutVersion(rest).Some?
    ensures rest == CutVersion(rest).value.0 + ['-'] + CutVersion(rest).value.1
  {
    hide IsSemver;
  }

  /** Parsing never makes the printed entry longer than what was read. */
  lemma ParseLength(e: string, game: Game)
    ensures |ParseBare(e, game).Entry()| <= |e|
  {
    var q := ParseBare(e, game);
    EntryLength(q);
    if Slashes(e) >= 2 {
      hide Split, Join, Slashed;
      SlashedReads(e);
      assert e == q.ns + "/" + q.name + "/" + q.ver;
    } else {
      match game
      case Minecraft => {
        hide *;
        MinecraftReads(e);
        CutParts(e, ':');
        MinecraftLength(e, q);
      }
      case Valheim => {
        hide *;
        ValheimReads(e);
        ValheimLength(e, q);
      }
      case OtherGame => {
        hide Split;
        assert q == ModRef("", e, "");
        hide *;
        NameLength(e, q);
      }
    }
  }

  lemma NameLength(e: string, q: ModRef)
    requires q == ModRef("", e, "")
    ensures |q.ns| + |q.name| + |q.ver| + Separators(q) == |e|
  {
  }

  lemma MinecraftLength(e: string, q: ModRef)
    requires q.ns == ""
    requires q == ModRef("", e, "") || e == q.name + ['/'] + q.ver || e == q.name + [':'] + q.ver
    ensures |q.ns| + |q.name| + |q.ver| + Separators(q) <= |e|
  {
  }

  lemma ValheimLength(e: string, q: ModRef)
    requires q == ModRef("", e, "") || (q.ver == "" && e == q.ns + ['-'] + q.name)
             || e == q.ns + ['-'] + (q.name + ['-'] + q.ver)
    ensures |q.ns| + |q.name| + |q.ver| + Separators(q) <= |e|
  {
  }

  lemma CutFound(a: string, c: char, b: string)
    requires a != "" && b != "" && c !in a
    ensures CutBoth(a + [c] + b, c) == Some((a, b))
  {
    IndexOfSplit(a, c, b);
    var s := a + [c] + b;
    assert s[..|a|] == a && s[|a| + 1..] == b;
  }

  lemma CutParts(s: string, c: char)
    ensures CutBoth(s, c).Some? ==>
              var (a, b) := CutBoth(s, c).value; a != "" && b != "" && s == a + [c] + b && c !in a
  {
  }

  lemma SemverNonEmpty(s: string)
    requires IsSemver(s)
    ensures s != ""
  {
    SplitOne("", '.');
  }

  /** Two slashes, wherever they are, read as a pinned entry. */
  lemma ReadsPinned(r: ModRef)
    requires r.ns != "" && r.ver != ""
    ensures Slashes(r.Entry()) >= 2
    ensures Slashed(Split(r.Entry(), '/')) == r <==> '/' !in r.name && '/' !in r.ver
  {
    SplitAppend(r.ns + ['/'] + r.name, '/', r.ver);
    SplitAppend(r.ns, '/', r.name);
    hide Split, Join;
    assert r.Entry() == r.ns + ['/'] + r.name + ['/'] + r.ver;
    SlashedReads(r.Entry());
    if '/' !in r.name && '/' !in r.ver {
      PinnedSplits(r.ns, r.name, r.ver);
    }
  }

  lemma ReadsUnslashed(r: ModRef)
    requires r.ns == "" || r.ver == ""
    ensures Slashes(r.Entry()) >= 2 ==> Slashed(Split(r.Entry(), '/')) != r
  {
    if Slashes(r.Entry()) >= 2 {
      SlashedReads(r.Entry());
      hide Split, Join;
      var e, q := r.Entry(), Slashed(Split(r.Entry(), '/'));
      assert e == q.ns + "/" + q.name + "/" + q.ver;
      DashIsNotSlash(r.ns, r.name, r.name + "/" + r.ver);
      assert q == r ==> e == r.ns + "/" + (r.name + "/" + r.ver);
    }
  }

  lemma DashIsNotSlash(ns: string, name: string, rest: string)
    ensures ns + "-" + name != ns + "/" + rest
  {
    assert (ns + "-" + name)[|ns|] != (ns + "/" + rest)[|ns|];
  }

  lemma ReadsNamed(r: ModRef, game: Game)
    requires r.ns != "" && r.ver == "" && Slashes(r.Entry()) < 2
    ensures ParseBare(r.Entry(), game) == r <==>
            game == Valheim && '-' !in r.ns && r.name != "" && CutVersion(r.name).None?
  {
    var e := r.Entry();
    CutParts(e, '-');
    if '-' !in r.ns && r.name != "" {
      CutFound(r.ns, '-', r.name);
      if CutVersion(r.name).Some? {
        SemverNonEmpty(CutVersion(r.name).value.1);
      }
    }
    hide Split, CutVersion, IsSemver;
    if CutBoth(e, '-').Some? {
      var (a, b) := CutBoth(e, '-').value;
      assert e == a + ['-'] + b == r.ns + ['-'] + r.name;
      if a == r.ns {
        assert b == e[|a| + 1..] == r.name;
      }
    }
  }

  /** Which branch reads a Minecraft line, and what it gives. */
  lemma MinecraftReads(e: string)
    requires Slashes(e) < 2
    ensures var q := ParseBare(e, Minecraft);
            if CutBoth(e, ':').Some? then q == ModRef("", CutBoth(e, ':').value.0, CutBoth(e, ':').value.1)
            else q == ModRef("", e, "") || (q.ns == "" && e == q.name + ['/'] + q.ver)
  {
    var parts := Split(e, '/');
    JoinSplit(e, '/');
    hide CutBoth, Split;
    if |parts| == 2 {
      PairJoined(e, parts);
    }
  }

  lemma PairJoined(e: string, parts: seq<string>)
    requires |parts| == 2 && Join(parts, "/") == e
    ensures e == parts[0] + ['/'] + parts[1]
  {
    JoinPair(parts[0], parts[1]);
    assert parts == [parts[0], parts[1]];
  }

  /** Without a namespace, only a Minecraft line carries a version. */
  lemma VersionOnlyInMinecraft(e: string, game: Game)
    requires Slashes(e) < 2 && game != Minecraft
    ensures ParseBare(e, game).ns != "" || ParseBare(e, game).ver == ""
  {
    CutParts(e, '-');
    hide Split, CutVersion, CutBoth;
  }

  lemma ColonMoves(name: string, ver: string, a: string, b: string)
    requires name + [':'] + ver == a + [':'] + b
    ensures a == name ==> b == ver
  {
    var e := name + [':'] + ver;
    if a == name {
      assert e[|a| + 1..] == b && e[|name| + 1..] == ver;
    }
  }

  lemma SlashIsNotColon(name: string, ver: string, ver': string)
    ensures name + [':'] + ver != name + ['/'] + ver'
  {
    assert (name + [':'] + ver)[|name|] != (name + ['/'] + ver')[|name|];
  }

  lemma ReadsColon(r: ModRef, game: Game)
    requires r.ns == "" && r.ver != "" && Slashes(r.Entry()) < 2
    ensures ParseBare(r.Entry(), game) == r <==> game == Minecraft && r.name != "" && ':' !in r.name
  {
    var e := r.Entry();
    assert e == r.name + [':'] + r.ver;
    hide *;
    if game != Minecraft {
      VersionOnlyInMinecraft(e, game);
    } else {
      MinecraftReads(e);
      CutParts(e, ':');
      if ':' !in r.name && r.name != "" {
        CutFound(r.name, ':', r.ver);
      } else if CutBoth(e, ':').Some? {
        var (a, b) := CutBoth(e, ':').value;
        ColonMoves(r.name, r.ver, a, b);
      } else {
        SlashIsNotColon(r.name, r.ver, ParseBare(e, game).ver);
      }
    }
  }

  lemma ReadsName(r: ModRef, game: Game)
    requires r.ns == "" && r.ver == "" && Slashes(r.name) < 2
    ensures ParseBare(r.name, game) == r <==>
            match game
            case Minecraft =>
              CutBoth(r.name, ':').None?
              && !(Slashes(r.name) == 1 && Split(r.name, '/')[0] != "" && Split(r.name, '/')[1] != "")
            case Valheim => CutBoth(r.name, '-').None?
            case OtherGame => true
  {
    CutParts(r.name, ':');
    CutParts(r.name, '-');
    hide Split, CutVersion, CutBoth;
  }

  /** THE ROUND TRIP, EXACTLY. Parsing the printed entry gives the reference back when it is
      printable, and only then. */
  lemma EntryReads(r: ModRef, game: Game)
    ensures ParseModRef(r.Entry(), game) == Some(r) <==> Printable(r, game)
  {
    var e := r.Entry();
    BareLength(e);
    ParseLength(Bare(e), game);
    hide Bare, Slashed, Trimmed;
    if e == "" || Bare(e) != e || e[0] == '#' {
      assert !Outright(e);
    } else {
      ReadsEntry(r, game);
    }
  }

  lemma ReadsEntry(r: ModRef, game: Game)
    requires Outright(r.Entry())
    ensures ParseBare(r.Entry(), game) == r <==> Printable(r, game)
  {
    hide Outright, Split, CutBoth, CutVersion, Slashed;
    if r.ns != "" && r.ver != "" {
      ReadsPinned(r);
    } else {
      ReadsUnslashed(r);
      if Slashes(r.Entry()) < 2 {
        if r.ns != "" {
          ReadsNamed(r, game);
        } else if r.ver != "" {
          ReadsColon(r, game);
        } else {
          ReadsName(r, game);
        }
      }
    }
  }

  // ---- keys, and the other ways to write a version -------------------------------

  /** A mod's name in full: "ns-name", or the name when there is no namespace. */
  function Spelling(r: ModRef): string {
    (if r.ns == "" then "" else r.ns + "-") + r.name
  }

  /** TWO REFERENCES ARE OF ONE MOD when their names in full differ in case alone, whatever their versions;
      that name is also what the catalogue is asked for. */
  lemma KeysByLetters(r: ModRef, s: ModRef)
    ensures r.Key() == s.Key() <==> SameLetters(Spelling(r), Spelling(s))
    ensures r.FullName() == Spelling(r)
  {
    hide ToLower, SameLetters;
    assert "" + r.name == r.name && "" + s.name == s.name;
    SameLower(Spelling(r), Spelling(s));
  }

  /** Three runs of digits between two dots. */
  ghost predicate ThreeNumbers(s: string) {
    exists a, b, c :: Digits(a) && Digits(b) && Digits(c) && s == a + "." + b + "." + c
  }

  predicate Digits(s: string) {
    s != "" && forall i | 0 <= i < |s| :: '0' <= s[i] <= '9'
  }

  lemma SplitThree(a: string, b: string, c: string)
    requires '.' !in a && '.' !in b && '.' !in c
    ensures Split(a + "." + b + "." + c, '.') == [a, b, c]
  {
    SplitAt(a, '.', b + ['.'] + c);
    SplitAt(b, '.', c);
    SplitOne(c, '.');
    assert a + "." + b + "." + c == a + ['.'] + (b + ['.'] + c);
  }

  lemma JoinThree(a: string, b: string, c: string)
    ensures Join([a, b, c], ".") == a + "." + b + "." + c
  {
    assert [a, b, c][1..] == [b, c] && [b, c][1..] == [c];
    assert Join([b, c], ".") == b + "." + Join([c], ".");
    assert Join([a, b, c], ".") == a + "." + Join([b, c], ".");
    assert a + "." + (b + "." + c) == a + "." + b + "." + c;
  }

  /** A SEMANTIC VERSION is three numbers between dots. */
  lemma SemverMeans(s: string)
    ensures IsSemver(s) <==> ThreeNumbers(s)
  {
    var parts := Split(s, '.');
    JoinSplit(s, '.');
    hide Split, Join;
    assert ['.'] == ".";
    if IsSemver(s) {
      assert parts == [parts[0], parts[1], parts[2]];
      JoinThree(parts[0], parts[1], parts[2]);
      assert Digits(parts[0]) && Digits(parts[1]) && Digits(parts[2]);
    }
    if a, b, c :| Digits(a) && Digits(b) && Digits(c) && s == a + "." + b + "." + c {
      SplitThree(a, b, c);
    }
  }

  /** A VALHEIM ENTRY WITH A VERSION AFTER A DASH is pinned when that is a semantic version, and a longer name
      when it is not. */
  lemma DashedEntryReads(ns: string, name: string, rest: string)
    requires ns != "" && '-' !in ns && '-' !in name
    requires var e := ns + ['-'] + (name + ['-'] + rest); Outright(e) && Slashes(e) < 2
    ensures ParseModRef(ns + ['-'] + (name + ['-'] + rest), Valheim) ==
            Some(if ThreeNumbers(rest) then ModRef(ns, name, rest) else ModRef(ns, name + ['-'] + rest, ""))
  {
    hide *;
    var tail := name + ['-'] + rest;
    assert |tail| > 0;
    VersionCut(name, rest);
    DashedBare(ns, tail);
    ReadOutright(ns + ['-'] + tail, Valheim);
  }

  lemma ReadOutright(e: string, game: Game)
    requires Outright(e)
    ensures ParseModRef(e, game) == Some(ParseBare(e, game))
  {
    BareLength(e);
    hide ParseBare, Bare, Trimmed;
  }

  lemma VersionCut(name: string, rest: string)
    requires '-' !in name
    ensures CutVersion(name + ['-'] + rest) == if ThreeNumbers(rest) then Some((name, rest)) else None
  {
    hide IsSemver, ThreeNumbers;
    var tail := name + ['-'] + rest;
    SemverMeans(rest);
    IndexOfSplit(name, '-', rest);
    assert tail[..|name|] == name && tail[|name| + 1..] == rest;
  }

  lemma DashedBare(ns: string, tail: string)
    requires ns != "" && '-' !in ns && tail != "" && Slashes(ns + ['-'] + tail) < 2
    ensures ParseBare(ns + ['-'] + tail, Valheim) ==
            if CutVersion(tail).None? then ModRef(ns, tail, "")
            else ModRef(ns, CutVersion(tail).value.0, CutVersion(tail).value.1)
  {
    hide Split, CutBoth, CutVersion;
    CutFound(ns, '-', tail);
  }

  /** A MINECRAFT ENTRY WITH A VERSION AFTER A COLON is pinned to it. */
  lemma ColonEntryReads(name: string, ver: string)
    requires name != "" && ver != "" && ':' !in name && '/' !in name && '/' !in ver && Outright(name + [':'] + ver)
    ensures ParseModRef(name + [':'] + ver, Minecraft) == Some(ModRef("", name, ver))
  {
    hide Split, Bare, CutBoth, Trimmed;
    var e := name + [':'] + ver;
    SplitOne(e, '/');
    CutFound(name, ':', ver);
    BareLength(e);
  }

  /** And so is one with a version after a single slash. */
  lemma SlashEntryReads(name: string, ver: string)
    requires name != "" && ver != "" && '/' !in name && '/' !in ver && ':' !in name && ':' !in ver
    requires Outright(name + ['/'] + ver)
    ensures ParseModRef(name + ['/'] + ver, Minecraft) == Some(ModRef("", name, ver))
  {
    hide Split, Bare, CutBoth, Trimmed;
    var e := name + ['/'] + ver;
    SplitAt(name, '/', ver);
    SplitOne(ver, '/');
    NoCut(e, ':');
    BareLength(e);
  }

  lemma NoCut(s: string, c: char)
    requires c !in s
    ensures CutBoth(s, c).None?
  {
  }

  /** A COMMENT OR A BLANK LINE is no entry; white space around an entry and one '?' after it do not count. */
  lemma EntryOutsides(l: string, e: string, r: string, game: Game)
    requires AllSpace(l) && AllSpace(r) && Trimmed(e)
    ensures e == "" || e[0] == '#' ==> ParseModRef(l + e + r, game) == None
    ensures Outright(e) ==> ParseModRef(l + e + r, game) == ParseModRef(e, game) == ParseModRef(l + (e + "?") + r, game)
  {
    hide Trim, ParseBare;
    TrimUnique(l, e, r);
    TrimOfTrimmed(e);
    if Outright(e) {
      assert (e + "?")[..|e|] == e && (e + "?")[|e|..] == "?";
      TrimUnique(l, e + "?", r);
      BareLength(e);
    } else if e != "" && e[0] == '#' {
      assert TrimSuffix(e, "?") != "" ==> TrimSuffix(e, "?")[0] == '#';
    }
  }
}
