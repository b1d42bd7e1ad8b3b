/** The string operations of Go's `strings` package that the models use, on
    texts as sequences of Unicode characters, with the laws the proofs need. */
module Text {

  /** unicode.IsSpace: what strings.TrimSpace removes. */
  predicate IsSpace(c: char) {
    || c == '\t' || c == '\n' || c == '\U{0B}' || c == '\U{0C}' || c == '\r' || c == ' '
    || c == '\U{85}' || c == '\U{A0}' || c == '\U{1680}'
    || '\U{2000}' <= c <= '\U{200A}'
    || c == '\U{2028}' || c == '\U{2029}' || c == '\U{202F}' || c == '\U{205F}' || c == '\U{3000}'
  }

  /** The cutset " \t" that separators are measured with. */
  predicate IsBlank(c: char) {
    c == ' ' || c == '\t'
  }

  ghost predicate AllSpace(s: string) {
    forall i | 0 <= i < |s| :: IsSpace(s[i])
  }

  ghost predicate AllBlank(s: string) {
    forall i | 0 <= i < |s| :: IsBlank(s[i])
  }

  /** No white space at either end. */
  predicate Trimmed(s: string) {
    s == "" || (!IsSpace(s[0]) && !IsSpace(s[|s| - 1]))
  }

  /** The first position from i on that holds no white space. */
  function SkipSpace(s: string, i: nat): (r: nat)
    requires i <= |s|
    ensures i <= r <= |s|
    ensures forall j | i <= j < r :: IsSpace(s[j])
    ensures r < |s| ==> !IsSpace(s[r])
    decreases |s| - i
  {
    if i < |s| && IsSpace(s[i]) then SkipSpace(s, i + 1) else i
  }

  /** The end of s without the white space that ends it, not before lo. */
  function SpaceStart(s: string, lo: nat, n: nat): (r: nat)
    requires lo <= n <= |s|
    ensures lo <= r <= n
    ensures forall j | r <= j < n :: IsSpace(s[j])
    ensures lo < r ==> !IsSpace(s[r - 1])
    decreases n
  {
    if lo < n && IsSpace(s[n - 1]) then SpaceStart(s, lo, n - 1) else n
  }

  /** strings.TrimSpace. */
  function Trim(s: string): (t: string)
    ensures |t| <= |s| && Trimmed(t)
  {
    var lo := SkipSpace(s, 0);
    s[lo..SpaceStart(s, lo, |s|)]
  }

  /** How many blanks lead s: what strings.TrimLeft(s, " \t") removes. */
  function LeadingBlanks(s: string, i: nat := 0): (r: nat)
    requires i <= |s|
    ensures i <= r <= |s|
    ensures forall j | i <= j < r :: IsBlank(s[j])
    ensures r < |s| ==> !IsBlank(s[r])
    decreases |s| - i
  {
    if i < |s| && IsBlank(s[i]) then LeadingBlanks(s, i + 1) else i
  }

  /** Where the blanks that end s[..n] start: the length of strings.TrimRight(s, " \t"). */
  function BlanksStart(s: string, n: nat): (r: nat)
    requires n <= |s|
    ensures r <= n
    ensures forall j | r <= j < n :: IsBlank(s[j])
    ensures 0 < r ==> !IsBlank(s[r - 1])
    decreases n
  {
    if 0 < n && IsBlank(s[n - 1]) then BlanksStart(s, n - 1) else n
  }

  predicate HasPrefix(s: string, p: string) {
    p <= s
  }

  /** strings.TrimSuffix(s, suffix). */
  function TrimSuffix(s: string, suffix: string): string {
    if |suffix| <= |s| && s[|s| - |suffix|..] == suffix then s[..|s| - |suffix|] else s
  }

  function TrimPrefix(s: string, prefix: string): string {
    if prefix <= s then s[|prefix|..] else s
  }

  /** strings.ToLower on the ASCII letters. */
  function LowerChar(c: char): char {
    if 'A' <= c <= 'Z' then (c as int + 32) as char else c
  }

  function ToLower(s: string): (r: string)
    ensures |r| == |s|
    ensures forall i | 0 <= i < |s| :: r[i] == LowerChar(s[i])
  {
    if s == "" then "" else [LowerChar(s[0])] + ToLower(s[1..])
  }

  const CAPITALS := "ABCDEFGHIJKLMNOPQRSTUVWXYZ"
  const LETTERS := "abcdefghijklmnopqrstuvwxyz"

  /** Each capital becomes its small letter, and nothing else changes. */
  lemma LowerLetters(c: char)
    ensures forall i | 0 <= i < 26 :: LowerChar(CAPITALS[i]) == LETTERS[i]
    ensures c !in CAPITALS ==> LowerChar(c) == c
  {
    if 'A' <= c <= 'Z' {
      assert CAPITALS[c as int - 'A' as int] == c;
    }
  }

  /** The same letters, in any case. */
  predicate SameLetters(a: string, b: string) {
    |a| == |b| && forall i | 0 <= i < |a| :: LowerChar(a[i]) == LowerChar(b[i])
  }

  lemma SameLower(a: string, b: string)
    ensures ToLower(a) == ToLower(b) <==> SameLetters(a, b)
  {
    hide LowerChar;
    if ToLower(a) == ToLower(b) {
      assert forall i | 0 <= i < |a| :: ToLower(a)[i] == LowerChar(a[i]) && ToLower(b)[i] == LowerChar(b[i]);
    }
  }

  // ---- trimming --------------------------------------------------------------

  lemma Regroup(a: string, b: string, m: string, c: string, d: string)
    ensures a + (b + m + c) + d == (a + b) + m + (c + d)
  {
  }

  /** A text is its trimmed core with white space on both sides. */
  lemma TrimParts(s: string) returns (l: string, r: string)
    ensures AllSpace(l) && AllSpace(r) && s == l + Trim(s) + r
  {
    var lo := SkipSpace(s, 0);
    var hi := SpaceStart(s, lo, |s|);
    l, r := s[..lo], s[hi..];
  }

  /** The decomposition is unique: this is how every trimmed form is computed. */
  lemma TrimUnique(l: string, t: string, r: string)
    requires AllSpace(l) && AllSpace(r) && Trimmed(t)
    ensures Trim(l + t + r) == t
  {
    var s := l + t + r;
    var lo := SkipSpace(s, 0);
    var hi := SpaceStart(s, lo, |s|);
    assert s[|l|..|l| + |t|] == t;
    if t != "" {
      assert s[|l|] == t[0] && s[|l| + |t| - 1] == t[|t| - 1];
      assert forall j | 0 <= j < |l| :: s[j] == l[j];
      assert forall j | |l| + |t| <= j < |s| :: s[j] == r[j - |l| - |t|];
      assert lo == |l| && hi == |l| + |t|;
    } else {
      assert forall j | 0 <= j < |s| :: IsSpace(s[j]);
      assert lo == |s|;
    }
  }

  lemma TrimOfTrimmed(t: string)
    requires Trimmed(t)
    ensures Trim(t) == t
  {
    TrimUnique("", t, "");
    assert "" + t + "" == t;
  }

  /** White space on the left or the right does not change the trimmed form. */
  lemma TrimPadded(l: string, s: string, r: string)
    requires AllSpace(l) && AllSpace(r)
    ensures Trim(l + s + r) == Trim(s)
  {
    var a, b := TrimParts(s);
    TrimUnique(l + a, Trim(s), b + r);
    Regroup(l, a, Trim(s), b, r);
  }

  lemma TrimPadRight(s: string, r: string)
    requires AllSpace(r)
    ensures Trim(s + r) == Trim(s)
  {
    TrimPadded("", s, r);
    assert "" + s + r == s + r;
  }

  lemma TrimPadLeft(l: string, s: string)
    requires AllSpace(l)
    ensures Trim(l + s) == Trim(s)
  {
    TrimPadded(l, s, "");
    assert l + s + "" == l + s;
  }

  lemma TrimKeepsOut(s: string, c: char)
    requires c !in s
    ensures c !in Trim(s)
  {
    var l, r := TrimParts(s);
    assert forall i | 0 <= i < |Trim(s)| :: Trim(s)[i] == s[|l| + i];
  }

  lemma TrimKeepsIn(s: string, c: char)
    requires c in s && !IsSpace(c)
    ensures c in Trim(s)
  {
    hide Trim, IsSpace, AllSpace;
    var l, r := TrimParts(s);
    SpaceLacks(l, c);
    SpaceLacks(r, c);
    assert c in l + Trim(s) + r;
  }

  lemma SpaceLacks(l: string, c: char)
    requires AllSpace(l) && !IsSpace(c)
    ensures c !in l
  {
    hide IsSpace;
  }

  // ---- splitting and joining -------------------------------------------------

  /** strings.Split with a one-character separator. */
  function Split(s: string, c: char): (r: seq<string>)
    ensures |r| >= 1
  {
    if s == "" then [""]
    else
      var rest := Split(s[1..], c);
      if s[0] == c then [""] + rest else [[s[0]] + rest[0]] + rest[1..]
  }

  /** strings.Join. */
  function Join(ls: seq<string>, sep: string): string {
    if ls == [] then ""
    else if |ls| == 1 then ls[0]
    else ls[0] + sep + Join(ls[1..], sep)
  }

  /** Every line followed by a line break. */
  function Unlines(ls: seq<string>): string {
    if ls == [] then "" else ls[0] + "\n" + Unlines(ls[1..])
  }

  ghost predicate FreeOf(ls: seq<string>, c: char) {
    forall l | l in ls :: c !in l
  }

  lemma {:induction false} JoinSplit(s: string, c: char)
    ensures Join(Split(s, c), [c]) == s
  {
    if s != "" {
      JoinSplit(s[1..], c);
      var rest := Split(s[1..], c);
      if s[0] == c {
        assert Split(s, c)[1..] == rest;
      } else {
        assert Split(s, c)[1..] == rest[1..];
        assert s == [s[0]] + s[1..];
      }
    }
  }

  lemma {:induction false} SplitFree(s: string, c: char)
    ensures FreeOf(Split(s, c), c)
  {
    if s != "" {
      SplitFree(s[1..], c);
    }
  }

  lemma {:induction false} SplitOne(s: string, c: char)
    requires c !in s
    ensures Split(s, c) == [s]
  {
    if s != "" {
      SplitOne(s[1..], c);
      assert s == [s[0]] + s[1..];
    }
  }

  lemma {:induction false} SplitAt(a: string, c: char, b: string)
    requires c !in a
    ensures Split(a + [c] + b, c) == [a] + Split(b, c)
  {
    var s := a + [c] + b;
    if a == "" {
      assert s[1..] == b;
    } else {
      assert s[1..] == a[1..] + [c] + b;
      SplitAt(a[1..], c, b);
      assert a == [a[0]] + a[1..];
      assert Split(s, c) == [[a[0]] + a[1..]] + Split(b, c);
    }
  }

  lemma {:induction false} SplitAppend(a: string, c: char, b: string)
    ensures Split(a + [c] + b, c) == Split(a, c) + Split(b, c)
  {
    if a == "" {
      SplitAt("", c, b);
      return;
    }
    hide Split;
    var x, a' := a[0], a[1..];
    SplitAppend(a', c, b);
    SplitHead(x, a' + [c] + b, c);
    SplitHead(x, a', c);
    Prepend(x, a', [c], b);
    assert a == [x] + a';
    HeadOfAppend(Split(a', c), Split(b, c), x);
  }

  lemma SplitHead(x: char, s: string, c: char)
    ensures Split([x] + s, c) == if x == c then [""] + Split(s, c) else [[x] + Split(s, c)[0]] + Split(s, c)[1..]
  {
    assert ([x] + s)[1..] == s;
  }

  lemma HeadOfAppend(p: seq<string>, q: seq<string>, x: char)
    requires p != []
    ensures [[x] + (p + q)[0]] + (p + q)[1..] == ([[x] + p[0]] + p[1..]) + q
    ensures [""] + (p + q) == ([""] + p) + q
  {
  }

  lemma {:induction false} SplitJoin(ls: seq<string>, c: char)
    requires ls != [] && FreeOf(ls, c)
    ensures Split(Join(ls, [c]), c) == ls
  {
    if |ls| == 1 {
      SplitOne(ls[0], c);
    } else {
      SplitAt(ls[0], c, Join(ls[1..], [c]));
      SplitJoin(ls[1..], c);
      assert Join(ls, [c]) == ls[0] + [c] + Join(ls[1..], [c]);
    }
  }

  /** Joining is injective on lines free of the separator. */
  lemma JoinInjective(a: seq<string>, b: seq<string>, c: char)
    requires a != [] && b != [] && FreeOf(a, c) && FreeOf(b, c)
    requires Join(a, [c]) == Join(b, [c])
    ensures a == b
  {
    SplitJoin(a, c);
    SplitJoin(b, c);
  }

  lemma {:induction false} UnlinesIsJoin(ls: seq<string>)
    ensures Unlines(ls) == Join(ls + [""], "\n")
  {
    if ls != [] {
      UnlinesIsJoin(ls[1..]);
      assert (ls + [""])[1..] == ls[1..] + [""];
    } else {
      assert ls + [""] == [""];
    }
  }

  lemma SplitUnlines(ls: seq<string>)
    requires FreeOf(ls, '\n')
    ensures Split(Unlines(ls), '\n') == ls + [""]
  {
    UnlinesIsJoin(ls);
    SplitJoin(ls + [""], '\n');
  }

  lemma {:induction false} UnlinesAppend(a: seq<string>, b: seq<string>)
    ensures Unlines(a + b) == Unlines(a) + Unlines(b)
  {
    if a == [] {
      assert a + b == b;
    } else {
      assert (a + b)[1..] == a[1..] + b;
      UnlinesAppend(a[1..], b);
    }
  }

  // ---- cutting ---------------------------------------------------------------

  /** The position of the first c in s from i on, or |s|. */
  function IndexOf(s: string, c: char, i: nat := 0): (r: nat)
    requires i <= |s|
    ensures i <= r <= |s|
    ensures forall j | i <= j < r :: s[j] != c
    ensures r < |s| ==> s[r] == c
    decreases |s| - i
  {
    if i == |s| || s[i] == c then i else IndexOf(s, c, i + 1)
  }

  lemma IndexOfSplit(a: string, c: char, b: string)
    requires c !in a
    ensures IndexOf(a + [c] + b, c) == |a|
  {
    var s := a + [c] + b;
    assert s[|a|] == c;
    assert forall j | 0 <= j < |a| :: s[j] == a[j] && a[j] in a;
  }

  // ---- line breaks -----------------------------------------------------------

  /** strings.ReplaceAll(s, "\r\n", "\n"): one pass, left to right. */
  function Normalise(s: string): (r: string)
    ensures |r| <= |s|
  {
    if s == "" then ""
    else if |s| >= 2 && s[0] == '\r' && s[1] == '\n' then "\n" + Normalise(s[2..])
    else [s[0]] + Normalise(s[1..])
  }

  predicate NoCrlf(s: string) {
    forall i | 0 <= i < |s| - 1 :: !(s[i] == '\r' && s[i + 1] == '\n')
  }

  lemma {:induction false} NormaliseFixed(s: string)
    ensures Normalise(s) == s <==> NoCrlf(s)
    ensures !NoCrlf(s) ==> |Normalise(s)| < |s|
  {
    if s != "" {
      if |s| >= 2 && s[0] == '\r' && s[1] == '\n' {
      } else {
        NormaliseFixed(s[1..]);
        assert forall i | 1 <= i < |s| - 1 :: s[i] == s[1..][i - 1] && s[i + 1] == s[1..][i];
        if NoCrlf(s[1..]) {
          assert NoCrlf(s) by {
            forall i | 0 <= i < |s| - 1 ensures !(s[i] == '\r' && s[i + 1] == '\n') {
              if i > 0 {
                assert !(s[1..][i - 1] == '\r' && s[1..][i] == '\n');
              }
            }
          }
          assert s == [s[0]] + s[1..];
        } else {
          var j :| 0 <= j < |s[1..]| - 1 && s[1..][j] == '\r' && s[1..][j + 1] == '\n';
          assert s[j + 1] == '\r' && s[j + 2] == '\n';
        }
      }
    }
  }

  /** A line that loses its carriage return when the next break is normalised. */
  function DropCr(l: string): string {
    if l != "" && l[|l| - 1] == '\r' then l[..|l| - 1] else l
  }

  function DropCrs(ls: seq<string>): (r: seq<string>)
    ensures |r| == |ls|
    ensures forall i | 0 <= i < |ls| - 1 :: r[i] == DropCr(ls[i])
    ensures ls != [] ==> r[|ls| - 1] == ls[|ls| - 1]
  {
    seq(|ls|, i requires 0 <= i < |ls| => if i < |ls| - 1 then DropCr(ls[i]) else ls[i])
  }

  lemma NormaliseCons(c: char, s: string)
    requires !(c == '\r' && s != "" && s[0] == '\n')
    ensures Normalise([c] + s) == [c] + Normalise(s)
  {
    assert ([c] + s)[1..] == s;
  }

  lemma NormaliseCrlf(s: string)
    ensures Normalise(['\r', '\n'] + s) == ['\n'] + Normalise(s)
  {
    assert (['\r', '\n'] + s)[2..] == s;
  }

  lemma {:induction false} NormaliseLine(l: string, rest: string)
    requires '\n' !in l
    ensures Normalise(l + ['\n'] + rest) == DropCr(l) + ['\n'] + Normalise(rest)
  {
    hide Normalise, DropCr;
    if l == "" {
      DropCrShort();
      NormaliseCons('\n', rest);
      assert l + ['\n'] + rest == ['\n'] + rest;
    } else if l == ['\r'] {
      DropCrShort();
      NormaliseCrlf(rest);
      assert l + ['\n'] + rest == ['\r', '\n'] + rest;
    } else {
      var c, l' := l[0], l[1..];
      NormaliseLine(l', rest);
      NormaliseCons(c, l' + ['\n'] + rest);
      assert l == [c] + l';
      DropCrCons(c, l');
      Prepend(c, l', ['\n'], rest);
      Prepend(c, DropCr(l'), ['\n'], Normalise(rest));
      assert l' == "" || l'[0] == l[1];
    }
  }

  lemma DropCrShort()
    ensures DropCr("") == "" && DropCr(['\r']) == ""
  {
  }

  lemma DropCrCons(c: char, l: string)
    requires c == '\r' ==> l != ""
    ensures DropCr([c] + l) == [c] + DropCr(l)
  {
  }

  lemma Prepend(c: char, a: string, b: string, d: string)
    ensures [c] + (a + b + d) == ([c] + a) + b + d
  {
  }

  lemma {:induction false} NormaliseNoBreak(l: string)
    requires '\n' !in l
    ensures Normalise(l) == l
  {
    assert NoCrlf(l) by {
      assert forall j | 0 <= j < |l| :: l[j] != '\n';
    }
    NormaliseFixed(l);
  }

  /** Reading joined lines back: every line but the last may lose one '\r'. */
  lemma {:induction false} NormaliseJoin(ls: seq<string>)
    requires ls != [] && FreeOf(ls, '\n')
    ensures Split(Normalise(Join(ls, "\n")), '\n') == DropCrs(ls)
  {
    hide Split, Normalise;
    if |ls| == 1 {
      NormaliseNoBreak(ls[0]);
      SplitOne(ls[0], '\n');
    } else {
      var rest := Join(ls[1..], "\n");
      NormaliseLine(ls[0], rest);
      assert Join(ls, "\n") == ls[0] + ['\n'] + rest;
      NormaliseJoin(ls[1..]);
      assert '\n' !in DropCr(ls[0]);
      SplitAt(DropCr(ls[0]), '\n', Normalise(rest));
      assert DropCrs(ls) == [DropCr(ls[0])] + DropCrs(ls[1..]);
    }
  }
}
