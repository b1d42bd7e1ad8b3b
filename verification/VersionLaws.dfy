/** What the version comparisons say of the texts themselves: internal/domain/mod.go, lines 256-350,
    and internal/domain/pack.go, lines 83-159. */
module VersionLaws {
  import opened Text
  import opened Wrappers
  import opened Versions
  import opened McVersions
  import Order

  // ---- what a run of digits spells -----------------------------------------------

  const DIGITS := "0123456789"

  /** The decimal digits of a number. */
  function Spelled(n: nat): string {
    if n < 10 then [DIGITS[n]] else Spelled(n / 10) + [DIGITS[n % 10]]
  }

  lemma {:induction false} SpelledIsDigits(n: nat)
    ensures Spelled(n) != "" && AllDigits(Spelled(n)) && (n > 0 ==> Spelled(n)[0] != '0')
  {
    if n >= 10 {
      SpelledIsDigits(n / 10);
    }
  }

  lemma NumberLast(s: string, d: char)
    requires AllDigits(s) && IsDigit(d)
    ensures AllDigits(s + [d]) && Number(s + [d]) == 10 * Number(s) + (d as int - '0' as int)
  {
    assert (s + [d])[..|s|] == s;
  }

  /** A NUMBER READS AS IT IS SPELLED, in base ten. */
  lemma {:induction false} NumberReads(n: nat)
    ensures AllDigits(Spelled(n)) && Number(Spelled(n)) == n
  {
    SpelledIsDigits(n);
    if n < 10 {
      NumberLast("", DIGITS[n]);
      assert "" + [DIGITS[n]] == Spelled(n);
    } else {
      hide Number;
      NumberReads(n / 10);
      SpelledIsDigits(n / 10);
      NumberLast(Spelled(n / 10), DIGITS[n % 10]);
    }
  }

  /** The digits without their leading zeros. */
  function Unpad(s: string): string {
    if s != "" && s[0] == '0' then Unpad(s[1..]) else s
  }

  lemma {:induction false} UnpadDigits(s: string)
    requires AllDigits(s)
    ensures AllDigits(Unpad(s)) && (Unpad(s) != "" ==> Unpad(s)[0] != '0')
  {
    if s != "" && s[0] == '0' {
      UnpadDigits(s[1..]);
    }
  }

  lemma {:induction false} NumberZero(s: string)
    requires AllDigits(s)
    ensures AllDigits("0" + s) && Number("0" + s) == Number(s)
  {
    if s == "" {
      NumberLast("", '0');
      assert "0" + s == "" + ['0'];
    } else {
      hide Number;
      var p, d := s[..|s| - 1], s[|s| - 1];
      NumberZero(p);
      NumberLast("0" + p, d);
      NumberLast(p, d);
      assert "0" + p + [d] == "0" + s && p + [d] == s;
    }
  }

  lemma {:induction false} NumberUnpadded(s: string)
    requires AllDigits(s)
    ensures AllDigits(Unpad(s)) && Number(Unpad(s)) == Number(s)
  {
    if s != "" && s[0] == '0' {
      hide Number;
      NumberUnpadded(s[1..]);
      NumberZero(s[1..]);
      assert "0" + s[1..] == s;
    }
  }

  /** More digits, or as many and the first that differs is greater. */
  predicate Exceeds(s: string, t: string) {
    |s| > |t| || (|s| == |t| && Order.Less(t, s))
  }

  lemma {:induction false} LessLast(s: string, t: string, c: char, d: char)
    requires |s| == |t|
    ensures Order.Less(s + [c], t + [d]) <==> Order.Less(s, t) || (s == t && c < d)
  {
    if s == "" {
      assert s + [c] == [c] && t + [d] == [d];
    } else {
      assert (s + [c])[1..] == s[1..] + [c] && (t + [d])[1..] == t[1..] + [d];
      LessLast(s[1..], t[1..], c, d);
      assert s == [s[0]] + s[1..] && t == [t[0]] + t[1..];
    }
  }

  function Pow10(n: nat): nat {
    if n == 0 then 1 else 10 * Pow10(n - 1)
  }

  lemma {:induction false} NumberBounds(s: string)
    requires AllDigits(s)
    ensures Number(s) < Pow10(|s|)
    ensures s != "" && s[0] != '0' ==> Number(s) >= Pow10(|s| - 1)
  {
    if s != "" {
      NumberBounds(s[..|s| - 1]);
    }
  }

  lemma {:induction false} PowGrows(m: nat, n: nat)
    requires m <= n
    ensures Pow10(m) <= Pow10(n)
  {
    if m < n {
      PowGrows(m, n - 1);
    }
  }

  lemma {:induction false} SameLengthNumbers(s: string, t: string)
    requires AllDigits(s) && AllDigits(t) && |s| == |t|
    ensures Number(s) > Number(t) <==> Order.Less(t, s)
    ensures Number(s) == Number(t) <==> s == t
  {
    if s != "" {
      hide Number, Order.Less;
      var p, q, c, d := s[..|s| - 1], t[..|t| - 1], s[|s| - 1], t[|t| - 1];
      SameLengthNumbers(p, q);
      assert s == p + [c] && t == q + [d];
      NumberLast(p, c);
      NumberLast(q, d);
      LessLast(q, p, d, c);
    }
  }

  /** NUMBERS COMPARE AS THEIR DIGITS DO, leading zeros aside. */
  lemma NumberOrder(s: string, t: string)
    requires AllDigits(s) && AllDigits(t)
    ensures Number(s) > Number(t) <==> Exceeds(Unpad(s), Unpad(t))
    ensures Number(s) == Number(t) <==> Unpad(s) == Unpad(t)
  {
    hide Number, Order.Less, Pow10;
    NumberUnpadded(s);
    NumberUnpadded(t);
    UnpadDigits(s);
    UnpadDigits(t);
    var a, b := Unpad(s), Unpad(t);
    NumberBounds(a);
    NumberBounds(b);
    if |a| > |b| {
      PowGrows(|b|, |a| - 1);
    } else if |a| < |b| {
      PowGrows(|a|, |b| - 1);
    } else {
      SameLengthNumbers(a, b);
    }
  }

  lemma SpelledUnpadded(n: nat)
    requires n > 0
    ensures Unpad(Spelled(n)) == Spelled(n)
  {
    hide Spelled;
    SpelledIsDigits(n);
  }

  /** Digits that spell an int. */
  predicate InRange(s: string) {
    !Exceeds(Unpad(s), Spelled(MAX_INT))
  }

  lemma MaxSpelled()
    ensures var max := Spelled(MAX_INT); AllDigits(max) && Number(max) == MAX_INT && Unpad(max) == max
  {
    hide Number, Unpad, Spelled;
    NumberReads(MAX_INT);
    SpelledUnpadded(MAX_INT);
  }

  /** DIGITS BEYOND THE GREATEST INT count as it. */
  lemma ClampedMeans(s: string)
    requires AllDigits(s)
    ensures InRange(s) <==> Number(s) <= MAX_INT
    ensures Clamped(s) == if InRange(s) then Number(s) else MAX_INT
  {
    hide Spelled, Number, Clamped, InRange, Unpad, Exceeds;
    MaxSpelled();
    InRangeIs(s);
    ClampedAgainst(s, Spelled(MAX_INT));
  }

  lemma ClampedAgainst(s: string, max: string)
    requires AllDigits(s) && AllDigits(max) && Number(max) == MAX_INT && Unpad(max) == max
    ensures Exceeds(Unpad(s), max) <==> Number(s) > MAX_INT
    ensures Clamped(s) == if Exceeds(Unpad(s), max) then MAX_INT else Number(s)
  {
    hide *;
    NumberOrder(s, max);
    ClampedIs(s);
  }

  lemma ClampedOrder(s: string, t: string)
    requires AllDigits(s) && AllDigits(t)
    ensures InRange(s) <==> Number(s) <= MAX_INT
    ensures InRange(s) && InRange(t) ==> (Clamped(s) > Clamped(t) <==> Exceeds(Unpad(s), Unpad(t)))
    ensures InRange(s) && InRange(t) ==> (Clamped(s) == Clamped(t) <==> Unpad(s) == Unpad(t))
  {
    hide *;
    ClampedMeans(s);
    ClampedMeans(t);
    NumberOrder(s, t);
  }

  lemma ClampedIs(s: string)
    requires AllDigits(s)
    ensures Clamped(s) == if Number(s) <= MAX_INT then Number(s) else MAX_INT
  {
    hide Number;
  }

  lemma InRangeIs(s: string)
    ensures InRange(s) <==> !Exceeds(Unpad(s), Spelled(MAX_INT))
  {
    hide Exceeds, Unpad, Spelled;
  }

  // ---- a version text --------------------------------------------------------------

  /** A segment's text: digits, and text that starts with none. */
  lemma SegmentReads(l: string, digits: string, rest: string, r: string)
    requires AllSpace(l) && AllSpace(r) && AllDigits(digits)
    requires Trimmed(digits + rest) && (rest != "" ==> !IsDigit(rest[0]))
    ensures LeadingInt(l + (digits + rest) + r) == (Clamped(digits), rest)
  {
    var s := digits + rest;
    TrimUnique(l, s, r);
    hide Trim, Clamped, Number;
    RunOf(digits, rest, 0);
    assert s[..|digits|] == digits && s[|digits|..] == rest;
    assert digits == "" ==> s == rest;
    NothingSpelled();
  }

  lemma NothingSpelled()
    ensures AllDigits("") && Clamped("") == 0
  {
  }

  lemma {:induction false} RunOf(digits: string, rest: string, i: nat)
    requires AllDigits(digits) && (rest != "" ==> !IsDigit(rest[0])) && i <= |digits|
    ensures DigitRun(digits + rest, i) == |digits|
    decreases |digits| - i
  {
    if i < |digits| {
      assert (digits + rest)[i] == digits[i];
      RunOf(digits, rest, i + 1);
    } else {
      assert rest != "" ==> (digits + rest)[i] == rest[0];
    }
  }

  function PreText(pre: Option<string>): string {
    if pre.Some? then "-" + pre.value else ""
  }

  function BuildText(build: string): string {
    if build == "" then "" else "+" + build
  }

  function VersionText(segments: seq<string>, pre: Option<string>, build: string): string {
    Join(segments, ".") + PreText(pre) + BuildText(build)
  }

  /** The text writes this version: segments of digits, then a prerelease and a build, with the marks
      and the white space that do not count. */
  ghost predicate Writes(a: string, segments: seq<string>, pre: Option<string>, build: string) {
    && segments != [] && Numeric(segments) && (pre.Some? ==> '+' !in pre.value)
    && exists l, v, r :: Framed(a, l, v, VersionText(segments, pre, build), r)
  }

  ghost predicate Framed(a: string, l: string, v: string, text: string, r: string) {
    && AllSpace(l) && AllSpace(r) && (v == "" || v == "v" || v == "V" || v == "vV")
    && Trimmed(v + text) && a == l + (v + text) + r
  }

  /** The digits of segment i without leading zeros; none past the end. */
  function DigitsAt(segments: seq<string>, i: nat): string {
    if i < |segments| then Unpad(segments[i]) else ""
  }

  predicate Ranged(segments: seq<string>) {
    forall i | 0 <= i < |segments| :: AllDigits(segments[i]) && InRange(segments[i])
  }

  lemma {:induction false} JoinedDigits(segments: seq<string>)
    requires segments != [] && Numeric(segments)
    ensures var s := Join(segments, ".");
            s != "" && IsDigit(s[0]) && forall i | 0 <= i < |s| :: IsDigit(s[i]) || s[i] == '.'
  {
    if |segments| > 1 {
      JoinedDigits(segments[1..]);
    }
  }

  lemma CutWhere(a: string, c: char, b: string)
    requires c !in a
    ensures CutAt(a, c) == (a, None) && CutAt(a + [c] + b, c) == (a, Some(b))
  {
    IndexOfSplit(a, c, b);
    assert (a + [c] + b)[..|a|] == a && (a + [c] + b)[|a| + 1..] == b;
    IndexMissing(a, c);
  }

  lemma {:induction false} IndexMissing(a: string, c: char)
    requires c !in a
    ensures IndexOf(a, c) == |a|
  {
  }

  lemma MarkStripped(v: string, core: string)
    requires core != "" && IsDigit(core[0]) && (v == "" || v == "v" || v == "V" || v == "vV")
    ensures TrimPrefix(TrimPrefix(v + core, "v"), "V") == core
  {
    assert v == "" ==> v + core == core;
    assert v == "vV" ==> (v + core)[1..] == "V" + core;
    assert v != "" ==> (v + core)[0] == v[0];
    assert v == "v" ==> (v + core)[1..] == core;
    assert ("V" + core)[1..] == core;
  }

  /** A VERSION TEXT IS TAKEN APART AS IT WAS PUT TOGETHER. */
  lemma WrittenApart(a: string, segments: seq<string>, pre: Option<string>, build: string)
    requires Writes(a, segments, pre, build)
    ensures TakeApart(Trim(a)) == Parts(Join(segments, "."), pre, build)
    ensures Trim(a) != "" && !Unpinned(Trim(a))
  {
    hide *;
    var core, text := Join(segments, "."), VersionText(segments, pre, build);
    var l, v, r := FrameOf(a, segments, pre, build);
    TrimUnique(l, v + text, r);
    JoinedDigits(segments);
    CoreHasNoMarks(core);
    TextStarts(segments, pre, build);
    MarkStripped(v, text);
    BuildCut(core, pre, build);
    PreCut(core, pre);
    TakenApart(v + text, core + PreText(pre), build, core, pre);
    MarkerHasNoDigit(v + text, |v|);
  }

  lemma FrameOf(a: string, segments: seq<string>, pre: Option<string>, build: string)
    returns (l: string, v: string, r: string)
    requires Writes(a, segments, pre, build)
    ensures AllSpace(l) && AllSpace(r) && (v == "" || v == "v" || v == "V" || v == "vV")
    ensures var text := VersionText(segments, pre, build); Trimmed(v + text) && a == l + (v + text) + r
    ensures segments != [] && Numeric(segments) && (pre.Some? ==> '+' !in pre.value)
  {
    hide AllSpace, Trimmed, VersionText, Numeric;
    l, v, r :| Framed(a, l, v, VersionText(segments, pre, build), r);
  }

  lemma CoreHasNoMarks(core: string)
    requires forall i | 0 <= i < |core| :: IsDigit(core[i]) || core[i] == '.'
    ensures '+' !in core && '-' !in core
  {
  }

  lemma TextStarts(segments: seq<string>, pre: Option<string>, build: string)
    requires Join(segments, ".") != ""
    ensures var core, text := Join(segments, "."), VersionText(segments, pre, build);
            text == core + PreText(pre) + BuildText(build) && text != "" && text[0] == core[0]
  {
    hide Join, PreText, BuildText;
  }

  lemma TakenApart(version: string, base: string, build: string, core: string, pre: Option<string>)
    requires CutAt(TrimPrefix(TrimPrefix(version, "v"), "V"), '+') == (base, if build == "" then None else Some(build))
    requires CutAt(base, '-') == (core, pre)
    ensures TakeApart(version) == Parts(core, pre, build)
  {
    hide CutAt, TrimPrefix;
  }

  lemma MarkerHasNoDigit(s: string, i: nat)
    requires i < |s| && IsDigit(s[i])
    ensures !Unpinned(s)
  {
  }

  lemma BuildCut(core: string, pre: Option<string>, build: string)
    requires '+' !in core && (pre.Some? ==> '+' !in pre.value)
    ensures var base := core + PreText(pre);
            CutAt(base + BuildText(build), '+') == (base, if build == "" then None else Some(build))
  {
    var base := core + PreText(pre);
    assert '+' !in base;
    CutWhere(base, '+', build);
    hide CutAt;
    assert base + "" == base;
    assert base + ['+'] + build == base + ("+" + build);
  }

  lemma PreCut(core: string, pre: Option<string>)
    requires '-' !in core
    ensures CutAt(core + PreText(pre), '-') == (core, pre)
  {
    hide CutAt;
    if pre.Some? {
      CutWhere(core, '-', pre.value);
      assert core + ['-'] + pre.value == core + ("-" + pre.value);
    } else {
      CutWhere(core, '-', "");
      assert core + "" == core;
    }
  }

  // ---- newer, by the texts -----------------------------------------------------------

  lemma NewerWritten(a: string, b: string, p: Parts, q: Parts)
    requires TakeApart(Trim(a)) == p && TakeApart(Trim(b)) == q
    requires Trim(a) != "" && Trim(b) != "" && !Unpinned(Trim(b))
    ensures Newer(a, b) <==> NewerParts(p, q)
  {
    hide Trim, TakeApart, NewerParts;
    if NewerParts(p, p) {
      NewerPartsAsymmetric(p, p);
    }
  }

  function NumberAt(x: seq<nat>, i: nat): nat {
    if i < |x| then x[i] else 0
  }

  /** Lists of numbers compare at the first place where they differ, padded with zeros. */
  lemma {:induction false} CompareFirst(x: seq<nat>, y: seq<nat>, i: nat)
    requires forall j | 0 <= j < i :: NumberAt(x, j) == NumberAt(y, j)
    ensures NumberAt(x, i) != NumberAt(y, i) ==> Compare(x, y) == if NumberAt(x, i) > NumberAt(y, i) then 1 else -1
    ensures i >= |x| && i >= |y| ==> Compare(x, y) == 0
    decreases |x| + |y|
  {
    if x != [] || y != [] {
      assert NumberAt(x, 0) == Head(x) && NumberAt(y, 0) == Head(y);
      if i > 0 {
        forall j | 0 <= j < i - 1 ensures NumberAt(Tail(x), j) == NumberAt(Tail(y), j) {
          assert NumberAt(x, j + 1) == NumberAt(y, j + 1);
        }
        CompareFirst(Tail(x), Tail(y), i - 1);
      }
    }
  }

  lemma NumbersAt(segments: seq<string>, i: nat)
    requires Numeric(segments)
    ensures NumberAt(Numbers(segments), i) == if i < |segments| then Clamped(segments[i]) else 0
  {
    hide Clamped;
  }

  /** The numbers at a place compare as the digits there do. */
  lemma PlaceOrder(as_: seq<string>, bs: seq<string>, i: nat)
    requires Numeric(as_) && Numeric(bs) && Ranged(as_) && Ranged(bs)
    ensures var x, y := NumberAt(Numbers(as_), i), NumberAt(Numbers(bs), i);
            && (x > y <==> Exceeds(DigitsAt(as_, i), DigitsAt(bs, i)))
            && (x == y <==> DigitsAt(as_, i) == DigitsAt(bs, i))
  {
    hide Clamped, Exceeds, InRange, Unpad, Numbers;
    NumbersAt(as_, i);
    NumbersAt(bs, i);
    NothingSpelled();
    var s, t := if i < |as_| then as_[i] else "", if i < |bs| then bs[i] else "";
    NothingInRange();
    ClampedOrder(s, t);
  }

  lemma NothingInRange()
    ensures Unpad("") == "" && InRange("") && AllDigits("")
  {
    SpelledIsDigits(MAX_INT);
    hide Spelled;
  }

  /** The first place where two lists of segments differ is i. */
  predicate DifferAt(as_: seq<string>, bs: seq<string>, i: nat) {
    (forall j | 0 <= j < i :: DigitsAt(as_, j) == DigitsAt(bs, j)) && DigitsAt(as_, i) != DigitsAt(bs, i)
  }

  ghost predicate Alike(as_: seq<string>, bs: seq<string>) {
    forall j: nat :: DigitsAt(as_, j) == DigitsAt(bs, j)
  }

  /** The segment loop, by the digits. */
  lemma DecideDigits(as_: seq<string>, bs: seq<string>, i: nat)
    requires Numeric(as_) && Numeric(bs) && Ranged(as_) && Ranged(bs)
    ensures DifferAt(as_, bs, i) ==> Decide(as_, bs, 0) == Some(Exceeds(DigitsAt(as_, i), DigitsAt(bs, i)))
    ensures Alike(as_, bs) ==> Decide(as_, bs, 0) == None
  {
    hide Decide, Compare, Exceeds, Unpad, Numeric, Ranged, Numbers, DigitsAt;
    var x, y := Numbers(as_), Numbers(bs);
    DecideNumbers(as_, bs);
    forall j: nat ensures (NumberAt(x, j) > NumberAt(y, j) <==> Exceeds(DigitsAt(as_, j), DigitsAt(bs, j)))
                          && (NumberAt(x, j) == NumberAt(y, j) <==> DigitsAt(as_, j) == DigitsAt(bs, j)) {
      PlaceOrder(as_, bs, j);
    }
    if DifferAt(as_, bs, i) {
      CompareFirst(x, y, i);
    }
    if Alike(as_, bs) {
      CompareFirst(x, y, |as_| + |bs|);
    }
  }

  lemma SplitSegments(segments: seq<string>)
    requires segments != [] && Numeric(segments)
    ensures Split(Join(segments, "."), '.') == segments
  {
    assert ['.'] == ".";
    SplitJoin(segments, '.');
  }

  /** What is compared of two written versions. */
  lemma NewerParted(a: string, as_: seq<string>, pa: Option<string>, ba: string,
                    b: string, bs: seq<string>, pb: Option<string>, bb: string)
    requires Writes(a, as_, pa, ba) && Writes(b, bs, pb, bb)
    ensures Newer(a, b) <==> NewerParts(Parts(Join(as_, "."), pa, ba), Parts(Join(bs, "."), pb, bb))
    ensures Split(Join(as_, "."), '.') == as_ && Split(Join(bs, "."), '.') == bs && Numeric(as_) && Numeric(bs)
  {
    hide *;
    WritesParts(a, as_, pa, ba);
    WritesParts(b, bs, pb, bb);
    WrittenApart(a, as_, pa, ba);
    WrittenApart(b, bs, pb, bb);
    NewerWritten(a, b, Parts(Join(as_, "."), pa, ba), Parts(Join(bs, "."), pb, bb));
    SplitSegments(as_);
    SplitSegments(bs);
  }

  /** VERSIONS COMPARE AT THE FIRST SEGMENT THAT DIFFERS, by length and then by text. */
  lemma NewerByCore(a: string, as_: seq<string>, pa: Option<string>, ba: string,
                    b: string, bs: seq<string>, pb: Option<string>, bb: string, i: nat)
    requires Writes(a, as_, pa, ba) && Writes(b, bs, pb, bb) && Ranged(as_) && Ranged(bs) && DifferAt(as_, bs, i)
    ensures Newer(a, b) <==> Exceeds(DigitsAt(as_, i), DigitsAt(bs, i))
  {
    hide *;
    NewerParted(a, as_, pa, ba, b, bs, pb, bb);
    DecideDigits(as_, bs, i);
    CoreDecides(Parts(Join(as_, "."), pa, ba), Parts(Join(bs, "."), pb, bb));
  }

  lemma WritesParts(a: string, segments: seq<string>, pre: Option<string>, build: string)
    requires Writes(a, segments, pre, build)
    ensures segments != [] && Numeric(segments)
  {
    hide Numeric;
  }

  lemma CoreDecides(p: Parts, q: Parts)
    ensures var core := Decide(Split(p.core, '.'), Split(q.core, '.'), 0);
            && (core.Some? ==> (NewerParts(p, q) <==> core.value))
            && (core.None? && p.pre != q.pre ==>
                  (NewerParts(p, q) <==> q.pre.Some? && (p.pre.None? || Order.Less(q.pre.value, p.pre.value))))
            && (core.None? && p.pre == q.pre && (p.build == "" || q.build == "" || p.build == q.build) ==>
                !NewerParts(p, q))
  {
    hide Decide, Split, Order.Less;
  }

  /** THEN A RELEASE IS ABOVE ITS PRERELEASES, which compare as text; a build counts only against another. */
  lemma NewerByPrerelease(a: string, as_: seq<string>, pa: Option<string>, ba: string,
                          b: string, bs: seq<string>, pb: Option<string>, bb: string)
    requires Writes(a, as_, pa, ba) && Writes(b, bs, pb, bb) && Ranged(as_) && Ranged(bs) && Alike(as_, bs)
    ensures pa != pb ==> (Newer(a, b) <==> pb.Some? && (pa.None? || Order.Less(pb.value, pa.value)))
    ensures pa == pb && (ba == "" || bb == "") ==> !Newer(a, b)
  {
    hide *;
    NewerParted(a, as_, pa, ba, b, bs, pb, bb);
    DecideDigits(as_, bs, 0);
    CoreDecides(Parts(Join(as_, "."), pa, ba), Parts(Join(bs, "."), pb, bb));
  }

  /** AND BUILDS OF NUMBERS DECIDE LAST, as cores do, and as text when only zeros tell them apart. */
  lemma NewerByBuild(a: string, as_: seq<string>, pre: Option<string>, ma: seq<string>,
                     b: string, bs: seq<string>, mb: seq<string>, i: nat)
    requires ma != [] && mb != [] && Numeric(ma) && Numeric(mb) && Ranged(ma) && Ranged(mb)
    requires Writes(a, as_, pre, Join(ma, ".")) && Writes(b, bs, pre, Join(mb, "."))
    requires Ranged(as_) && Ranged(bs) && Alike(as_, bs)
    ensures DifferAt(ma, mb, i) ==> (Newer(a, b) <==> Exceeds(DigitsAt(ma, i), DigitsAt(mb, i)))
    ensures Alike(ma, mb) && ma != mb ==> (Newer(a, b) <==> Order.Less(Join(mb, "."), Join(ma, ".")))
  {
    hide *;
    var x, y := Join(ma, "."), Join(mb, ".");
    NewerParted(a, as_, pre, x, b, bs, pre, y);
    DecideDigits(as_, bs, 0);
    BuildDigits(ma, mb, i);
    if x != y {
      BuildDecides(Parts(Join(as_, "."), pre, x), Parts(Join(bs, "."), pre, y));
    }
  }

  lemma BuildDigits(ma: seq<string>, mb: seq<string>, i: nat)
    requires ma != [] && mb != [] && Numeric(ma) && Numeric(mb) && Ranged(ma) && Ranged(mb)
    ensures var x, y := Join(ma, "."), Join(mb, ".");
            && x != "" && y != "" && (x == y <==> ma == mb)
            && (DifferAt(ma, mb, i) ==>
                  x != y && Decide(Split(x, '.'), Split(y, '.'), 0) == Some(Exceeds(DigitsAt(ma, i), DigitsAt(mb, i))))
            && (Alike(ma, mb) ==> Decide(Split(x, '.'), Split(y, '.'), 0) == None)
  {
    hide *;
    JoinedDigits(ma);
    JoinedDigits(mb);
    SplitSegments(ma);
    SplitSegments(mb);
    DecideDigits(ma, mb, i);
    if DifferAt(ma, mb, i) {
      NotTheSame(ma, mb, i);
    }
  }

  lemma NotTheSame(ma: seq<string>, mb: seq<string>, i: nat)
    requires DifferAt(ma, mb, i)
    ensures ma != mb
  {
  }

  lemma BuildDecides(p: Parts, q: Parts)
    requires Decide(Split(p.core, '.'), Split(q.core, '.'), 0) == None && p.pre == q.pre
    requires p.build != "" && q.build != "" && p.build != q.build
    ensures var build := Decide(Split(p.build, '.'), Split(q.build, '.'), 0);
            NewerParts(p, q) <==> if build.Some? then build.value else Order.Less(q.build, p.build)
  {
    hide Decide, Split, Order.Less;
  }

  // ---- such texts exist ------------------------------------------------------------------

  function SpelledAll(ns: seq<nat>): (r: seq<string>)
    ensures |r| == |ns| && forall i | 0 <= i < |ns| :: r[i] == Spelled(ns[i])
  {
    seq(|ns|, i requires 0 <= i < |ns| => Spelled(ns[i]))
  }

  /** ANY LIST OF NUMBERS joined by dots is a version text of them, and such versions are ordered. */
  lemma SpelledVersion(ns: seq<nat>)
    requires ns != []
    ensures Writes(Join(SpelledAll(ns), "."), SpelledAll(ns), None, "") && Plain(Join(SpelledAll(ns), "."))
    ensures (forall n | n in ns :: n <= MAX_INT) ==> Ranged(SpelledAll(ns))
  {
    hide Spelled, Join, Number, Trimmed, InRange, Exceeds, Unpad, Plain;
    var segments, text := SpelledAll(ns), Join(SpelledAll(ns), ".");
    forall i | 0 <= i < |ns| ensures segments[i] != "" && AllDigits(segments[i]) {
      SpelledIsDigits(ns[i]);
    }
    JoinedDigits(segments);
    assert VersionText(segments, None, "") == text;
    DigitsTrimmed(text);
    assert "" + ("" + text) + "" == text;
    assert Framed(text, "", "", text, "");
    WrittenIsPlain(text, segments);
    if forall n | n in ns :: n <= MAX_INT {
      forall i | 0 <= i < |ns| ensures InRange(segments[i]) {
        assert ns[i] in ns;
        NumberReads(ns[i]);
        ClampedMeans(segments[i]);
      }
    }
  }

  lemma DigitsTrimmed(s: string)
    requires forall i | 0 <= i < |s| :: IsDigit(s[i]) || s[i] == '.'
    ensures Trimmed(s) && Trimmed("" + s)
  {
    assert "" + s == s;
  }

  lemma WrittenIsPlain(a: string, segments: seq<string>)
    requires Writes(a, segments, None, "")
    ensures Plain(a)
  {
    hide Writes, Trim, TakeApart, Numeric, Join, Split;
    WritesParts(a, segments, None, "");
    WrittenApart(a, segments, None, "");
    SplitSegments(segments);
  }

  // ---- Minecraft versions --------------------------------------------------------------

  /** The text writes these numbers: then a part that is no int, if any, then a suffix. */
  ghost predicate WritesMc(a: string, numbers: seq<string>) {
    exists rest, suffix :: McText(a, numbers, rest, suffix)
  }

  ghost predicate McText(a: string, numbers: seq<string>, rest: seq<string>, suffix: string) {
    && Numeric(numbers) && Ranged(numbers) && numbers + rest != []
    && (forall p | p in rest :: Unmarked(p))
    && (rest != [] ==> rest[0] == "" || !AllDigits(rest[0]) || !InRange(rest[0]))
    && (suffix == "" || suffix[0] == '-' || suffix[0] == '+' || suffix[0] == ' ')
    && a == Join(numbers + rest, ".") + suffix
  }

  predicate Unmarked(p: string) {
    '.' !in p && NoSuffix(p)
  }

  predicate NoSuffix(s: string) {
    forall i | 0 <= i < |s| :: s[i] != '-' && s[i] != '+' && s[i] != ' '
  }

  lemma NumericUnmarked(numbers: seq<string>)
    requires Numeric(numbers)
    ensures forall p | p in numbers :: Unmarked(p)
  {
    forall p | p in numbers ensures Unmarked(p) {
      var i :| 0 <= i < |numbers| && numbers[i] == p;
    }
  }

  lemma {:induction false} JoinUnmarked(parts: seq<string>)
    requires forall p | p in parts :: Unmarked(p)
    ensures NoSuffix(Join(parts, "."))
  {
    if parts != [] {
      assert Unmarked(parts[0]);
    }
    if |parts| > 1 {
      assert forall p | p in parts[1..] :: p in parts;
      JoinUnmarked(parts[1..]);
      assert NoSuffix(parts[0] + ".");
    }
  }

  lemma {:induction false} SuffixAfter(s: string, suffix: string, i: nat)
    requires i <= |s| && NoSuffix(s)
    requires suffix == "" || suffix[0] in ['-', '+', ' ']
    ensures SuffixStart(s + suffix, i) == |s|
    decreases |s| - i
  {
    if i < |s| {
      assert (s + suffix)[i] == s[i];
      SuffixAfter(s, suffix, i + 1);
    } else {
      assert suffix != "" ==> (s + suffix)[i] == suffix[0];
    }
  }

  lemma {:induction false} LeadingOf(numbers: seq<string>, rest: seq<string>)
    requires Numeric(numbers) && Ranged(numbers)
    requires rest != [] ==> rest[0] == "" || !AllDigits(rest[0]) || !InRange(rest[0])
    ensures LeadingNumbers(numbers + rest) == Numbers(numbers)
  {
    hide InRange, Number;
    if numbers == [] {
      assert numbers + rest == rest;
      if rest != [] && AllDigits(rest[0]) {
        ClampedOrder(rest[0], rest[0]);
      }
    } else {
      ClampedOrder(numbers[0], numbers[0]);
      assert (numbers + rest)[1..] == numbers[1..] + rest;
      LeadingOf(numbers[1..], rest);
      assert Numbers(numbers) == [Clamped(numbers[0])] + Numbers(numbers[1..]);
    }
  }

  /** A MINECRAFT VERSION TEXT gives the numbers it starts with. */
  lemma McReads(a: string, numbers: seq<string>)
    requires WritesMc(a, numbers)
    ensures Numeric(numbers) && Ranged(numbers) && McParts(a) == Numbers(numbers)
  {
    hide *;
    var rest, suffix := McTextOf(a, numbers);
    var parts := numbers + rest;
    var s := Join(parts, ".");
    NumericUnmarked(numbers);
    JoinUnmarked(parts);
    SuffixAfter(s, suffix, 0);
    assert (s + suffix)[..|s|] == s;
    assert ['.'] == ".";
    UnmarkedFree(parts);
    SplitJoin(parts, '.');
    LeadingOf(numbers, rest);
    McPartsAre(a);
  }

  lemma McTextOf(a: string, numbers: seq<string>) returns (rest: seq<string>, suffix: string)
    requires WritesMc(a, numbers)
    ensures Numeric(numbers) && Ranged(numbers) && numbers + rest != []
    ensures forall p | p in rest :: Unmarked(p)
    ensures rest != [] ==> rest[0] == "" || !AllDigits(rest[0]) || !InRange(rest[0])
    ensures suffix == "" || suffix[0] in ['-', '+', ' ']
    ensures a == Join(numbers + rest, ".") + suffix
  {
    hide Numeric, Ranged, InRange, Join;
    rest, suffix :| McText(a, numbers, rest, suffix);
  }

  lemma UnmarkedFree(parts: seq<string>)
    requires forall p | p in parts :: Unmarked(p)
    ensures FreeOf(parts, '.')
  {
  }

  lemma McPartsAre(v: string)
    ensures McParts(v) == LeadingNumbers(Split(v[..SuffixStart(v, 0)], '.'))
  {
    hide LeadingNumbers, Split, SuffixStart;
  }

  /** MINECRAFT VERSIONS COMPARE AT THE FIRST NUMBER THAT DIFFERS, by length and then by text. */
  lemma McByDigits(a: string, as_: seq<string>, b: string, bs: seq<string>, i: nat)
    requires WritesMc(a, as_) && WritesMc(b, bs)
    ensures DifferAt(as_, bs, i) ==> Versus(a, b) == if Exceeds(DigitsAt(as_, i), DigitsAt(bs, i)) then 1 else -1
    ensures Alike(as_, bs) ==> Versus(a, b) == 0
    ensures IsMc(a) <==> as_ != []
  {
    McReads(a, as_);
    McReads(b, bs);
    hide Compare, Exceeds, Unpad, Numeric, Ranged, Numbers, DigitsAt, McParts, WritesMc;
    var x, y := Numbers(as_), Numbers(bs);
    forall j: nat ensures (NumberAt(x, j) > NumberAt(y, j) <==> Exceeds(DigitsAt(as_, j), DigitsAt(bs, j)))
                          && (NumberAt(x, j) == NumberAt(y, j) <==> DigitsAt(as_, j) == DigitsAt(bs, j)) {
      PlaceOrder(as_, bs, j);
    }
    if DifferAt(as_, bs, i) {
      CompareFirst(x, y, i);
    }
    if Alike(as_, bs) {
      CompareFirst(x, y, |as_| + |bs|);
    }
    if as_ != [] {
      NotBlank(a, as_);
    }
  }

  lemma NotBlank(a: string, numbers: seq<string>)
    requires WritesMc(a, numbers) && numbers != []
    ensures a != ""
  {
    var rest, suffix :| McText(a, numbers, rest, suffix);
    assert (numbers + rest)[0] == numbers[0];
  }
}
