/** The version orders: internal/domain/mod.go, lines 256-350, and internal/domain/pack.go,
    lines 83-159. */
module Versions {
  import opened Text
  import opened Wrappers
  import Order

  const MAX_INT: nat := 0x7fff_ffff_ffff_ffff

  predicate IsDigit(c: char) {
    '0' <= c <= '9'
  }

  predicate AllDigits(s: string) {
    forall i | 0 <= i < |s| :: IsDigit(s[i])
  }

  /** The number a run of digits spells. */
  function Number(s: string): nat
    requires AllDigits(s)
  {
    if s == "" then 0 else 10 * Number(s[..|s| - 1]) + (s[|s| - 1] as int - '0' as int)
  }

  /** strconv.Atoi's value, the greatest int when it is out of range. */
  function Clamped(s: string): nat
    requires AllDigits(s)
  {
    if Number(s) <= MAX_INT then Number(s) else MAX_INT
  }

  function DigitRun(s: string, i: nat): (r: nat)
    requires i <= |s|
    ensures i <= r <= |s| && AllDigits(s[i..r]) && (r < |s| ==> !IsDigit(s[r]))
    decreases |s| - i
  {
    if i < |s| && IsDigit(s[i]) then DigitRun(s, i + 1) else i
  }

  /** parseLeadingInt: a segment's number and what follows it. */
  function LeadingInt(segment: string): (nat, string) {
    var s := Trim(segment);
    var i := DigitRun(s, 0);
    if i == 0 then (0, s) else (Clamped(s[..i]), s[i..])
  }

  method ParseLeadingInt(segment: string) returns (value: nat, rest: string)
    ensures (value, rest) == LeadingInt(segment)
  {
    var s := Trim(segment);
    var i := 0;
    while i < |s| && '0' <= s[i] <= '9'
      invariant 0 <= i <= |s| && DigitRun(s, 0) == DigitRun(s, i)
    {
      i := i + 1;
    }
    assert s[0..i] == s[..i];
    if i == 0 {
      return 0, s;
    }
    return Clamped(s[..i]), s[i..];
  }

  /** The segment loop from i on: Some(a is newer), or None when the segments decide nothing. */
  function Decide(a: seq<string>, b: seq<string>, i: nat): Option<bool>
    decreases |a| + |b| - i
  {
    if i >= |a| && i >= |b| then None
    else
      var (av, ar) := SegmentAt(a, i);
      var (bv, br) := SegmentAt(b, i);
      if av != bv then Some(av > bv)
      else if ar != br && ar != "" && br != "" then Some(Order.Less(br, ar))
      else Decide(a, b, i + 1)
  }

  /** Segment i of a list, zero and empty past its end. */
  function SegmentAt(a: seq<string>, i: nat): (nat, string) {
    if i < |a| then LeadingInt(a[i]) else (0, "")
  }

  lemma DecideNext(a: seq<string>, b: seq<string>, i: nat)
    requires i < |a| || i < |b|
    ensures var (av, ar) := SegmentAt(a, i);
            var (bv, br) := SegmentAt(b, i);
            Decide(a, b, i) ==
            if av != bv then Some(av > bv)
            else if ar != br && ar != "" && br != "" then Some(Order.Less(br, ar))
            else Decide(a, b, i + 1)
  {
    hide SegmentAt, Order.Less;
  }

  method Segment(a: seq<string>, i: nat) returns (value: nat, rest: string)
    ensures (value, rest) == SegmentAt(a, i)
  {
    value, rest := 0, "";
    if i < |a| {
      value, rest := ParseLeadingInt(a[i]);
    }
  }

  method CompareSegments(a: seq<string>, b: seq<string>) returns (decided: Option<bool>)
    ensures decided == Decide(a, b, 0)
  {
    hide *;
    var i := 0;
    while i < |a| || i < |b|
      invariant 0 <= i && Decide(a, b, 0) == Decide(a, b, i)
      decreases |a| + |b| - i
    {
      DecideNext(a, b, i);
      var av, ar := Segment(a, i);
      var bv, br := Segment(b, i);
      if av != bv {
        return Some(av > bv);
      }
      if ar != br && ar != "" && br != "" {
        return Some(Order.Less(br, ar));
      }
      i := i + 1;
    }
    DecideEnd(a, b, i);
    return None;
  }

  /** A version text taken apart: core, prerelease and build. */
  datatype Parts = Parts(core: string, pre: Option<string>, build: string)

  function CutAt(s: string, c: char): (string, Option<string>) {
    var i := IndexOf(s, c);
    if i == |s| then (s, None) else (s[..i], Some(s[i + 1..]))
  }

  function TakeApart(version: string): Parts {
    var v := TrimPrefix(TrimPrefix(version, "v"), "V");
    var (base, build) := CutAt(v, '+');
    var (core, pre) := CutAt(base, '-');
    Parts(core, pre, if build.Some? then build.value else "")
  }

  predicate Unpinned(v: string) {
    v == "" || v == "(unpinned)" || v == "unpinned"
  }

  predicate NewerParts(a: Parts, b: Parts) {
    var core := Decide(Split(a.core, '.'), Split(b.core, '.'), 0);
    if core.Some? then core.value
    else if a.pre.Some? != b.pre.Some? then a.pre.None?
    else if a.pre.Some? && a.pre != b.pre then Order.Less(b.pre.value, a.pre.value)
    else if a.build != b.build && a.build != "" && b.build != "" then
      var build := Decide(Split(a.build, '.'), Split(b.build, '.'), 0);
      if build.Some? then build.value else Order.Less(b.build, a.build)
    else false
  }

  /** VersionNewer: whether a is strictly newer than b. */
  predicate Newer(a: string, b: string) {
    var x, y := Trim(a), Trim(b);
    x != y && x != "" && (Unpinned(y) || NewerParts(TakeApart(x), TakeApart(y)))
  }

  method VersionNewer(first: string, second: string) returns (newer: bool)
    ensures newer == Newer(first, second)
  {
    hide Trim, Split, CutAt, Decide, Order.Less;
    var a, b := Trim(first), Trim(second);
    if a == b {
      return false;
    }
    if a == "" {
      return false;
    }
    if b == "" || b == "(unpinned)" || b == "unpinned" {
      return true;
    }
    a := TrimPrefix(TrimPrefix(a, "v"), "V");
    b := TrimPrefix(TrimPrefix(b, "v"), "V");
    var baseA, buildA := CutAt(a, '+').0, CutAt(a, '+').1;
    var baseB, buildB := CutAt(b, '+').0, CutAt(b, '+').1;
    var coreA, preA := CutAt(baseA, '-').0, CutAt(baseA, '-').1;
    var coreB, preB := CutAt(baseB, '-').0, CutAt(baseB, '-').1;
    var core := CompareSegments(Split(coreA, '.'), Split(coreB, '.'));
    if core.Some? {
      return core.value;
    }
    if preA.Some? != preB.Some? {
      return preA.None? && preB.Some?;
    }
    if preA.Some? && preB.Some? && preA != preB {
      return Order.Less(preB.value, preA.value);
    }
    var metaA := if buildA.Some? then buildA.value else "";
    var metaB := if buildB.Some? then buildB.value else "";
    if metaA != metaB && metaA != "" && metaB != "" {
      var build := CompareSegments(Split(metaA, '.'), Split(metaB, '.'));
      if build.Some? {
        return build.value;
      }
      return Order.Less(metaB, metaA);
    }
    return false;
  }

  // ---- lists of numbers, the shorter padded with zeros -----------------------

  function Head(x: seq<nat>): nat {
    if x == [] then 0 else x[0]
  }

  function Tail(x: seq<nat>): seq<nat> {
    if x == [] then [] else x[1..]
  }

  /** -1, 0 or 1: number by number. */
  function Compare(x: seq<nat>, y: seq<nat>): (r: int)
    ensures -1 <= r <= 1
    decreases |x| + |y|
  {
    if x == [] && y == [] then 0
    else if Head(x) < Head(y) then -1
    else if Head(x) > Head(y) then 1
    else Compare(Tail(x), Tail(y))
  }

  lemma {:induction false} CompareSelf(x: seq<nat>)
    ensures Compare(x, x) == 0
  {
    if x != [] {
      CompareSelf(x[1..]);
    }
  }

  lemma {:induction false} CompareFlips(x: seq<nat>, y: seq<nat>)
    ensures Compare(y, x) == -Compare(x, y)
    decreases |x| + |y|
  {
    if (x != [] || y != []) && Head(x) == Head(y) {
      CompareFlips(Tail(x), Tail(y));
    }
  }

  /** A total preorder. */
  lemma {:induction false} CompareTransitive(x: seq<nat>, y: seq<nat>, z: seq<nat>)
    requires Compare(x, y) >= 0 && Compare(y, z) >= 0
    ensures Compare(x, z) >= 0
    ensures Compare(x, y) > 0 || Compare(y, z) > 0 ==> Compare(x, z) > 0
    decreases |x| + |y| + |z|
  {
    if (x != [] || y != [] || z != []) && Head(x) == Head(y) == Head(z) {
      CompareTails(x, y);
      CompareTails(y, z);
      CompareTails(x, z);
      CompareTransitive(Tail(x), Tail(y), Tail(z));
    }
  }

  lemma CompareTails(x: seq<nat>, y: seq<nat>)
    requires Head(x) == Head(y)
    ensures Compare(x, y) == Compare(Tail(x), Tail(y))
  {
  }

  // ---- the order on versions of numbers --------------------------------------

  /** Segments that are all digits. */
  predicate Numeric(segments: seq<string>) {
    forall i | 0 <= i < |segments| :: segments[i] != "" && AllDigits(segments[i])
  }

  function Numbers(segments: seq<string>): (r: seq<nat>)
    requires Numeric(segments)
    ensures |r| == |segments|
  {
    seq(|segments|, i requires 0 <= i < |segments| => Clamped(segments[i]))
  }

  /** A version whose core and build segments are all digits. */
  predicate Plain(v: string) {
    var p := TakeApart(Trim(v));
    Trim(v) != "" && Numeric(Split(p.core, '.')) && (p.build == "" || Numeric(Split(p.build, '.')))
  }

  lemma DigitsLead(s: string)
    requires s != "" && AllDigits(s)
    ensures LeadingInt(s) == (Clamped(s), "")
  {
    assert !IsSpace(s[0]) && !IsSpace(s[|s| - 1]);
    TrimOfTrimmed(s);
    hide Trim, DigitRun, Clamped;
    var n := DigitRun(s, 0);
    assert n == |s|;
    assert s[..n] == s && s[n..] == "";
  }

  /** On digits the segment loop compares padded lists of numbers. */
  lemma {:induction false} DecideCompares(a: seq<string>, b: seq<string>, i: nat)
    requires Numeric(a) && Numeric(b)
    ensures var x, y := NumbersFrom(a, i), NumbersFrom(b, i);
            Decide(a, b, i) == if Compare(x, y) == 0 then None else Some(Compare(x, y) > 0)
    decreases |a| + |b| - i
  {
    hide SegmentAt, Decide, Numeric, Numbers;
    if i >= |a| && i >= |b| {
      DecideEnd(a, b, i);
      return;
    }
    DecideNext(a, b, i);
    SegmentNumber(a, i);
    SegmentNumber(b, i);
    DecideCompares(a, b, i + 1);
  }

  lemma DecideEnd(a: seq<string>, b: seq<string>, i: nat)
    requires i >= |a| && i >= |b|
    ensures Decide(a, b, i) == None
  {
  }

  /** The numbers of a list from position i on. */
  function NumbersFrom(a: seq<string>, i: nat): seq<nat>
    requires Numeric(a)
  {
    if i <= |a| then Numbers(a)[i..] else []
  }

  lemma SegmentNumber(a: seq<string>, i: nat)
    requires Numeric(a)
    ensures SegmentAt(a, i) == (Head(NumbersFrom(a, i)), "")
    ensures Tail(NumbersFrom(a, i)) == NumbersFrom(a, i + 1)
    ensures NumbersFrom(a, i) == [] <==> i >= |a|
  {
    hide LeadingInt, Clamped;
    if i < |a| {
      DigitsLead(a[i]);
      assert Numbers(a)[i..][1..] == Numbers(a)[i + 1..];
    }
  }

  lemma DecideNumbers(a: seq<string>, b: seq<string>)
    requires Numeric(a) && Numeric(b)
    ensures Decide(a, b, 0) == if Compare(Numbers(a), Numbers(b)) == 0 then None
                               else Some(Compare(Numbers(a), Numbers(b)) > 0)
  {
    hide Decide, Compare, Numeric;
    DecideCompares(a, b, 0);
    assert Numbers(a)[0..] == Numbers(a) && Numbers(b)[0..] == Numbers(b);
  }

  /** What decides between two versions of numbers. */
  datatype Rank = Rank(core: seq<nat>, pre: Option<string>, build: string, numbers: seq<nat>)

  function RankOf(v: string): Rank
    requires Plain(v)
  {
    var p := TakeApart(Trim(v));
    Rank(Numbers(Split(p.core, '.')), p.pre, p.build, if p.build == "" then [] else Numbers(Split(p.build, '.')))
  }

  /** A version without prerelease is above one with it; two prereleases compare as text. */
  predicate PreAbove(a: Option<string>, b: Option<string>) {
    b.Some? && (a.None? || Order.Less(b.value, a.value))
  }

  predicate BuildAbove(a: Rank, b: Rank) {
    a.build != "" && b.build != ""
    && (Compare(a.numbers, b.numbers) > 0 || (Compare(a.numbers, b.numbers) == 0 && Order.Less(b.build, a.build)))
  }

  predicate Above(a: Rank, b: Rank) {
    || Compare(a.core, b.core) > 0
    || (Compare(a.core, b.core) == 0 && (PreAbove(a.pre, b.pre) || (a.pre == b.pre && BuildAbove(a, b))))
  }

  lemma AboveIrreflexive(a: Rank)
    ensures !Above(a, a)
  {
    CompareSelf(a.core);
    CompareSelf(a.numbers);
    Order.LessIrreflexive(a.build);
    if a.pre.Some? {
      Order.LessIrreflexive(a.pre.value);
    }
  }

  lemma PreTransitive(a: Option<string>, b: Option<string>, c: Option<string>)
    requires PreAbove(a, b) && PreAbove(b, c)
    ensures PreAbove(a, c)
  {
    if a.Some? {
      Order.LessTransitive(c.value, b.value, a.value);
    }
  }

  lemma BuildTransitive(a: Rank, b: Rank, c: Rank)
    requires BuildAbove(a, b) && BuildAbove(b, c)
    ensures BuildAbove(a, c)
  {
    hide Compare, Order.Less;
    CompareTransitive(a.numbers, b.numbers, c.numbers);
    CompareFlips(a.numbers, c.numbers);
    CompareFlips(a.numbers, b.numbers);
    CompareFlips(b.numbers, c.numbers);
    if Compare(a.numbers, b.numbers) == 0 && Compare(b.numbers, c.numbers) == 0 {
      CompareTransitive(c.numbers, b.numbers, a.numbers);
      Order.LessTransitive(c.build, b.build, a.build);
    }
  }

  lemma AboveTransitive(a: Rank, b: Rank, c: Rank)
    requires Above(a, b) && Above(b, c)
    ensures Above(a, c)
  {
    hide Compare, PreAbove, BuildAbove;
    CompareTransitive(a.core, b.core, c.core);
    CompareFlips(a.core, b.core);
    CompareFlips(b.core, c.core);
    CompareFlips(a.core, c.core);
    if Compare(a.core, b.core) == 0 && Compare(b.core, c.core) == 0 {
      CompareTransitive(c.core, b.core, a.core);
      if PreAbove(a.pre, b.pre) && PreAbove(b.pre, c.pre) {
        PreTransitive(a.pre, b.pre, c.pre);
      } else if a.pre == b.pre == c.pre && BuildAbove(a, b) && BuildAbove(b, c) {
        BuildTransitive(a, b, c);
      }
    }
  }

  lemma PlainPinned(v: string)
    requires Plain(v)
    ensures !Unpinned(Trim(v))
  {
    hide *;
    PlainText(v);
    if Unpinned(Trim(v)) {
      UnpinnedTexts(Trim(v));
      TextIsNotNumeric(Trim(v));
    }
  }

  /** A version without prefix, prerelease and build is all core. */
  lemma AllCore(s: string)
    requires s != "" && s[0] != 'v' && s[0] != 'V' && '+' !in s && '-' !in s
    ensures TakeApart(s) == Parts(s, None, "")
  {
    hide IndexOf;
    assert !("v" <= s) && !("V" <= s);
  }

  lemma PlainText(v: string)
    requires Plain(v)
    ensures Trim(v) != "" && Numeric(Split(TakeApart(Trim(v)).core, '.'))
  {
  }

  lemma UnpinnedTexts(s: string)
    requires Unpinned(s) && s != ""
    ensures s[0] != 'v' && s[0] != 'V' && !IsDigit(s[0]) && '+' !in s && '-' !in s && '.' !in s
  {
  }

  lemma TextIsNotNumeric(s: string)
    requires s != "" && s[0] != 'v' && s[0] != 'V' && !IsDigit(s[0])
    requires '+' !in s && '-' !in s && '.' !in s
    ensures !Numeric(Split(TakeApart(s).core, '.'))
  {
    AllCore(s);
    SplitOne(s, '.');
    hide TakeApart, Split;
    assert [s][0] == s;
  }

  /** On versions of numbers VersionNewer is the order of their ranks. */
  lemma NewerIsAbove(a: string, b: string)
    requires Plain(a) && Plain(b)
    ensures Newer(a, b) <==> Above(RankOf(a), RankOf(b))
  {
    hide Trim, TakeApart, Split, Compare, Decide, Numeric, Numbers, Order.Less, Unpinned;
    var p, q := TakeApart(Trim(a)), TakeApart(Trim(b));
    PlainPinned(b);
    AboveIrreflexive(RankOf(a));
    DecideNumbers(Split(p.core, '.'), Split(q.core, '.'));
    if p.build != "" && q.build != "" {
      DecideNumbers(Split(p.build, '.'), Split(q.build, '.'));
      CompareSelf(RankOf(a).numbers);
      Order.LessIrreflexive(p.build);
    }
    if p.pre.Some? {
      Order.LessIrreflexive(p.pre.value);
    }
  }

  /** THE VERSION ORDER. On versions of numbers VersionNewer is a strict order, and versions it
      cannot tell apart share their core numbers and their prerelease. */
  lemma VersionOrder(a: string, b: string, c: string)
    requires Plain(a) && Plain(b) && Plain(c)
    ensures !Newer(a, a)
    ensures Newer(a, b) ==> !Newer(b, a)
    ensures Newer(a, b) && Newer(b, c) ==> Newer(a, c)
    ensures !Newer(a, b) && !Newer(b, a) ==>
              Compare(RankOf(a).core, RankOf(b).core) == 0 && RankOf(a).pre == RankOf(b).pre
  {
    hide Newer, Plain, RankOf, Compare;
    NewerIsAbove(a, a);
    NewerIsAbove(a, b);
    NewerIsAbove(b, a);
    NewerIsAbove(b, c);
    NewerIsAbove(a, c);
    var x, y, z := RankOf(a), RankOf(b), RankOf(c);
    AboveIrreflexive(x);
    if Above(x, y) && Above(y, x) {
      AboveTransitive(x, y, x);
    }
    if Above(x, y) && Above(y, z) {
      AboveTransitive(x, y, z);
    }
    CompareFlips(x.core, y.core);
    if x.pre.Some? && y.pre.Some? {
      Order.LessTotal(x.pre.value, y.pre.value);
    }
  }

  // ---- all texts ---------------------------------------------------------------

  /** The words that stand for a missing version. */
  predicate Marker(v: string) {
    Trim(v) == "(unpinned)" || Trim(v) == "unpinned"
  }

  lemma NotNewerItself(v: string)
    ensures !Newer(v, v)
  {
  }

  lemma LessEither(a: string, b: string)
    requires a != b
    ensures Order.Less(a, b) != Order.Less(b, a)
  {
    hide Order.Less;
    Order.LessTotal(a, b);
    if Order.Less(a, b) {
      Order.LessAsymmetric(a, b);
    }
  }

  lemma {:induction false} DecideFlips(a: seq<string>, b: seq<string>, i: nat)
    ensures Decide(b, a, i) == if Decide(a, b, i) == None then None else Some(!Decide(a, b, i).value)
    decreases |a| + |b| - i
  {
    hide SegmentAt, Decide, Order.Less;
    if i >= |a| && i >= |b| {
      DecideEnd(a, b, i);
      DecideEnd(b, a, i);
    } else {
      DecideNext(a, b, i);
      DecideNext(b, a, i);
      DecideFlips(a, b, i + 1);
      if SegmentAt(a, i).1 != SegmentAt(b, i).1 {
        LessEither(SegmentAt(a, i).1, SegmentAt(b, i).1);
      }
    }
  }

  lemma NewerPartsAsymmetric(a: Parts, b: Parts)
    requires NewerParts(a, b)
    ensures !NewerParts(b, a)
  {
    hide Decide, Split, Order.Less;
    DecideFlips(Split(a.core, '.'), Split(b.core, '.'), 0);
    DecideFlips(Split(a.build, '.'), Split(b.build, '.'), 0);
    if a.build != b.build {
      LessEither(a.build, b.build);
    }
    if a.pre.Some? && b.pre.Some? && a.pre != b.pre {
      LessEither(a.pre.value, b.pre.value);
    }
  }

  /** ON ALL TEXTS no version is newer than itself, and two are newer than each other only when one
      is a word for a missing version. */
  lemma NewerAsymmetric(a: string, b: string)
    ensures !Newer(a, a)
    ensures Newer(a, b) && Newer(b, a) ==> Marker(a) || Marker(b)
  {
    hide Trim, TakeApart, NewerParts;
    var x, y := Trim(a), Trim(b);
    if Newer(a, b) && Newer(b, a) && !Unpinned(x) && !Unpinned(y) {
      NewerPartsAsymmetric(TakeApart(x), TakeApart(y));
    }
  }

  /** And the words are: each is newer than the other. */
  lemma MarkersAreMutual()
    ensures Newer("unpinned", "(unpinned)") && Newer("(unpinned)", "unpinned")
  {
    TrimOfTrimmed("unpinned");
    TrimOfTrimmed("(unpinned)");
    hide Trim, NewerParts, TakeApart;
  }

  lemma DigitThen(d: char, rest: string)
    requires IsDigit(d) && (rest == "" || (!IsDigit(rest[0]) && !IsSpace(rest[|rest| - 1])))
    ensures LeadingInt([d] + rest) == (d as int - '0' as int, rest)
  {
    var s := [d] + rest;
    assert Trimmed(s);
    TrimOfTrimmed(s);
    assert s[0] == d && (rest != "" ==> s[1] == rest[0]);
    assert s[..1] == [d] && s[1..] == rest;
    assert [d][..0] == "";
    assert Number([d]) == d as int - '0' as int;
    hide Trim;
    assert DigitRun(s, 0) == DigitRun(s, 1) == 1;
  }

  /** A version of two segments, a digit with some text and a digit. */
  ghost predicate TwoSegments(v: string, a: char, text: string, b: char) {
    && Trim(v) == v && v != "" && !Unpinned(v) && TakeApart(v) == Parts(v, None, "")
    && |Split(v, '.')| == 2
    && LeadingInt(Split(v, '.')[0]) == (a as int - '0' as int, text)
    && LeadingInt(Split(v, '.')[1]) == (b as int - '0' as int, "")
  }

  lemma ReadTwoSegments(v: string, first: string, a: char, text: string, b: char)
    requires '0' <= a <= '9' && '0' <= b <= '9' && first == [a] + text && v == first + ['.'] + [b]
    requires text == [] || text == ['a'] || text == ['b']
    ensures TwoSegments(v, a, text, b)
  {
    hide Trim, TakeApart, Split, LeadingInt, Unpinned, Clamped, Number;
    assert v[0] == a && v[|v| - 1] == b;
    TrimOfTrimmed(v);
    AllCore(v);
    SplitAt(first, '.', [b]);
    SplitOne([b], '.');
    DigitThen(a, text);
    DigitThen(b, []);
    assert [b] + [] == [b];
    StartsWithDigit(v);
  }

  lemma StartsWithDigit(v: string)
    requires v != "" && IsDigit(v[0])
    ensures !Unpinned(v)
  {
  }

  lemma NewerByCore(a: string, b: string)
    requires Trim(a) == a && Trim(b) == b && a != b && a != "" && !Unpinned(b)
    requires TakeApart(a) == Parts(a, None, "") && TakeApart(b) == Parts(b, None, "")
    requires Decide(Split(a, '.'), Split(b, '.'), 0) == Some(true)
    ensures Newer(a, b)
  {
    hide Trim, Split, TakeApart, Decide;
  }

  lemma DecideTwo(a: seq<string>, b: seq<string>)
    requires |a| == |b| == 2
    ensures var (x, xr) := LeadingInt(a[0]);
            var (y, yr) := LeadingInt(b[0]);
            var (z, zr) := LeadingInt(a[1]);
            var (w, wr) := LeadingInt(b[1]);
            && (x == y && (xr == "" || yr == "") && z > w ==> Decide(a, b, 0) == Some(true))
            && (x == y && xr != yr && xr != "" && yr != "" && Order.Less(yr, xr) ==> Decide(a, b, 0) == Some(true))
  {
    hide LeadingInt, Decide, Order.Less;
    DecideNext(a, b, 0);
    DecideNext(a, b, 1);
  }

  lemma TextsInOrder()
    ensures Order.Less(['a'], ['b'])
  {
  }

  /** Beyond versions of numbers the order is circular: text in a segment is only compared
      when both versions have some there. */
  lemma NewerIsCircular()
    ensures var a, b, c := ['1', 'a', '.', '5'], ['1', '.', '3'], ['1', 'b', '.', '1'];
            Newer(a, b) && Newer(b, c) && Newer(c, a)
  {
    hide *;
    var a, b, c := ['1', 'a', '.', '5'], ['1', '.', '3'], ['1', 'b', '.', '1'];
    TextsInOrder();
    ReadTwoSegments(a, ['1', 'a'], '1', ['a'], '5');
    ReadTwoSegments(b, ['1'], '1', [], '3');
    ReadTwoSegments(c, ['1', 'b'], '1', ['b'], '1');
    NewerTwo(a, b, '1', ['a'], '5', [], '3');
    NewerTwo(b, c, '1', [], '3', ['b'], '1');
    NewerTwo(c, a, '1', ['b'], '1', ['a'], '5');
  }

  lemma NewerTwo(v: string, w: string, a: char, vt: string, vb: char, wt: string, wb: char)
    requires TwoSegments(v, a, vt, vb) && TwoSegments(w, a, wt, wb) && v != w
    requires if vt == [] || wt == [] then vb > wb else vt != wt && Order.Less(wt, vt)
    ensures Newer(v, w)
  {
    hide Trim, Split, TakeApart, Decide, LeadingInt, Order.Less, Newer;
    DecideTwo(Split(v, '.'), Split(w, '.'));
    NewerByCore(v, w);
  }
}
