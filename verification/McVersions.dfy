/** Minecraft versions: internal/domain/pack.go, lines 83-159. */
module McVersions {
  import opened Text
  import opened Versions

  /** strings.IndexAny(v, "-+ ") from i on, or |v|. */
  function SuffixStart(v: string, i: nat): (r: nat)
    requires i <= |v|
    ensures i <= r <= |v|
    decreases |v| - i
  {
    if i == |v| || v[i] in ['-', '+', ' '] then i else SuffixStart(v, i + 1)
  }

  /** strconv.Atoi accepts it: no sign is left to accept. */
  predicate IsNumber(p: string) {
    p != "" && AllDigits(p) && Number(p) <= MAX_INT
  }

  /** The numbers before the first part that is none. */
  function LeadingNumbers(parts: seq<string>): seq<nat> {
    if parts == [] || !IsNumber(parts[0]) then [] else [Number(parts[0])] + LeadingNumbers(parts[1..])
  }

  function McParts(v: string): seq<nat> {
    LeadingNumbers(Split(v[..SuffixStart(v, 0)], '.'))
  }

  method McVersionParts(v: string) returns (out: seq<nat>)
    ensures out == McParts(v)
  {
    hide Split, Number, AllDigits;
    var parts := Split(v[..SuffixStart(v, 0)], '.');
    out := [];
    for i := 0 to |parts|
      invariant McParts(v) == out + LeadingNumbers(parts[i..])
    {
      if !IsNumber(parts[i]) {
        break;
      }
      out := out + [Number(parts[i])];
    }
  }

  method CompareMCVersions(a: string, b: string) returns (r: int)
    ensures r == Compare(McParts(a), McParts(b))
  {
    var xs := McVersionParts(a);
    var ys := McVersionParts(b);
    hide McParts;
    var i := 0;
    while i < |xs| || i < |ys|
      invariant 0 <= i
      invariant Compare(xs, ys) == Compare(From(xs, i), From(ys, i))
      decreases |xs| + |ys| - i
    {
      var x, y := 0, 0;
      if i < |xs| {
        x := xs[i];
      }
      if i < |ys| {
        y := ys[i];
      }
      FromNext(xs, i);
      FromNext(ys, i);
      if x != y {
        if x < y {
          return -1;
        }
        return 1;
      }
      i := i + 1;
    }
    return 0;
  }

  function From(x: seq<nat>, i: nat): seq<nat> {
    if i <= |x| then x[i..] else []
  }

  lemma FromNext(x: seq<nat>, i: nat)
    ensures Head(From(x, i)) == if i < |x| then x[i] else 0
    ensures Tail(From(x, i)) == From(x, i + 1)
  {
  }

  predicate IsMc(v: string) {
    v != "" && McParts(v) != []
  }

  /** A TOTAL PREORDER: any two versions compare, one way or both, and transitively. */
  lemma McOrder(a: string, b: string, c: string)
    ensures Compare(McParts(a), McParts(a)) == 0
    ensures Compare(McParts(b), McParts(a)) == -Compare(McParts(a), McParts(b))
    ensures Compare(McParts(a), McParts(b)) >= 0 && Compare(McParts(b), McParts(c)) >= 0
            ==> Compare(McParts(a), McParts(c)) >= 0
  {
    hide McParts, Compare;
    var x, y, z := McParts(a), McParts(b), McParts(c);
    CompareSelf(x);
    CompareFlips(x, y);
    if Compare(x, y) >= 0 && Compare(y, z) >= 0 {
      CompareTransitive(x, y, z);
    }
  }

  /** best is the first of the greatest versions among the first n. */
  ghost predicate IsHighest(versions: seq<string>, n: nat, best: string, at: nat)
    requires n <= |versions|
  {
    && at < n && Trim(versions[at]) == best && IsMc(best)
    && (forall j | 0 <= j < n && IsMc(Trim(versions[j])) :: Versus(best, Trim(versions[j])) >= 0)
    && (forall j | 0 <= j < at && IsMc(Trim(versions[j])) :: Versus(best, Trim(versions[j])) > 0)
  }

  ghost predicate NoVersion(versions: seq<string>, n: nat)
    requires n <= |versions|
  {
    forall j | 0 <= j < n :: !IsMc(Trim(versions[j]))
  }

  function Versus(a: string, b: string): int {
    Compare(McParts(a), McParts(b))
  }

  lemma HighestStep(versions: seq<string>, n: nat, best: string, at: nat)
    requires n < |versions| && IsHighest(versions, n, best, at)
    ensures var v := Trim(versions[n]);
            if IsMc(v) && Versus(v, best) > 0 then IsHighest(versions, n + 1, v, n)
            else IsHighest(versions, n + 1, best, at)
  {
    hide Trim, McParts, Compare, IsMc;
    var v := Trim(versions[n]);
    CompareSelf(McParts(v));
    CompareFlips(McParts(v), McParts(best));
    if Versus(v, best) > 0 {
      forall j | 0 <= j < n && IsMc(Trim(versions[j])) ensures Versus(v, Trim(versions[j])) > 0 {
        assert Versus(best, Trim(versions[j])) >= 0;
        CompareTransitive(McParts(v), McParts(best), McParts(Trim(versions[j])));
      }
    }
  }

  lemma HighestFirst(versions: seq<string>, n: nat)
    requires n < |versions| && NoVersion(versions, n) && IsMc(Trim(versions[n]))
    ensures IsHighest(versions, n + 1, Trim(versions[n]), n)
  {
    hide Trim, McParts, Compare, IsMc;
    CompareSelf(McParts(Trim(versions[n])));
  }

  lemma NoVersionStep(versions: seq<string>, n: nat)
    requires n < |versions| && !IsMc(Trim(versions[n]))
    ensures NoVersion(versions, n) ==> NoVersion(versions, n + 1)
  {
  }

  lemma HighestIsVersion(versions: seq<string>, n: nat, best: string, at: nat)
    requires n <= |versions| && IsHighest(versions, n, best, at)
    ensures IsMc(best) && best != "" && !NoVersion(versions, n)
  {
  }

  /** HighestMCVersion: the first of the greatest versions of the list, trimmed; "" only when
      nothing in it is a version. */
  method HighestMCVersion(versions: seq<string>) returns (best: string)
    ensures best == "" <==> NoVersion(versions, |versions|)
    ensures best != "" ==> exists at :: IsHighest(versions, |versions|, best, at)
  {
    hide Trim, IsMc, Versus, IsHighest, NoVersion;
    best := "";
    ghost var at := 0;
    NothingYet(versions);
    for n := 0 to |versions|
      invariant if best == "" then NoVersion(versions, n) else IsHighest(versions, n, best, at)
    {
      var v := Trim(versions[n]);
      if best != "" {
        HighestStep(versions, n, best, at);
      }
      IsMcParts(v);
      var parts := McVersionParts(v);
      if v == "" || |parts| == 0 {
        NoVersionStep(versions, n);
        continue;
      }
      if best == "" {
        HighestFirst(versions, n);
        best, at := v, n;
        continue;
      }
      var above := CompareMCVersions(v, best);
      if above > 0 {
        best, at := v, n;
      }
    }
    if best != "" {
      HighestIsVersion(versions, |versions|, best, at);
    }
  }

  lemma NothingYet(versions: seq<string>)
    ensures NoVersion(versions, 0)
  {
  }

  lemma IsMcParts(v: string)
    ensures IsMc(v) <==> v != "" && McParts(v) != []
    ensures forall w :: Versus(v, w) == Compare(McParts(v), McParts(w))
  {
  }
}
