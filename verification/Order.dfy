/** Go's `<` on strings: character by character, a proper prefix first. */
module Order {
  predicate Less(a: string, b: string) {
    if b == "" then false
    else if a == "" then true
    else if a[0] != b[0] then a[0] < b[0]
    else Less(a[1..], b[1..])
  }

  /** Where a and b part, at i, a ends or has the smaller character. */
  predicate PartsAt(a: string, b: string, i: nat) {
    i <= |a| && i < |b| && a[..i] == b[..i] && (i == |a| || a[i] < b[i])
  }

  lemma PartsHead(a: string, b: string, i: nat)
    ensures PartsAt(a, b, i) && i > 0 ==> a != "" && b != "" && a[0] == b[0]
  {
    if PartsAt(a, b, i) && i > 0 {
      assert a[0] == a[..i][0] && b[0] == b[..i][0];
    }
  }

  /** THE ORDER OF TEXTS: a is less when it is cut short of b, or smaller where they first differ. */
  lemma {:induction false} LessMeans(a: string, b: string)
    ensures Less(a, b) <==> exists i: nat :: PartsAt(a, b, i)
  {
    if a != "" && b != "" && a[0] == b[0] {
      LessMeans(a[1..], b[1..]);
      forall i: nat | PartsAt(a[1..], b[1..], i) ensures PartsAt(a, b, i + 1) {
        assert a[..i + 1] == [a[0]] + a[1..][..i] && b[..i + 1] == [b[0]] + b[1..][..i];
      }
      forall i: nat | PartsAt(a, b, i) ensures i > 0 && PartsAt(a[1..], b[1..], i - 1) {
        assert a[1..][..i - 1] == a[..i][1..] && b[1..][..i - 1] == b[..i][1..];
      }
    } else if b != "" && Less(a, b) {
      assert PartsAt(a, b, 0);
    } else {
      forall i: nat ensures !PartsAt(a, b, i) {
        PartsHead(a, b, i);
      }
    }
  }

  lemma {:induction false} LessIrreflexive(a: string)
    ensures !Less(a, a)
  {
    if a != "" {
      LessIrreflexive(a[1..]);
    }
  }

  lemma {:induction false} LessTransitive(a: string, b: string, c: string)
    requires Less(a, b) && Less(b, c)
    ensures Less(a, c)
  {
    if a != "" && a[0] == b[0] && b[0] == c[0] {
      LessTransitive(a[1..], b[1..], c[1..]);
    }
  }

  lemma {:induction false} LessTotal(a: string, b: string)
    ensures a == b || Less(a, b) || Less(b, a)
  {
    if a != "" && b != "" && a[0] == b[0] {
      LessTotal(a[1..], b[1..]);
      assert a == [a[0]] + a[1..] && b == [b[0]] + b[1..];
    }
  }

  lemma NotLessTransitive(a: string, b: string, c: string)
    requires !Less(b, a) && !Less(c, b)
    ensures !Less(c, a)
  {
    hide Less;
    if Less(c, a) {
      LessTotal(a, b);
      if Less(a, b) {
        LessTransitive(c, a, b);
      }
    }
  }

  lemma LessAsymmetric(a: string, b: string)
    requires Less(a, b)
    ensures !Less(b, a)
  {
    hide Less;
    if Less(b, a) {
      LessTransitive(a, b, a);
      LessIrreflexive(a);
    }
  }

  // ---- sorting ---------------------------------------------------------------

  /** What sort.Slice asks of a comparison; entries neither of which is less may differ. */
  ghost predicate Orders<T(!new)>(less: (T, T) -> bool) {
    && (forall a, b | less(a, b) :: !less(b, a))
    && forall a, b, c | !less(b, a) && !less(c, b) :: !less(c, a)
  }

  lemma LessOrders()
    ensures Orders(Less)
  {
    hide Less;
    forall a, b | Less(a, b) ensures !Less(b, a) {
      LessAsymmetric(a, b);
    }
    forall a, b, c | !Less(b, a) && !Less(c, b) ensures !Less(c, a) {
      NotLessTransitive(a, b, c);
    }
  }

  /** In order; entries neither of which is less come in any order. */
  ghost predicate InOrder<T>(s: seq<T>, less: (T, T) -> bool) {
    forall i, j | 0 <= i < j < |s| :: !less(s[j], s[i])
  }

  /** One insertion of a stable sort: after every entry that is not greater. */
  function Place<T>(s: seq<T>, less: (T, T) -> bool, x: T): seq<T> {
    if s != [] && less(x, s[|s| - 1]) then Place(s[..|s| - 1], less, x) + [s[|s| - 1]] else s + [x]
  }

  lemma PlaceCases<T>(s: seq<T>, less: (T, T) -> bool, x: T)
    ensures Place(s, less, x) ==
            if s != [] && less(x, s[|s| - 1]) then Place(s[..|s| - 1], less, x) + [s[|s| - 1]] else s + [x]
  {
  }

  lemma {:induction false} PlaceMembers<T>(s: seq<T>, less: (T, T) -> bool, x: T)
    ensures multiset(Place(s, less, x)) == multiset(s) + multiset{x}
  {
    if s != [] && less(x, s[|s| - 1]) {
      PlaceMembers(s[..|s| - 1], less, x);
      assert s == s[..|s| - 1] + [s[|s| - 1]];
    }
  }

  lemma PlaceHas<T(!new)>(s: seq<T>, less: (T, T) -> bool, x: T)
    ensures forall y :: y in Place(s, less, x) <==> y in s || y == x
  {
    hide Place;
    PlaceMembers(s, less, x);
    forall y ensures y in Place(s, less, x) <==> y in s || y == x {
      assert y in Place(s, less, x) <==> y in multiset(Place(s, less, x));
    }
  }

  lemma {:induction false} PlaceInOrder<T(!new)>(s: seq<T>, less: (T, T) -> bool, x: T)
    requires Orders(less) && InOrder(s, less)
    ensures InOrder(Place(s, less, x), less)
  {
    var n := |s| - 1;
    if s != [] && less(x, s[n]) {
      PlaceInOrder(s[..n], less, x);
      var r := Place(s[..n], less, x);
      PlaceHas(s[..n], less, x);
      forall i | 0 <= i < |r| ensures !less(s[n], r[i]) {
        assert r[i] in r;
      }
    }
  }

  /** sort.Slice. */
  method SortBy<T(!new)>(s: seq<T>, less: (T, T) -> bool) returns (out: seq<T>)
    requires Orders(less)
    ensures InOrder(out, less) && multiset(out) == multiset(s)
  {
    hide InOrder, Place, Orders;
    out := [];
    NothingInOrder(less);
    for i := 0 to |s|
      invariant InOrder(out, less) && multiset(out) == multiset(s[..i])
    {
      assert s[..i + 1] == s[..i] + [s[i]];
      PlaceMembers(out, less, s[i]);
      PlaceInOrder(out, less, s[i]);
      out := Place(out, less, s[i]);
    }
    assert s[..|s|] == s;
  }

  lemma NothingInOrder<T>(less: (T, T) -> bool)
    ensures InOrder([], less)
  {
  }
}
