/** Override sets: internal/domain/bepinex.go, lines 47-52 and 479-537. */
module Overrides {
  import Order

  datatype SettingKey = SettingKey(section: string, name: string)

  datatype Override = Override(section: string, name: string, value: string) {
    function Key(): SettingKey {
      SettingKey(section, name)
    }
  }

  type Items = map<SettingKey, string>

  /** The comparison sortOverrides hands to sort.Slice. */
  predicate KeyLess(a: SettingKey, b: SettingKey) {
    if a.section != b.section then Order.Less(a.section, b.section) else Order.Less(a.name, b.name)
  }

  ghost predicate Sorted(s: seq<Override>) {
    forall i, j | 0 <= i < j < |s| :: KeyLess(s[i].Key(), s[j].Key())
  }

  /** The map a list of overrides sets, the last entry of a key winning. */
  function MapOf(s: seq<Override>): Items {
    if s == [] then map[] else MapOf(s[..|s| - 1])[s[|s| - 1].Key() := s[|s| - 1].value]
  }

  ghost predicate DistinctKeys(s: seq<Override>) {
    forall i, j | 0 <= i < j < |s| :: s[i].Key() != s[j].Key()
  }

  lemma KeyLessTransitive(a: SettingKey, b: SettingKey, c: SettingKey)
    requires KeyLess(a, b) && KeyLess(b, c)
    ensures KeyLess(a, c)
  {
    if a.section == b.section == c.section {
      Order.LessTransitive(a.name, b.name, c.name);
    } else if a.section != b.section && b.section != c.section {
      Order.LessTransitive(a.section, b.section, c.section);
      if a.section == c.section {
        Order.LessIrreflexive(a.section);
      }
    }
  }

  lemma KeyLessIrreflexive(a: SettingKey)
    ensures !KeyLess(a, a)
  {
    Order.LessIrreflexive(a.name);
  }

  lemma KeyLessTotal(a: SettingKey, b: SettingKey)
    ensures a == b || KeyLess(a, b) || KeyLess(b, a)
  {
    Order.LessTotal(a.section, b.section);
    Order.LessTotal(a.name, b.name);
  }

  lemma SortedIsDistinct(s: seq<Override>)
    requires Sorted(s)
    ensures DistinctKeys(s)
  {
    forall i, j | 0 <= i < j < |s| ensures s[i].Key() != s[j].Key() {
      KeyLessIrreflexive(s[i].Key());
    }
  }

  lemma {:induction false} MapOfAt(s: seq<Override>, i: nat)
    requires i < |s|
    ensures s[i].Key() in MapOf(s)
    ensures DistinctKeys(s) ==> MapOf(s)[s[i].Key()] == s[i].value
  {
    if i < |s| - 1 {
      MapOfAt(s[..|s| - 1], i);
    }
  }

  lemma {:induction false} MapOfFind(s: seq<Override>, k: SettingKey) returns (i: nat)
    requires k in MapOf(s)
    ensures i < |s| && s[i].Key() == k && s[i].value == MapOf(s)[k]
  {
    if k == s[|s| - 1].Key() {
      i := |s| - 1;
    } else {
      i := MapOfFind(s[..|s| - 1], k);
    }
  }

  lemma {:induction false} MapOfMisses(s: seq<Override>, k: SettingKey)
    requires forall x | x in s :: x.Key() != k
    ensures k !in MapOf(s)
  {
    if s != [] {
      MapOfMisses(s[..|s| - 1], k);
    }
  }

  /** Without its last entry, a list of distinct keys maps the same less that key. */
  lemma MapOfInit(s: seq<Override>)
    requires s != [] && DistinctKeys(s)
    ensures MapOf(s[..|s| - 1]) == MapOf(s) - {s[|s| - 1].Key()}
  {
    var p, l := s[..|s| - 1], s[|s| - 1];
    assert forall x | x in p :: x.Key() != l.Key();
    hide *;
    assert s == p + [l];
    MapOfLast(p, l);
    MapOfMisses(p, l.Key());
    TakeBack(MapOf(p), l.Key(), l.value);
  }

  lemma TakeBack(m: Items, k: SettingKey, v: string)
    requires k !in m
    ensures m[k := v] - {k} == m
  {
  }

  lemma {:induction false} MapOfAppend(a: seq<Override>, b: seq<Override>)
    ensures MapOf(a + b) == MapOf(a) + MapOf(b)
  {
    if b == [] {
      assert a + b == a;
    } else {
      assert (a + b)[..|a + b| - 1] == a + b[..|b| - 1];
      MapOfAppend(a, b[..|b| - 1]);
    }
  }

  lemma LastIsGreatest(s: seq<Override>, k: SettingKey)
    requires s != [] && Sorted(s) && k in MapOf(s)
    ensures k == s[|s| - 1].Key() || KeyLess(k, s[|s| - 1].Key())
  {
    var i := MapOfFind(s, k);
    assert i < |s| - 1 ==> KeyLess(s[i].Key(), s[|s| - 1].Key());
  }

  /** A set has one sorted listing: the iteration order of Go's map does not show. */
  lemma {:induction false} ListingUnique(s: seq<Override>, t: seq<Override>)
    requires Sorted(s) && Sorted(t) && MapOf(s) == MapOf(t)
    ensures s == t
  {
    assert s != [] ==> s[|s| - 1].Key() in MapOf(s);
    assert t != [] ==> t[|t| - 1].Key() in MapOf(t);
    if s != [] {
      var a, b := s[|s| - 1], t[|t| - 1];
      LastIsGreatest(s, b.Key());
      LastIsGreatest(t, a.Key());
      if a.Key() != b.Key() {
        KeyLessTransitive(a.Key(), b.Key(), a.Key());
        KeyLessIrreflexive(a.Key());
      }
      SortedIsDistinct(s);
      SortedIsDistinct(t);
      MapOfInit(s);
      MapOfInit(t);
      ListingUnique(s[..|s| - 1], t[..|t| - 1]);
      assert s == s[..|s| - 1] + [a] && t == t[..|t| - 1] + [b];
    }
  }

  /** KeyLess of the overrides' keys. */
  predicate OverrideLess(a: Override, b: Override) {
    KeyLess(a.Key(), b.Key())
  }

  lemma KeyLessOrders()
    ensures Order.Orders(KeyLess) && Order.Orders(OverrideLess)
  {
    hide KeyLess;
    forall a, b | KeyLess(a, b) ensures !KeyLess(b, a) {
      if KeyLess(b, a) {
        KeyLessTransitive(a, b, a);
        KeyLessIrreflexive(a);
      }
    }
    forall a, b, c | !KeyLess(b, a) && !KeyLess(c, b) ensures !KeyLess(c, a) {
      KeyLessTotal(a, b);
      KeyLessTotal(b, c);
      if KeyLess(a, b) && KeyLess(b, c) && KeyLess(c, a) {
        KeyLessTransitive(c, a, b);
        KeyLessTransitive(c, b, c);
        KeyLessIrreflexive(c);
      }
    }
  }

  lemma {:induction false} PlaceMap(s: seq<Override>, o: Override)
    requires forall x | x in s :: x.Key() != o.Key()
    ensures MapOf(Order.Place(s, OverrideLess, o)) == MapOf(s)[o.Key() := o.value]
  {
    hide *;
    Order.PlaceCases(s, OverrideLess, o);
    if s != [] && OverrideLess(o, s[|s| - 1]) {
      var p, l := s[..|s| - 1], s[|s| - 1];
      assert s == p + [l];
      assert l in s && forall x | x in p :: x in s;
      PlaceMap(p, o);
      MapOfLast(Order.Place(p, OverrideLess, o), l);
      MapOfLast(p, l);
      UpdatesCommute(MapOf(p), o.Key(), o.value, l.Key(), l.value);
    } else {
      MapOfLast(s, o);
    }
  }

  lemma UpdatesCommute(m: Items, k: SettingKey, v: string, l: SettingKey, w: string)
    requires k != l
    ensures m[k := v][l := w] == m[l := w][k := v]
  {
  }

  lemma MapOfLast(s: seq<Override>, o: Override)
    ensures MapOf(s + [o]) == MapOf(s)[o.Key() := o.value]
  {
    assert (s + [o])[..|s|] == s;
  }

  lemma {:induction false} PlaceSorted(s: seq<Override>, o: Override)
    requires Sorted(s) && forall x | x in s :: x.Key() != o.Key()
    ensures Sorted(Order.Place(s, OverrideLess, o))
  {
    hide KeyLess;
    if s != [] {
      var p, l := s[..|s| - 1], s[|s| - 1];
      assert l in s;
      if OverrideLess(o, l) {
        PlaceSorted(p, o);
        Order.PlaceHas(p, OverrideLess, o);
        var r := Order.Place(p, OverrideLess, o);
        forall i | 0 <= i < |r| ensures KeyLess(r[i].Key(), l.Key()) {
          assert r[i] in r;
          if r[i] != o {
            var m :| 0 <= m < |p| && p[m] == r[i];
            assert s[m] == r[i];
          }
        }
      } else {
        KeyLessTotal(l.Key(), o.Key());
        forall i | 0 <= i < |s| ensures KeyLess(s[i].Key(), o.Key()) {
          if i < |s| - 1 {
            KeyLessTransitive(s[i].Key(), l.Key(), o.Key());
          }
        }
      }
    }
  }

  lemma UpdateUnder(m: Items, n: Items, k: SettingKey, v: string)
    ensures m + n[k := v] == (m + n)[k := v]
  {
  }

  lemma PlaceKeeps(s: seq<Override>, o: Override)
    requires Sorted(s) && o.Key() !in MapOf(s)
    ensures var r := Order.Place(s, OverrideLess, o);
            Sorted(r) && MapOf(r) == MapOf(s)[o.Key() := o.value] && |r| == |s| + 1
  {
    forall x | x in s ensures x.Key() != o.Key() {
      var i :| 0 <= i < |s| && s[i] == x;
      MapOfAt(s, i);
    }
    PlaceSorted(s, o);
    PlaceMap(s, o);
    Order.PlaceMembers(s, OverrideLess, o);
    assert |multiset(Order.Place(s, OverrideLess, o))| == |s| + 1;
  }

  lemma PutBack(items: Items, k: SettingKey)
    requires k in items
    ensures |items - {k}| == |items| - 1 && (items - {k})[k := items[k]] == items
    ensures k !in items - {k}
  {
    var rest := items - {k};
    assert items.Keys == rest.Keys + {k};
    assert |items| == |items.Keys| && |rest| == |rest.Keys|;
  }

  /** What All returns: the overrides in key order. */
  ghost function Listing(items: Items): (s: seq<Override>)
    ensures Sorted(s) && MapOf(s) == items && |s| == |items|
    decreases |items|
  {
    if items == map[] then [] else
      var k :| k in items;
      var o := Override(k.section, k.name, items[k]);
      PutBack(items, k);
      PlaceKeeps(Listing(items - {k}), o);
      Order.Place(Listing(items - {k}), OverrideLess, o)
  }

  lemma ListingHas(items: Items)
    ensures DistinctKeys(Listing(items))
    ensures forall o | o in Listing(items) :: o.Key() in items && items[o.Key()] == o.value
    ensures forall k | k in items :: Override(k.section, k.name, items[k]) in Listing(items)
  {
    var s := Listing(items);
    hide KeyLess, Listing, Sorted;
    SortedIsDistinct(s);
    forall o | o in s ensures o.Key() in items && items[o.Key()] == o.value {
      var i :| 0 <= i < |s| && s[i] == o;
      MapOfAt(s, i);
    }
    forall k | k in items ensures Override(k.section, k.name, items[k]) in s {
      var i := MapOfFind(s, k);
      assert s[i] == Override(k.section, k.name, items[k]);
    }
  }

  lemma KeepOneMore(items: Items, rest: set<SettingKey>, k: SettingKey)
    requires k in rest && rest <= items.Keys
    ensures (items - rest)[k := items[k]] == items - (rest - {k})
  {
  }

  lemma DistinctAppend(s: seq<Override>, o: Override)
    requires DistinctKeys(s) && o.Key() !in MapOf(s)
    ensures DistinctKeys(s + [o])
    ensures MapOf(s + [o]) == MapOf(s)[o.Key() := o.value]
  {
    forall i | 0 <= i < |s| ensures s[i].Key() != o.Key() {
      MapOfAt(s, i);
    }
    assert (s + [o])[..|s|] == s;
  }

  /** sort.Slice with KeyLess. */
  method SortOverrides(input: seq<Override>) returns (out: seq<Override>)
    requires DistinctKeys(input)
    ensures Sorted(out) && MapOf(out) == MapOf(input)
  {
    out := [];
    for i := 0 to |input|
      invariant Sorted(out) && MapOf(out) == MapOf(input[..i])
    {
      MapOfMisses(input[..i], input[i].Key());
      assert input[..i + 1][..i] == input[..i];
      PlaceKeeps(out, input[i]);
      out := Order.Place(out, OverrideLess, input[i]);
    }
    assert input[..|input|] == input;
  }
}
