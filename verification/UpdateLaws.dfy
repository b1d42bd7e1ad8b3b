/** What an update does to every mod of the list, and what undoing it restores:
    internal/app/modupdates/checker.go, lines 450-622. */
module UpdateLaws {
  import opened Sets
  import opened Text
  import opened Wrappers
  import opened ModRefs
  import opened ModLists
  import opened Versions
  import opened Updates

  // ---- the best offer --------------------------------------------------------

  /** The versioned references a tree offers for a mod, in order. */
  function Offers(k: string, entries: seq<string>, game: Game): seq<ModRef> {
    if entries == [] then []
    else
      var before, r := Offers(k, entries[..|entries| - 1], game), ParseModRef(entries[|entries| - 1], game);
      if r.Some? && r.value.ver != "" && r.value.Key() == k then before + [r.value] else before
  }

  /** The reference that is left when each offer wins only by being newer. */
  function Best(cur: Option<ModRef>, offers: seq<ModRef>): Option<ModRef> {
    if offers == [] then cur
    else
      var before, r := Best(cur, offers[..|offers| - 1]), offers[|offers| - 1];
      if before.None? || Newer(r.ver, before.value.ver) then Some(r) else before
  }

  lemma BestOneMore(cur: Option<ModRef>, offers: seq<ModRef>, r: ModRef)
    ensures Best(cur, offers + [r]) ==
            if Best(cur, offers).None? || Newer(r.ver, Best(cur, offers).value.ver) then Some(r) else Best(cur, offers)
  {
    hide Newer;
    assert (offers + [r])[..|offers|] == offers;
  }

  lemma {:induction false} BestAppend(cur: Option<ModRef>, a: seq<ModRef>, b: seq<ModRef>)
    ensures Best(cur, a + b) == Best(Best(cur, a), b)
  {
    hide Newer;
    if b == [] {
      assert a + b == a;
    } else {
      var before, r := b[..|b| - 1], b[|b| - 1];
      BestAppend(cur, a, before);
      assert a + b == (a + before) + [r];
      BestOneMore(cur, a + before, r);
    }
  }

  /** Versions the version order is an order on, with no version below them all. */
  predicate Ordered(v: string) {
    v == "" || Plain(v)
  }

  lemma OrderedAbove(v: string)
    requires Plain(v)
    ensures Newer(v, "") && !Newer("", v)
  {
    PlainText(v);
    TrimOfTrimmed("");
    hide Trim, TakeApart;
  }

  lemma NewerTransitive(a: string, b: string, c: string)
    requires Ordered(a) && Ordered(b) && Ordered(c) && Newer(a, b) && Newer(b, c)
    ensures Newer(a, c) && !Newer(b, a)
  {
    hide Newer, Plain;
    if a != "" { OrderedAbove(a); }
    if b != "" { OrderedAbove(b); }
    NothingBelow(a);
    NothingBelow(b);
    NothingBelow(c);
    if a != "" && b != "" && c != "" {
      VersionOrder(a, b, c);
    } else if a != "" && b != "" {
      VersionOrder(a, b, b);
    }
  }

  lemma NothingBelow(v: string)
    ensures !Newer("", v)
  {
    TrimOfTrimmed("");
  }

  // ---- one mod through an update ---------------------------------------------

  /** Another mod's update: this mod takes the best of what it has and what is offered. */
  lemma {:induction false} OfferedToOther(t: Tree, target: Update, entries: seq<string>, k: string, game: Game)
    requires k != target.ref.Key()
    ensures At(OfferAll(t, target, entries, game), k) == Best(At(t, k), Offers(k, entries, game))
  {
    if entries != [] {
      hide Newer, ParseModRef;
      var n := |entries| - 1;
      OfferedToOther(t, target, entries[..n], k, game);
      OfferCases(OfferAll(t, target, entries[..n], game), target, entries[n], game);
      var r := ParseModRef(entries[n], game);
      var before := Offers(k, entries[..n], game);
      if r.Some? {
        BestOneMore(At(t, k), before, r.value);
      }
    }
  }

  /** The last update of the mod itself pins it; the trees of later updates may only raise it. */
  lemma PinnedTarget(t: Tree, target: Update, resolved: seq<string>, game: Game)
    requires Keyed(t)
    ensures var k := target.ref.Key();
            var after := At(UpdateOne(t, target, resolved, game), k);
            k in t.byKey ==> after.Some? && after.value.ver == target.latest && after.value.Key() == k
  {
    hide OfferAll, RefOf;
    OfferKeeps(t, target, resolved, game);
    PinCases(OfferAll(t, target, resolved, game), target);
    RefOfHere(OfferAll(t, target, resolved, game), target.ref.Key());
  }

  lemma RefOfHere(t: Tree, k: string)
    ensures k in t.byKey ==> RefOf(t, k) == t.byKey[k]
  {
  }

  // ---- the order of the list -------------------------------------------------

  /** Every reference is kept under its own key. */
  predicate Keyed(t: Tree) {
    forall k | k in t.byKey :: t.byKey[k].Key() == k
  }

  /** The order lists every mod there is, once. */
  ghost predicate Listing(t: Tree) {
    Distinct(t.order) && Keyed(t) && forall k :: k in t.order <==> k in t.byKey
  }

  lemma EnterKeeps(t: Tree, entry: string, game: Game)
    requires Listing(t)
    ensures Listing(Enter(t, entry, game)) && t.order <= Enter(t, entry, game).order
  {
    hide Enter, ParseModRef, Listing;
    EnterCases(t, entry, game);
    var r := ParseModRef(entry, game);
    if r.Some? {
      if r.value.Key() in t.byKey {
        SamePlace(t, r.value);
      } else {
        NewPlace(t, r.value);
      }
    }
  }

  /** The list as it was: one place for each mod that has an entry, in the order of their first
      entries, holding the reference of the last. */
  lemma {:induction false} Entered(entries: seq<string>, game: Game)
    ensures Listing(EnterAll(entries, game))
    ensures forall k :: At(EnterAll(entries, game), k) == LastEntry(k, entries, game)
  {
    if entries != [] {
      hide Enter, ParseModRef;
      var n := |entries| - 1;
      Entered(entries[..n], game);
      EnterKeeps(EnterAll(entries[..n], game), entries[n], game);
      EnterCases(EnterAll(entries[..n], game), entries[n], game);
    }
  }

  /** The reference of a mod's last entry. */
  function LastEntry(k: string, entries: seq<string>, game: Game): Option<ModRef> {
    if entries == [] then None
    else
      var r := ParseModRef(entries[|entries| - 1], game);
      if r.Some? && r.value.Key() == k then r else LastEntry(k, entries[..|entries| - 1], game)
  }

  lemma NewPlace(t: Tree, r: ModRef)
    requires r.Key() !in t.byKey
    ensures var u := Tree(t.order + [r.Key()], t.byKey[r.Key() := r]);
            (Keyed(t) ==> Keyed(u)) && (Listing(t) ==> Listing(u))
  {
  }

  lemma SamePlace(t: Tree, r: ModRef)
    requires r.Key() in t.byKey
    ensures var u := Tree(t.order, t.byKey[r.Key() := r]);
            (Keyed(t) ==> Keyed(u)) && (Listing(t) ==> Listing(u))
  {
  }

  lemma OneOfferKeeps(t: Tree, target: Update, entry: string, game: Game)
    ensures Keyed(t) ==> Keyed(Offer(t, target, entry, game))
    ensures Listing(t) ==> Listing(Offer(t, target, entry, game))
    ensures t.order <= Offer(t, target, entry, game).order
    ensures t.byKey.Keys <= Offer(t, target, entry, game).byKey.Keys
  {
    hide Offer, ParseModRef, Newer, Keyed, Listing;
    OfferCases(t, target, entry, game);
    var r := ParseModRef(entry, game);
    if r.Some? {
      if r.value.Key() in t.byKey {
        SamePlace(t, r.value);
      } else {
        NewPlace(t, r.value);
      }
    }
  }

  lemma {:induction false} OfferKeeps(t: Tree, target: Update, entries: seq<string>, game: Game)
    ensures var o := OfferAll(t, target, entries, game);
            && (Keyed(t) ==> Keyed(o)) && (Listing(t) ==> Listing(o))
            && t.order <= o.order && t.byKey.Keys <= o.byKey.Keys
  {
    hide Offer, Keyed, Listing;
    if entries != [] {
      var n := |entries| - 1;
      OfferKeeps(t, target, entries[..n], game);
      OneOfferKeeps(OfferAll(t, target, entries[..n], game), target, entries[n], game);
    }
  }

  lemma PinKeeps(t: Tree, target: Update)
    requires Listing(t) && target.ref.Key() in t.byKey
    ensures Listing(Pin(t, target)) && Pin(t, target).order == t.order
    ensures forall k | k != target.ref.Key() :: At(Pin(t, target), k) == At(t, k)
  {
  }

  lemma UpdateKeeps(t: Tree, target: Update, resolved: seq<string>, game: Game)
    requires Listing(t) && target.ref.Key() in t.byKey
    ensures var u := UpdateOne(t, target, resolved, game);
            Listing(u) && t.order <= u.order && t.byKey.Keys <= u.byKey.Keys
  {
    hide Listing, OfferAll, Pin;
    OfferKeeps(t, target, resolved, game);
    PinKeeps(OfferAll(t, target, resolved, game), target);
    ListingKeys(Pin(OfferAll(t, target, resolved, game), target), OfferAll(t, target, resolved, game));
  }

  lemma ListingKeys(a: Tree, b: Tree)
    requires Listing(a) && Listing(b) && a.order == b.order
    ensures a.byKey.Keys == b.byKey.Keys
  {
  }

  // ---- a whole update --------------------------------------------------------

  function TreeOf(trees: Trees, r: ModRef): seq<string> {
    if r in trees then trees[r] else []
  }

  /** Everything the updates' trees offer for a mod, in order. */
  function AllOffers(k: string, targets: seq<Update>, trees: Trees, game: Game): seq<ModRef> {
    if targets == [] then []
    else AllOffers(k, targets[..|targets| - 1], trees, game)
         + Offers(k, TreeOf(trees, targets[|targets| - 1].ref), game)
  }

  predicate IsTarget(k: string, targets: seq<Update>) {
    exists i | 0 <= i < |targets| :: targets[i].ref.Key() == k
  }

  lemma LastUpdate(t: Tree, targets: seq<Update>, trees: Trees, game: Game) returns (b: Tree)
    requires targets != [] && UpdateAll(t, targets, trees, game).Ok?
    ensures var n := |targets| - 1;
            && UpdateAll(t, targets[..n], trees, game) == Ok(b)
            && UpdateAll(t, targets, trees, game) == Ok(UpdateOne(b, targets[n], TreeOf(trees, targets[n].ref), game))
  {
    hide UpdateOne;
    b := UpdateAll(t, targets[..|targets| - 1], trees, game).value;
  }

  lemma EarlierTargets(k: string, targets: seq<Update>)
    requires targets != []
    ensures var n := |targets| - 1;
            IsTarget(k, targets) <==> IsTarget(k, targets[..n]) || targets[n].ref.Key() == k
  {
    var n := |targets| - 1;
    if IsTarget(k, targets[..n]) {
      TargetIsEarlier(k, targets);
    }
    if IsTarget(k, targets) && targets[n].ref.Key() != k {
      TargetIsNotLast(k, targets);
    }
  }

  lemma TargetIsEarlier(k: string, targets: seq<Update>)
    requires targets != [] && IsTarget(k, targets[..|targets| - 1])
    ensures IsTarget(k, targets)
  {
    var before := targets[..|targets| - 1];
    var i :| 0 <= i < |before| && before[i].ref.Key() == k;
    assert targets[i] == before[i];
  }

  lemma TargetIsNotLast(k: string, targets: seq<Update>)
    requires targets != [] && IsTarget(k, targets) && targets[|targets| - 1].ref.Key() != k
    ensures IsTarget(k, targets[..|targets| - 1])
  {
    var i :| 0 <= i < |targets| && targets[i].ref.Key() == k;
    assert targets[..|targets| - 1][i] == targets[i];
  }

  lemma UpdateOfOther(t: Tree, target: Update, resolved: seq<string>, k: string, game: Game)
    requires k != target.ref.Key()
    ensures At(UpdateOne(t, target, resolved, game), k) == Best(At(t, k), Offers(k, resolved, game))
  {
    hide OfferAll, Offers, Best, RefOf;
    OfferedToOther(t, target, resolved, k, game);
    PinCases(OfferAll(t, target, resolved, game), target);
  }

  /** A mod that is no target ends as the best of what it was and everything offered for it. */
  lemma {:induction false} OthersTakeTheBest(t: Tree, targets: seq<Update>, trees: Trees, k: string, game: Game)
    requires UpdateAll(t, targets, trees, game).Ok? && !IsTarget(k, targets)
    ensures At(UpdateAll(t, targets, trees, game).value, k) == Best(At(t, k), AllOffers(k, targets, trees, game))
  {
    if targets != [] {
      hide UpdateOne, IsTarget, At, Offers, UpdateAll;
      var n := |targets| - 1;
      var b := LastUpdate(t, targets, trees, game);
      EarlierTargets(k, targets);
      OthersTakeTheBest(t, targets[..n], trees, k, game);
      UpdateOfOther(b, targets[n], TreeOf(trees, targets[n].ref), k, game);
      BestAppend(At(t, k), AllOffers(k, targets[..n], trees, game), Offers(k, TreeOf(trees, targets[n].ref), game));
    } else {
      hide Offers;
    }
  }

  /** The list's mods keep their places, and new ones come after them. */
  lemma {:induction false} PlacesKept(t: Tree, targets: seq<Update>, trees: Trees, game: Game)
    requires UpdateAll(t, targets, trees, game).Ok? && Listing(t)
    requires forall u | u in targets :: u.ref.Key() in t.byKey
    ensures var u := UpdateAll(t, targets, trees, game).value;
            Listing(u) && t.order <= u.order && t.byKey.Keys <= u.byKey.Keys
  {
    if targets != [] {
      hide UpdateOne, Listing, UpdateAll;
      var n := |targets| - 1;
      var b := LastUpdate(t, targets, trees, game);
      assert forall u | u in targets[..n] :: u in targets;
      PlacesKept(t, targets[..n], trees, game);
      assert targets[n].ref.Key() in t.byKey;
      UpdateKeeps(b, targets[n], TreeOf(trees, targets[n].ref), game);
      PrefixOfPrefix(t.order, b.order, UpdateAll(t, targets, trees, game).value.order);
    }
  }

  lemma PrefixOfPrefix(a: seq<string>, b: seq<string>, c: seq<string>)
    requires a <= b && b <= c
    ensures a <= c
  {
  }

  /** A target ends as the best of its latest version and what later updates offer for it. */
  lemma {:induction false} TargetTakesItsLatest(t: Tree, targets: seq<Update>, trees: Trees, k: string, game: Game)
    returns (j: nat, pinned: ModRef)
    requires UpdateAll(t, targets, trees, game).Ok? && Listing(t) && IsTarget(k, targets)
    requires forall u | u in targets :: u.ref.Key() in t.byKey
    ensures j < |targets| && targets[j].ref.Key() == k && !IsTarget(k, targets[j + 1..])
    ensures pinned.Key() == k && pinned.ver == targets[j].latest
    ensures At(UpdateAll(t, targets, trees, game).value, k) ==
            Best(Some(pinned), AllOffers(k, targets[j + 1..], trees, game))
  {
    hide *;
    SomeTarget(k, targets);
    var n := |targets| - 1;
    var last := targets[n];
    var b := LastUpdate(t, targets, trees, game);
    assert forall u | u in targets[..n] :: u in targets;
    EarlierTargets(k, targets);
    if last.ref.Key() == k {
      PlacesKept(t, targets[..n], trees, game);
      ListedKeyed(b);
      assert last in targets;
      PinnedTarget(b, last, TreeOf(trees, last.ref), game);
      j, pinned := n, At(UpdateAll(t, targets, trees, game).value, k).value;
      assert targets[n + 1..] == [];
      NothingLater(k, Some(pinned), trees, game);
    } else {
      j, pinned := TargetTakesItsLatest(t, targets[..n], trees, k, game);
      UpdateOfOther(b, last, TreeOf(trees, last.ref), k, game);
      LaterTargets(k, targets, j, trees, game);
      BestAppend(Some(pinned), AllOffers(k, targets[..n][j + 1..], trees, game),
                 Offers(k, TreeOf(trees, last.ref), game));
    }
  }

  lemma SomeTarget(k: string, targets: seq<Update>)
    requires IsTarget(k, targets)
    ensures targets != []
  {
  }

  lemma NothingLater(k: string, cur: Option<ModRef>, trees: Trees, game: Game)
    ensures !IsTarget(k, []) && Best(cur, AllOffers(k, [], trees, game)) == cur
  {
  }

  lemma LaterTargets(k: string, targets: seq<Update>, j: nat, trees: Trees, game: Game)
    requires j < |targets| - 1 && targets[|targets| - 1].ref.Key() != k
    ensures var n := |targets| - 1;
            var later := targets[..n][j + 1..];
            && AllOffers(k, targets[j + 1..], trees, game) ==
               AllOffers(k, later, trees, game) + Offers(k, TreeOf(trees, targets[n].ref), game)
            && (IsTarget(k, targets[j + 1..]) <==> IsTarget(k, later))
  {
    hide Offers, TreeOf, IsTarget;
    var n := |targets| - 1;
    var all := targets[j + 1..];
    assert all[..|all| - 1] == targets[..n][j + 1..] && all[|all| - 1] == targets[n];
    EarlierTargets(k, all);
  }

  lemma ListedKeyed(t: Tree)
    requires Listing(t)
    ensures Keyed(t)
  {
  }

  // ---- the theorems ----------------------------------------------------------

  /** Every target is an installed mod. */
  predicate AllInstalled(targets: seq<Update>, previous: seq<string>, game: Game) {
    forall u | u in targets :: LastEntry(u.ref.Key(), previous, game).Some?
  }

  /** THE UPDATE TRANSFORM. The new list has one entry per mod: the mods of the old list in their
      order, then exactly the mods that are offered with a version; a mod that is no target holds
      the best of what it was and what is offered. */
  lemma UpdateTransform(previous: seq<string>, targets: seq<Update>, trees: Trees, game: Game) returns (u: Tree)
    requires Rewritten(previous, targets, trees, game).Ok? && AllInstalled(targets, previous, game)
    ensures UpdateAll(EnterAll(previous, game), targets, trees, game) == Ok(u)
    ensures Rewritten(previous, targets, trees, game) == Ok(Written(u))
    ensures Listing(u) && EnterAll(previous, game).order <= u.order
    ensures forall k :: k in u.order <==>
              LastEntry(k, previous, game).Some? || AllOffers(k, targets, trees, game) != []
    ensures forall k | !IsTarget(k, targets) ::
              At(u, k) == Best(LastEntry(k, previous, game), AllOffers(k, targets, trees, game))
  {
    hide *;
    var t := EnterAll(previous, game);
    RewrittenCases(previous, targets, trees, game);
    u := UpdateAll(t, targets, trees, game).value;
    Entered(previous, game);
    forall x | x in targets ensures x.ref.Key() in t.byKey {
      InstalledIsThere(targets, previous, x, game);
    }
    PlacesKept(t, targets, trees, game);
    forall k | !IsTarget(k, targets)
      ensures At(u, k) == Best(LastEntry(k, previous, game), AllOffers(k, targets, trees, game))
    {
      OthersTakeTheBest(t, targets, trees, k, game);
    }
    forall k
      ensures k in u.order <==> LastEntry(k, previous, game).Some? || AllOffers(k, targets, trees, game) != []
    {
      ListedThere(t, k);
      ListedThere(u, k);
      if IsTarget(k, targets) {
        var x := TargetOf(k, targets);
        InstalledIsThere(targets, previous, x, game);
      } else {
        BestThere(LastEntry(k, previous, game), AllOffers(k, targets, trees, game));
      }
    }
  }

  lemma InstalledIsThere(targets: seq<Update>, previous: seq<string>, x: Update, game: Game)
    requires AllInstalled(targets, previous, game) && x in targets
    ensures x.ref.Key() in EnterAll(previous, game).byKey
    ensures LastEntry(x.ref.Key(), previous, game).Some?
  {
    hide EnterAll, LastEntry, Listing;
    Entered(previous, game);
    assert At(EnterAll(previous, game), x.ref.Key()) == LastEntry(x.ref.Key(), previous, game);
  }

  lemma ListedThere(t: Tree, k: string)
    requires Listing(t)
    ensures k in t.order <==> k in t.byKey
    ensures k in t.byKey <==> At(t, k).Some?
  {
  }

  lemma TargetOf(k: string, targets: seq<Update>) returns (x: Update)
    requires IsTarget(k, targets)
    ensures x in targets && x.ref.Key() == k
  {
    var i :| 0 <= i < |targets| && targets[i].ref.Key() == k;
    x := targets[i];
  }

  lemma {:induction false} BestThere(cur: Option<ModRef>, offers: seq<ModRef>)
    ensures Best(cur, offers).Some? <==> cur.Some? || offers != []
  {
    hide Newer;
    if offers != [] {
      BestThere(cur, offers[..|offers| - 1]);
    }
  }

  lemma AtIs(t: Tree, k: string)
    ensures At(t, k).Some? ==> RefOf(t, k) == At(t, k).value
    ensures At(t, k).Some? && Listing(t) ==> At(t, k).value.Key() == k
  {
  }

  /** Printable references are read back from the list, each under its mod. */
  lemma WrittenReadsBack(u: Tree, game: Game)
    requires Listing(u) && forall k | k in u.order :: Printable(RefOf(u, k), game)
    ensures forall i | 0 <= i < |u.order| ::
              && ParseModRef(Written(u)[i], game) == Some(RefOf(u, u.order[i]))
              && KeyOf(Written(u)[i], game) == Some(u.order[i])
  {
    hide ParseModRef, Printable;
    forall i | 0 <= i < |u.order|
      ensures ParseModRef(Written(u)[i], game) == Some(RefOf(u, u.order[i]))
      ensures KeyOf(Written(u)[i], game) == Some(u.order[i])
    {
      assert u.order[i] in u.order;
      EntryReads(RefOf(u, u.order[i]), game);
    }
  }

  // ---- targets that are not installed --------------------------------------------

  lemma OfferMember(t: Tree, target: Update, entry: string, k: string, game: Game)
    ensures var u, r := Offer(t, target, entry, game), ParseModRef(entry, game);
            var offered := r.Some? && r.value.ver != "" && r.value.Key() == k;
            && (k in u.byKey <==> k in t.byKey || offered)
            && (k in u.order <==> k in t.order || (k !in t.byKey && offered))
  {
    hide Offer, ParseModRef, Newer;
    OfferCases(t, target, entry, game);
  }

  lemma {:induction false} OffersMember(t: Tree, target: Update, entries: seq<string>, k: string, game: Game)
    ensures var u, offered := OfferAll(t, target, entries, game), Offers(k, entries, game) != [];
            && (k in u.byKey <==> k in t.byKey || offered)
            && (k in u.order <==> k in t.order || (k !in t.byKey && offered))
  {
    if entries != [] {
      hide Offer, ParseModRef;
      var n := |entries| - 1;
      OffersMember(t, target, entries[..n], k, game);
      OfferMember(OfferAll(t, target, entries[..n], game), target, entries[n], k, game);
    }
  }

  /** An offer adds a mod to the list unless it was listed, or pinned, before; a pin does not. */
  lemma UpdateMember(t: Tree, target: Update, resolved: seq<string>, k: string, game: Game)
    ensures var u, offered := UpdateOne(t, target, resolved, game), Offers(k, resolved, game) != [];
            && (k in u.byKey <==> k in t.byKey || offered || (target.ref.Key() == k && target.latest != ""))
            && (k in u.order <==> k in t.order || (k !in t.byKey && offered))
  {
    hide OfferAll, Offers;
    OffersMember(t, target, resolved, k, game);
    PinCases(OfferAll(t, target, resolved, game), target);
  }

  /** The update pins the mod, listed or not. */
  predicate PinsMod(u: Update, k: string) {
    u.ref.Key() == k && u.latest != ""
  }

  /** Until an update pins it, a mod is listed when it was or is offered. */
  lemma {:induction false} ListedUnpinned(t: Tree, targets: seq<Update>, trees: Trees, k: string, game: Game)
    requires UpdateAll(t, targets, trees, game).Ok? && (k in t.order <==> k in t.byKey)
    requires forall u | u in targets :: !PinsMod(u, k)
    ensures var u := UpdateAll(t, targets, trees, game).value;
            && (k in u.order <==> k in u.byKey)
            && (k in u.order <==> k in t.order || AllOffers(k, targets, trees, game) != [])
  {
    if targets != [] {
      hide UpdateOne, UpdateAll, Offers, TreeOf, PinsMod;
      var n := |targets| - 1;
      var b := LastUpdate(t, targets, trees, game);
      assert forall u | u in targets[..n] :: u in targets;
      ListedUnpinned(t, targets[..n], trees, k, game);
      assert targets[n] in targets;
      NotPinned(targets[n], k);
      UpdateMember(b, targets[n], TreeOf(trees, targets[n].ref), k, game);
    }
  }

  lemma NotPinned(u: Update, k: string)
    ensures PinsMod(u, k) <==> u.ref.Key() == k && u.latest != ""
  {
  }

  /** Once it is pinned, no later offer lists it. */
  lemma {:induction false} ListedPinned(t: Tree, targets: seq<Update>, trees: Trees, k: string, j: nat, game: Game)
    requires UpdateAll(t, targets, trees, game).Ok? && (k in t.order <==> k in t.byKey)
    requires j < |targets| && PinsMod(targets[j], k) && forall u | u in targets[..j] :: !PinsMod(u, k)
    ensures var u := UpdateAll(t, targets, trees, game).value;
            k in u.byKey && (k in u.order <==> k in t.order || AllOffers(k, targets[..j + 1], trees, game) != [])
  {
    hide UpdateOne, UpdateAll, Offers, TreeOf, PinsMod, AllOffers;
    var n := |targets| - 1;
    var b := LastUpdate(t, targets, trees, game);
    NotPinned(targets[n], k);
    UpdateMember(b, targets[n], TreeOf(trees, targets[n].ref), k, game);
    if j == n {
      ListedUnpinned(t, targets[..n], trees, k, game);
      OffersOneMore(k, targets, trees, game);
      assert targets[..j + 1] == targets;
    } else {
      assert targets[..n][..j] == targets[..j] && targets[..n][..j + 1] == targets[..j + 1];
      ListedPinned(t, targets[..n], trees, k, j, game);
    }
  }

  lemma OffersOneMore(k: string, targets: seq<Update>, trees: Trees, game: Game)
    requires targets != []
    ensures AllOffers(k, targets, trees, game) ==
            AllOffers(k, targets[..|targets| - 1], trees, game)
            + Offers(k, TreeOf(trees, targets[|targets| - 1].ref), game)
  {
    hide Offers, TreeOf;
  }

  /** WHETHER A TARGET IS WRITTEN, EXACTLY: when it was installed, or a tree up to and including that of
      its first update offers it; what later trees offer of it is pinned and lost. */
  lemma TargetIsWritten(previous: seq<string>, targets: seq<Update>, trees: Trees, k: string, j: nat, game: Game)
    requires UpdateAll(EnterAll(previous, game), targets, trees, game).Ok?
    requires j < |targets| && PinsMod(targets[j], k) && forall u | u in targets[..j] :: !PinsMod(u, k)
    ensures k in UpdateAll(EnterAll(previous, game), targets, trees, game).value.order <==>
            LastEntry(k, previous, game).Some? || AllOffers(k, targets[..j + 1], trees, game) != []
  {
    hide *;
    var t := EnterAll(previous, game);
    Entered(previous, game);
    ListedThere(t, k);
    ListedPinned(t, targets, trees, k, j, game);
  }
}
