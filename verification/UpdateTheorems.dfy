/** An update from the file it reads to the file it writes: internal/app/modupdates/checker.go,
    lines 461-550, with internal/app/instances/manager.go, lines 1070-1091 and 1259-1300. */
module UpdateTheorems {
  import opened ModRefs
  import opened Reports
  import opened Updates
  import opened Wrappers
  import ModListLaws
  import ModLists
  import UndoLaws
  import UpdateLaws

  /** A reference that prints on one line and parses back. */
  predicate Lasting(r: ModRef, game: Game) {
    Printable(r, game) && '\n' !in r.Entry()
  }

  /** Lasting as it is and at the latest version of every chosen update of its mod. */
  predicate LastingFor(r: ModRef, targets: seq<Update>, game: Game) {
    Lasting(r, game) && forall u | u in targets && u.ref.Key() == r.Key() :: Lasting(r.(ver := u.latest), game)
  }

  predicate InstalledLasting(entries: seq<string>, targets: seq<Update>, game: Game) {
    forall e | e in entries && ParseModRef(e, game).Some? :: LastingFor(ParseModRef(e, game).value, targets, game)
  }

  predicate OffersLasting(entries: seq<string>, targets: seq<Update>, game: Game) {
    forall e | e in entries && ParseModRef(e, game).Some? && ParseModRef(e, game).value.ver != "" ::
      LastingFor(ParseModRef(e, game).value, targets, game)
  }

  /** What is installed and what the targets' trees offer with a version is lasting. */
  predicate AllLasting(previous: seq<string>, targets: seq<Update>, trees: Trees, game: Game) {
    && InstalledLasting(previous, targets, game)
    && forall u | u in targets :: OffersLasting(UpdateLaws.TreeOf(trees, u.ref), targets, game)
  }

  predicate HoldsLasting(t: Tree, targets: seq<Update>, game: Game) {
    forall k | k in t.byKey :: LastingFor(t.byKey[k], targets, game)
  }

  // ---- what an update keeps lasting -----------------------------------------

  lemma {:induction false} EnteredLasting(entries: seq<string>, targets: seq<Update>, game: Game)
    requires InstalledLasting(entries, targets, game)
    ensures HoldsLasting(EnterAll(entries, game), targets, game)
  {
    if entries == [] {
      NothingEntered(game);
    } else {
      hide Enter, ParseModRef, LastingFor;
      var n := |entries| - 1;
      assert forall e | e in entries[..n] :: e in entries;
      EnteredLasting(entries[..n], targets, game);
      EnterCases(EnterAll(entries[..n], game), entries[n], game);
      assert entries[n] in entries;
    }
  }

  lemma OfferLasting(t: Tree, target: Update, entry: string, targets: seq<Update>, game: Game)
    requires HoldsLasting(t, targets, game)
    requires var r := ParseModRef(entry, game); r.Some? && r.value.ver != "" ==> LastingFor(r.value, targets, game)
    ensures HoldsLasting(Offer(t, target, entry, game), targets, game)
  {
    hide Offer, ParseModRef, LastingFor;
    OfferCases(t, target, entry, game);
  }

  lemma {:induction false} OfferedLasting(t: Tree, target: Update, entries: seq<string>, targets: seq<Update>,
                                          game: Game)
    requires HoldsLasting(t, targets, game) && OffersLasting(entries, targets, game)
    ensures HoldsLasting(OfferAll(t, target, entries, game), targets, game)
  {
    if entries != [] {
      hide Offer, ParseModRef, HoldsLasting, LastingFor;
      var n := |entries| - 1;
      assert forall e | e in entries[..n] :: e in entries;
      OfferedLasting(t, target, entries[..n], targets, game);
      assert entries[n] in entries;
      OfferLasting(OfferAll(t, target, entries[..n], game), target, entries[n], targets, game);
    }
  }

  /** A repinned reference is one the target's lasting reference becomes. */
  lemma RepinnedLasting(r: ModRef, target: Update, targets: seq<Update>, game: Game)
    requires LastingFor(r, targets, game) && target in targets && target.ref.Key() == r.Key()
    ensures LastingFor(r.(ver := target.latest), targets, game)
  {
    hide Lasting;
    var p := r.(ver := target.latest);
    assert p.Key() == r.Key();
    forall u | u in targets && u.ref.Key() == p.Key() ensures Lasting(p.(ver := u.latest), game) {
      assert p.(ver := u.latest) == r.(ver := u.latest);
    }
  }

  lemma PinnedLasting(t: Tree, target: Update, targets: seq<Update>, game: Game)
    requires HoldsLasting(t, targets, game) && UpdateLaws.Keyed(t)
    requires target in targets && target.ref.Key() in t.byKey
    ensures HoldsLasting(Pin(t, target), targets, game)
  {
    hide LastingFor;
    var k := target.ref.Key();
    UpdateLaws.RefOfHere(t, k);
    RepinnedLasting(t.byKey[k], target, targets, game);
    PinCases(t, target);
    hide Pin;
  }

  lemma {:induction false} UpdatedLasting(t: Tree, some: seq<Update>, targets: seq<Update>, trees: Trees, game: Game)
    requires UpdateAll(t, some, trees, game).Ok? && UpdateLaws.Listing(t) && HoldsLasting(t, targets, game)
    requires forall u | u in some :: u in targets && u.ref.Key() in t.byKey
    requires forall u | u in targets :: OffersLasting(UpdateLaws.TreeOf(trees, u.ref), targets, game)
    ensures HoldsLasting(UpdateAll(t, some, trees, game).value, targets, game)
  {
    if some == [] {
      NothingUpdated(t, some, trees, game);
    } else {
      hide *;
      var n := |some| - 1;
      var last := some[n];
      var b := UpdateLaws.LastUpdate(t, some, trees, game);
      assert forall u | u in some[..n] :: u in some;
      assert last in some;
      UpdatedLasting(t, some[..n], targets, trees, game);
      UpdateLaws.PlacesKept(t, some[..n], trees, game);
      var entries := UpdateLaws.TreeOf(trees, last.ref);
      UpdateLaws.OfferKeeps(b, last, entries, game);
      UpdateLaws.ListedKeyed(b);
      OfferedLasting(b, last, entries, targets, game);
      PinnedLasting(OfferAll(b, last, entries, game), last, targets, game);
      OneUpdate(b, last, entries, game);
    }
  }

  lemma LastingIs(u: Tree, targets: seq<Update>, game: Game)
    requires HoldsLasting(u, targets, game) && UpdateLaws.Listing(u)
    ensures forall k | k in u.order :: Lasting(RefOf(u, k), game)
  {
    hide Lasting;
  }

  /** Lasting inputs give a lasting list. */
  lemma RewrittenLasting(previous: seq<string>, targets: seq<Update>, trees: Trees, u: Tree, game: Game)
    requires AllLasting(previous, targets, trees, game) && UpdateLaws.AllInstalled(targets, previous, game)
    requires UpdateAll(EnterAll(previous, game), targets, trees, game) == Ok(u) && UpdateLaws.Listing(u)
    ensures forall k | k in u.order :: Lasting(RefOf(u, k), game)
  {
    hide UpdateAll, EnterAll, InstalledLasting, OffersLasting, HoldsLasting, Lasting, RefOf, UpdateLaws.Listing,
      UpdateLaws.AllInstalled, UpdateLaws.TreeOf;
    var t := EnterAll(previous, game);
    UpdateLaws.Entered(previous, game);
    EnteredLasting(previous, targets, game);
    forall x | x in targets ensures x.ref.Key() in t.byKey {
      UpdateLaws.InstalledIsThere(targets, previous, x, game);
    }
    UpdatedLasting(t, targets, targets, trees, game);
    LastingIs(u, targets, game);
  }

  lemma PrintableEntry(r: ModRef, game: Game)
    requires Lasting(r, game)
    ensures ModListLaws.Clean(r.Entry())
  {
    hide CutBoth, CutVersion, Slashes;
  }

  /** AN UPDATE, FROM FILE TO FILE. Applying updates that were reported for the list in the file
      leaves a file whose list has one entry per mod: the mods it had, in their order, then exactly
      the mods that were offered with a version; each entry reads as the reference chosen for it.
      Asked of the inputs: what is installed, offered or repinned prints and parses back. */
  lemma AppliedListReads(s: State, keys: seq<string>, check: Option<seq<Update>>, trees: Trees, answers: Catalogue,
                         game: Game)
    returns (u: Tree)
    requires var refs := Refs(ModLists.Installed(s.text), game);
             multiset(Available(s.report, check)) == multiset(ReportOf(refs, |refs|, answers, game).updates)
    requires var (_, r) := AfterApply(s, keys, check, trees, game); r.Ok? && r.value != []
    requires AllLasting(ModLists.Installed(s.text), Targets(Available(s.report, check), keys), trees, game)
    ensures var (after, r) := AfterApply(s, keys, check, trees, game);
            var previous, list := ModLists.Installed(s.text), ModLists.Installed(after.text);
            && UpdateLaws.Listing(u) && |list| == |u.order|
            && (forall i | 0 <= i < |list| :: ParseModRef(list[i], game) == Some(RefOf(u, u.order[i]))
                                              && ModLists.KeyOf(list[i], game) == Some(u.order[i]))
            && EnterAll(previous, game).order <= u.order
            && (forall k :: k in u.order <==>
                  UpdateLaws.LastEntry(k, previous, game).Some? || UpdateLaws.AllOffers(k, r.value, trees, game) != [])
            && forall k | !UpdateLaws.IsTarget(k, r.value) ::
                 At(u, k) == UpdateLaws.Best(UpdateLaws.LastEntry(k, previous, game),
                                             UpdateLaws.AllOffers(k, r.value, trees, game))
  {
    hide *;
    var (after, r) := AfterApply(s, keys, check, trees, game);
    var previous := ModLists.Installed(s.text);
    UndoLaws.ApplyLeaves(s, keys, check, trees, game);
    ReportedIsInstalled(previous, answers, game, Available(s.report, check), keys);
    u := UpdateLaws.UpdateTransform(previous, r.value, trees, game);
    UndoLaws.UpdatedParts(s, after, Written(u));
    RewrittenLasting(previous, r.value, trees, u, game);
    LastingParts(u, game);
    UpdateLaws.WrittenReadsBack(u, game);
    WrittenAt(u);
    ModListLaws.ReplaceReadsBack(Written(u));
  }

  lemma LastingParts(u: Tree, game: Game)
    requires forall k | k in u.order :: Lasting(RefOf(u, k), game)
    ensures forall k | k in u.order :: Printable(RefOf(u, k), game)
    ensures forall e | e in Written(u) :: ModListLaws.Clean(e)
  {
    hide Printable, ModListLaws.Clean, RefOf, Written;
    WrittenAt(u);
    forall e | e in Written(u) ensures ModListLaws.Clean(e) {
      var i :| 0 <= i < |Written(u)| && Written(u)[i] == e;
      assert u.order[i] in u.order;
      PrintableEntry(RefOf(u, u.order[i]), game);
    }
  }
}
