/** Updates that move a mod back, and exactly when there are any: internal/app/modupdates/checker.go,
    lines 510-553. */
module UpdateCircles {
  import opened Text
  import opened Wrappers
  import opened ModRefs
  import opened Versions
  import opened Updates
  import opened UpdateLaws
  import opened UpdateOrder

  // ---- an update that makes given offers -----------------------------------------

  /** The n-th of the other mods whose updates bring the offers. */
  function Helper(n: nat): ModRef {
    ModRef("t", seq(n, _ => 'x'), "1")
  }

  lemma HelperReads(n: nat, game: Game)
    ensures ParseModRef(Helper(n).Entry(), game) == Some(Helper(n)) && |Helper(n).Key()| == n + 2
  {
    hide ParseModRef, Printable, Outright;
    var r := Helper(n);
    assert r.Entry() == "t/" + r.name + "/1";
    PlainEntry(r.Entry());
    assert '/' !in r.name && '/' !in r.ver;
    PinnedPrintable(r, game);
    EntryReads(r, game);
  }

  lemma PlainEntry(e: string)
    requires |e| > 2 && e[0] == 't' && e[|e| - 1] == '1'
    ensures Outright(e)
  {
  }

  /** A pinned reference prints and parses back when its name and version hold no slash. */
  lemma PinnedPrintable(r: ModRef, game: Game)
    requires r.ns != "" && r.ver != "" && '/' !in r.name && '/' !in r.ver && Outright(r.Entry())
    ensures Printable(r, game)
  {
    hide Outright;
  }

  lemma HelpersDiffer(m: nat, n: nat)
    requires m != n
    ensures Helper(m) != Helper(n)
  {
    assert |Helper(m).name| == m && |Helper(n).name| == n;
  }

  function HelperEntries(base: nat, n: nat): (r: seq<string>)
    ensures |r| == n && forall i | 0 <= i < n :: r[i] == Helper(base + i).Entry()
  {
    seq(n, i requires 0 <= i < n => Helper(base + i).Entry())
  }

  function HelperUpdates(base: nat, n: nat): (r: seq<Update>)
    ensures |r| == n && forall i | 0 <= i < n :: r[i] == Update(Helper(base + i), "1", "1")
  {
    seq(n, i requires 0 <= i < n => Update(Helper(base + i), "1", "1"))
  }

  /** Each helper's tree is one of the entries. */
  function HelperTrees(base: nat, es: seq<string>): Trees {
    if es == [] then map[] else HelperTrees(base, es[..|es| - 1])[Helper(base + |es| - 1) := [es[|es| - 1]]]
  }

  lemma {:induction false} HelperTree(base: nat, es: seq<string>, i: nat)
    requires i < |es|
    ensures Helper(base + i) in HelperTrees(base, es) && HelperTrees(base, es)[Helper(base + i)] == [es[i]]
  {
    if i < |es| - 1 {
      HelpersDiffer(base + i, base + |es| - 1);
      hide Helper;
      HelperTree(base, es[..|es| - 1], i);
    }
  }

  lemma OneOffer(k: string, e: string, r: ModRef, game: Game)
    requires ParseModRef(e, game) == Some(r) && r.ver != "" && r.Key() == k
    ensures Offers(k, [e], game) == [r]
  {
    hide ParseModRef;
    assert [e][..0] == [];
  }

  lemma {:induction false} AllOffered(k: string, targets: seq<Update>, trees: Trees, offers: seq<ModRef>, game: Game)
    requires |targets| == |offers|
    requires forall i | 0 <= i < |targets| :: Offers(k, TreeOf(trees, targets[i].ref), game) == [offers[i]]
    ensures AllOffers(k, targets, trees, game) == offers
  {
    hide Offers, TreeOf;
    if targets != [] {
      var n := |targets| - 1;
      AllOffered(k, targets[..n], trees, offers[..n], game);
    }
  }

  lemma {:induction false} HasEntry(k: string, entries: seq<string>, i: nat, game: Game)
    requires i < |entries| && ParseModRef(entries[i], game).Some? && ParseModRef(entries[i], game).value.Key() == k
    ensures LastEntry(k, entries, game).Some?
  {
    hide ParseModRef;
    if i < |entries| - 1 {
      HasEntry(k, entries[..|entries| - 1], i, game);
    }
  }

  lemma {:induction false} OnlyEntry(r: ModRef, entries: seq<string>, game: Game)
    requires entries != [] && ParseModRef(entries[0], game) == Some(r)
    requires forall i | 0 < i < |entries| ::
               ParseModRef(entries[i], game).Some? && ParseModRef(entries[i], game).value.Key() != r.Key()
    ensures LastEntry(r.Key(), entries, game) == Some(r)
  {
    hide ParseModRef;
    if |entries| > 1 {
      OnlyEntry(r, entries[..|entries| - 1], game);
    }
  }

  lemma {:induction false} AllResolved(t: Tree, targets: seq<Update>, trees: Trees, game: Game)
    requires forall u | u in targets :: u.ref in trees
    ensures UpdateAll(t, targets, trees, game).Ok?
  {
    hide UpdateOne;
    if targets != [] {
      var n := |targets| - 1;
      assert forall u | u in targets[..n] :: u in targets;
      AllResolved(t, targets[..n], trees, game);
      assert targets[n] in targets;
    }
  }

  /** The entries say the offers. */
  ghost predicate Says(es: seq<string>, offers: seq<ModRef>, k: string, game: Game) {
    |es| == |offers| && forall i | 0 <= i < |es| ::
      ParseModRef(es[i], game) == Some(offers[i]) && offers[i].ver != "" && offers[i].Key() == k
  }

  /** Some update of other mods makes just these offers, whatever is installed of the mod. */
  lemma UpdateOffering(entry: string, cur: ModRef, es: seq<string>, offers: seq<ModRef>, game: Game)
    returns (previous: seq<string>, targets: seq<Update>, trees: Trees)
    requires ParseModRef(entry, game) == Some(cur) && Says(es, offers, cur.Key(), game)
    ensures previous != [] && previous[0] == entry
    ensures Rewritten(previous, targets, trees, game).Ok? && AllInstalled(targets, previous, game)
    ensures LastEntry(cur.Key(), previous, game) == Some(cur) && !IsTarget(cur.Key(), targets)
    ensures AllOffers(cur.Key(), targets, trees, game) == offers
  {
    hide *;
    var k, n := cur.Key(), |es|;
    var base := |k|;
    SaysLength(es, offers, k, game);
    previous := [entry] + HelperEntries(base, n);
    targets := HelperUpdates(base, n);
    trees := HelperTrees(base, es);
    forall i | 0 <= i < n
      ensures |Helper(base + i).Key()| == base + i + 2
      ensures Offers(k, TreeOf(trees, targets[i].ref), game) == [offers[i]]
      ensures targets[i].ref in trees && LastEntry(targets[i].ref.Key(), previous, game).Some?
    {
      HelperReads(base + i, game);
      HasEntry(Helper(base + i).Key(), previous, 1 + i, game);
      HelperTree(base, es, i);
      TreeThere(trees, targets[i].ref);
      SaysAt(es, offers, k, game, i);
      OneOffer(k, es[i], offers[i], game);
    }
    forall i | 0 < i < |previous|
      ensures ParseModRef(previous[i], game).Some? && ParseModRef(previous[i], game).value.Key() != k
    {
      HelperReads(base + i - 1, game);
      assert previous[i] == Helper(base + i - 1).Entry();
    }
    OnlyEntry(cur, previous, game);
    AllOffered(k, targets, trees, offers, game);
    AllResolved(EnterAll(previous, game), targets, trees, game);
    RewrittenCases(previous, targets, trees, game);
    InstalledBy(targets, previous, game);
    NoTarget(k, targets);
  }

  lemma SaysLength(es: seq<string>, offers: seq<ModRef>, k: string, game: Game)
    requires Says(es, offers, k, game)
    ensures |es| == |offers|
  {
    hide ParseModRef;
  }

  lemma SaysAt(es: seq<string>, offers: seq<ModRef>, k: string, game: Game, i: nat)
    requires Says(es, offers, k, game) && i < |es|
    ensures |es| == |offers| && ParseModRef(es[i], game) == Some(offers[i]) && offers[i].ver != ""
            && offers[i].Key() == k
  {
    hide ParseModRef;
  }

  lemma TreeThere(trees: Trees, r: ModRef)
    requires r in trees
    ensures TreeOf(trees, r) == trees[r]
  {
  }

  lemma InstalledBy(targets: seq<Update>, previous: seq<string>, game: Game)
    requires forall i | 0 <= i < |targets| :: LastEntry(targets[i].ref.Key(), previous, game).Some?
    ensures AllInstalled(targets, previous, game)
  {
    hide LastEntry;
  }

  lemma NoTarget(k: string, targets: seq<Update>)
    requires forall i | 0 <= i < |targets| :: |targets[i].ref.Key()| != |k|
    ensures !IsTarget(k, targets)
  {
  }

  // ---- exactly when ----------------------------------------------------------------

  /** What entries of the pool offer for a mod. */
  function Offerable(entries: set<string>, k: string, game: Game): set<ModRef> {
    set e | e in entries && ParseModRef(e, game).Some? && ParseModRef(e, game).value.ver != ""
            && ParseModRef(e, game).value.Key() == k :: ParseModRef(e, game).value
  }

  /** An update of other mods that offers this one nothing but what the entries say. */
  ghost predicate Offering(cur: ModRef, entries: set<string>, previous: seq<string>, targets: seq<Update>,
                           trees: Trees, game: Game) {
    && Rewritten(previous, targets, trees, game).Ok? && AllInstalled(targets, previous, game)
    && LastEntry(cur.Key(), previous, game) == Some(cur) && !IsTarget(cur.Key(), targets)
    && From(AllOffers(cur.Key(), targets, trees, game), Offerable(entries, cur.Key(), game))
  }

  /** The mod's reference after an update. */
  function After(k: string, previous: seq<string>, targets: seq<Update>, trees: Trees, game: Game): ModRef {
    var u := UpdateAll(EnterAll(previous, game), targets, trees, game);
    if u.Ok? then RefOf(u.value, k) else ModRef("", "", "")
  }

  lemma {:induction false} EntriesSaying(entries: set<string>, offers: seq<ModRef>, k: string,
                                         game: Game) returns (es: seq<string>)
    requires From(offers, Offerable(entries, k, game))
    ensures Says(es, offers, k, game)
  {
    hide ParseModRef;
    if offers == [] {
      es := [];
    } else {
      var n := |offers| - 1;
      assert offers == offers[..n] + [offers[n]];
      FromParts(offers[..n], offers[n], Offerable(entries, k, game));
      var before := EntriesSaying(entries, offers[..n], k, game);
      var e :| e in entries && ParseModRef(e, game) == Some(offers[n]);
      es := before + [e];
    }
  }

  lemma AfterIsWinner(cur: ModRef, entries: set<string>, previous: seq<string>, targets: seq<Update>, trees: Trees,
                      game: Game)
    requires Offering(cur, entries, previous, targets, trees, game)
    ensures After(cur.Key(), previous, targets, trees, game) == Winner(cur, AllOffers(cur.Key(), targets, trees, game))
    ensures From(AllOffers(cur.Key(), targets, trees, game), Offerable(entries, cur.Key(), game))
  {
    hide UpdateAll, EnterAll, AllOffers, LastEntry, IsTarget, AllInstalled, Rewritten, RefOf, Offerable, From, Winner,
         Circular, Chained, Settled;
    OthersNeverOlder(previous, targets, trees, cur.Key(), game);
    RewrittenCases(previous, targets, trees, game);
  }

  /** Any offers the entries can say are made by some update. */
  lemma OfferingBy(entry: string, entries: set<string>, offers: seq<ModRef>, game: Game)
    returns (previous: seq<string>, targets: seq<Update>, trees: Trees)
    requires ParseModRef(entry, game).Some?
    requires From(offers, Offerable(entries, ParseModRef(entry, game).value.Key(), game))
    ensures Offering(ParseModRef(entry, game).value, entries, previous, targets, trees, game)
    ensures AllOffers(ParseModRef(entry, game).value.Key(), targets, trees, game) == offers
  {
    hide UpdateAll, EnterAll, AllOffers, LastEntry, IsTarget, AllInstalled, Rewritten, Offerable, From, ParseModRef,
      Says;
    var cur := ParseModRef(entry, game).value;
    var es := EntriesSaying(entries, offers, cur.Key(), game);
    previous, targets, trees := UpdateOffering(entry, cur, es, offers, game);
  }

  /** MOVED BACK BY AN UPDATE, EXACTLY: trees that offer a mod only what these entries say can leave it
      at an older version than the installed one just when that lies on a circle of offered versions. */
  lemma UpdateMovesBackExactly(entry: string, entries: set<string>, game: Game)
    requires ParseModRef(entry, game).Some?
    ensures var cur := ParseModRef(entry, game).value;
            (exists previous, targets, trees :: Offering(cur, entries, previous, targets, trees, game)
               && Newer(cur.ver, After(cur.Key(), previous, targets, trees, game).ver)) <==>
            Circular(cur.ver, VersionsOf(Offerable(entries, cur.Key(), game)))
  {
    hide *;
    var cur := ParseModRef(entry, game).value;
    var pool := Offerable(entries, cur.Key(), game);
    BackExactly(cur, pool);
    if previous, targets, trees :| Offering(cur, entries, previous, targets, trees, game)
                                   && Newer(cur.ver, After(cur.Key(), previous, targets, trees, game).ver) {
      AfterIsWinner(cur, entries, previous, targets, trees, game);
    }
    if Circular(cur.ver, VersionsOf(pool)) {
      var offers :| From(offers, pool) && Newer(cur.ver, Winner(cur, offers).ver);
      var previous, targets, trees := OfferingBy(entry, entries, offers, game);
      AfterIsWinner(cur, entries, previous, targets, trees, game);
    }
  }

  /** SETTLED BY EVERY UPDATE, EXACTLY: whatever trees offer of these entries, the mod ends at what it
      was or at a newer offer, with nothing newer passed over, just when two steps up are one. */
  lemma UpdateSettlesExactly(entry: string, entries: set<string>, game: Game)
    requires ParseModRef(entry, game).Some?
    ensures var cur := ParseModRef(entry, game).value;
            (forall previous, targets, trees | Offering(cur, entries, previous, targets, trees, game) ::
               Settled(cur, After(cur.Key(), previous, targets, trees, game),
                       AllOffers(cur.Key(), targets, trees, game))) <==>
            Chained(cur.ver, VersionsOf(Offerable(entries, cur.Key(), game)))
  {
    hide *;
    var cur := ParseModRef(entry, game).value;
    var pool := Offerable(entries, cur.Key(), game);
    SettlesExactly(cur, pool);
    if Chained(cur.ver, VersionsOf(pool)) {
      forall previous, targets, trees | Offering(cur, entries, previous, targets, trees, game)
        ensures Settled(cur, After(cur.Key(), previous, targets, trees, game),
                        AllOffers(cur.Key(), targets, trees, game))
      {
        AfterIsWinner(cur, entries, previous, targets, trees, game);
      }
    } else {
      var offers :| From(offers, pool) && !Settled(cur, Winner(cur, offers), offers);
      var previous, targets, trees := OfferingBy(entry, entries, offers, game);
      AfterIsWinner(cur, entries, previous, targets, trees, game);
    }
  }

  // ---- targets ---------------------------------------------------------------------

  /** An update that pins the mod at latest, and whose later trees offer it nothing but what the
      entries say. */
  ghost predicate Pinning(k: string, latest: string, entries: set<string>, previous: seq<string>, targets: seq<Update>,
                          trees: Trees, j: nat, game: Game) {
    && Rewritten(previous, targets, trees, game).Ok? && AllInstalled(targets, previous, game)
    && j < |targets| && targets[j].ref.Key() == k && targets[j].latest == latest && !IsTarget(k, targets[j + 1..])
    && From(AllOffers(k, targets[j + 1..], trees, game), Offerable(entries, k, game))
  }

  lemma LastTargetOnce(k: string, targets: seq<Update>, i: nat, j: nat)
    requires i < |targets| && targets[i].ref.Key() == k && !IsTarget(k, targets[i + 1..])
    requires j < |targets| && targets[j].ref.Key() == k && !IsTarget(k, targets[j + 1..])
    ensures i == j
  {
    NotLater(k, targets, i);
    NotLater(k, targets, j);
  }

  lemma NotLater(k: string, targets: seq<Update>, i: nat)
    requires i < |targets| && !IsTarget(k, targets[i + 1..])
    ensures forall m | i < m < |targets| :: targets[m].ref.Key() != k
  {
    forall m | i < m < |targets| ensures targets[m].ref.Key() != k {
      var n := m - i - 1;
      assert targets[i + 1..][n] == targets[m];
    }
  }

  /** Which version wins depends on versions only. */
  lemma {:induction false} SameWinner(a: ModRef, b: ModRef, offers: seq<ModRef>)
    requires a.ver == b.ver
    ensures Winner(a, offers).ver == Winner(b, offers).ver
  {
    if offers == [] {
      assert offers == [];
    } else {
      hide Newer, Winner;
      var n := |offers| - 1;
      assert offers == offers[..n] + [offers[n]];
      SameWinner(a, b, offers[..n]);
      WinnerStep(a, offers[..n], offers[n]);
      WinnerStep(b, offers[..n], offers[n]);
    }
  }

  lemma AfterPinned(k: string, latest: string, entries: set<string>, previous: seq<string>, targets: seq<Update>,
                    trees: Trees, j: nat, game: Game) returns (pinned: ModRef)
    requires Pinning(k, latest, entries, previous, targets, trees, j, game)
    ensures j < |targets|
    ensures var offers := AllOffers(k, targets[j + 1..], trees, game);
            && pinned.ver == latest && pinned.Key() == k && From(offers, Offerable(entries, k, game))
            && After(k, previous, targets, trees, game) == Winner(pinned, offers)
  {
    hide UpdateAll, EnterAll, AllOffers, LastEntry, IsTarget, AllInstalled, Rewritten, RefOf, Offerable, From, Winner,
         Circular, Chained, Settled;
    TargetHere(k, targets, j);
    var i, p := TargetsEndAtLatest(previous, targets, trees, k, game);
    LastTargetOnce(k, targets, i, j);
    RewrittenCases(previous, targets, trees, game);
    pinned := p;
  }

  lemma TargetHere(k: string, targets: seq<Update>, j: nat)
    requires j < |targets| && targets[j].ref.Key() == k
    ensures IsTarget(k, targets)
  {
  }

  lemma {:induction false} OtherTree(k: string, targets: seq<Update>, trees: Trees, r: ModRef, tree: seq<string>,
                                     game: Game)
    requires forall u | u in targets :: u.ref != r
    ensures AllOffers(k, targets, trees[r := tree], game) == AllOffers(k, targets, trees, game)
  {
    hide Offers;
    if targets != [] {
      var n := |targets| - 1;
      assert forall u | u in targets[..n] :: u in targets;
      OtherTree(k, targets[..n], trees, r, tree, game);
      assert targets[n] in targets;
    }
  }

  lemma {:induction false} ResolvedAll(t: Tree, targets: seq<Update>, trees: Trees, game: Game)
    requires UpdateAll(t, targets, trees, game).Ok?
    ensures forall u | u in targets :: u.ref in trees
  {
    hide UpdateOne;
    if targets != [] {
      var n := |targets| - 1;
      ResolvedAll(t, targets[..n], trees, game);
      assert targets == targets[..n] + [targets[n]];
    }
  }

  /** Pin the mod first, then make the offers. */
  lemma PinningBy(entry: string, latest: string, entries: set<string>, offers: seq<ModRef>, game: Game)
    returns (previous: seq<string>, targets: seq<Update>, trees: Trees)
    requires ParseModRef(entry, game).Some?
    requires From(offers, Offerable(entries, ParseModRef(entry, game).value.Key(), game))
    ensures Pinning(ParseModRef(entry, game).value.Key(), latest, entries, previous, targets, trees, 0, game)
    ensures AllOffers(ParseModRef(entry, game).value.Key(), targets[1..], trees, game) == offers
  {
    hide *;
    var cur := ParseModRef(entry, game).value;
    var k, later, there;
    k := cur.Key();
    previous, later, there := OfferingBy(entry, entries, offers, game);
    OfferingParts(cur, entries, previous, later, there, game);
    var u := Update(cur, "", latest);
    targets, trees := [u] + later, there[cur := []];
    assert targets[1..] == later && targets[0] == u;
    NoOtherIs(cur, later);
    OtherTree(k, later, there, cur, [], game);
    RewrittenCases(previous, later, there, game);
    ResolvedAll(EnterAll(previous, game), later, there, game);
    AllResolved(EnterAll(previous, game), targets, trees, game);
    RewrittenCases(previous, targets, trees, game);
    InstalledMore(u, later, previous, game);
    PinningIs(k, latest, entries, previous, targets, trees, game);
  }

  lemma PinningIs(k: string, latest: string, entries: set<string>, previous: seq<string>, targets: seq<Update>,
                  trees: Trees, game: Game)
    requires Rewritten(previous, targets, trees, game).Ok? && AllInstalled(targets, previous, game)
    requires targets != [] && targets[0].ref.Key() == k && targets[0].latest == latest && !IsTarget(k, targets[1..])
    requires From(AllOffers(k, targets[1..], trees, game), Offerable(entries, k, game))
    ensures Pinning(k, latest, entries, previous, targets, trees, 0, game)
  {
    hide Rewritten, AllInstalled, IsTarget, AllOffers, From, Offerable;
  }

  lemma OfferingParts(cur: ModRef, entries: set<string>, previous: seq<string>, targets: seq<Update>, trees: Trees,
                      game: Game)
    requires Offering(cur, entries, previous, targets, trees, game)
    ensures Rewritten(previous, targets, trees, game).Ok? && AllInstalled(targets, previous, game)
    ensures LastEntry(cur.Key(), previous, game) == Some(cur) && !IsTarget(cur.Key(), targets)
  {
    hide Rewritten, AllInstalled, IsTarget, AllOffers, From, Offerable, LastEntry;
  }

  lemma NoOtherIs(cur: ModRef, targets: seq<Update>)
    requires !IsTarget(cur.Key(), targets)
    ensures forall u | u in targets :: u.ref != cur
  {
  }

  lemma InstalledMore(u: Update, targets: seq<Update>, previous: seq<string>, game: Game)
    requires AllInstalled(targets, previous, game) && LastEntry(u.ref.Key(), previous, game).Some?
    ensures AllInstalled([u] + targets, previous, game)
  {
    hide LastEntry;
  }

  /** A TARGET BELOW ITS LATEST VERSION, EXACTLY: later trees that offer it only what these entries say
      can leave it older than the version it was updated to just when that lies on a circle. */
  lemma TargetMovesBackExactly(entry: string, latest: string, entries: set<string>, game: Game)
    requires ParseModRef(entry, game).Some?
    ensures var k := ParseModRef(entry, game).value.Key();
            (exists previous, targets, trees, j :: Pinning(k, latest, entries, previous, targets, trees, j, game)
               && Newer(latest, After(k, previous, targets, trees, game).ver)) <==>
            Circular(latest, VersionsOf(Offerable(entries, k, game)))
  {
    hide *;
    var cur := ParseModRef(entry, game).value;
    var k, pinned := cur.Key(), cur.(ver := latest);
    var pool := Offerable(entries, k, game);
    BackExactly(pinned, pool);
    if previous, targets, trees, j :| Pinning(k, latest, entries, previous, targets, trees, j, game)
                                      && Newer(latest, After(k, previous, targets, trees, game).ver) {
      var p := AfterPinned(k, latest, entries, previous, targets, trees, j, game);
      SameWinner(pinned, p, AllOffers(k, targets[j + 1..], trees, game));
    }
    if Circular(latest, VersionsOf(pool)) {
      var offers :| From(offers, pool) && Newer(pinned.ver, Winner(pinned, offers).ver);
      var previous, targets, trees := PinningBy(entry, latest, entries, offers, game);
      var p := AfterPinned(k, latest, entries, previous, targets, trees, 0, game);
      SameWinner(pinned, p, offers);
    }
  }

  // ---- one of them -----------------------------------------------------------------

  /** SUCH UPDATES EXIST: with m installed at 1.3, two other mods' trees, one with m at 1a.5 and one
      with m at 1b.1, leave it at 1b.1, which 1.3 is newer than. */
  lemma OldVersionReturns(game: Game) returns (previous: seq<string>, targets: seq<Update>, trees: Trees)
    ensures previous != [] && previous[0] == "a/m/1.3" && AllInstalled(targets, previous, game)
    ensures !IsTarget("a-m", targets)
    ensures AllOffers("a-m", targets, trees, game) == [ModRef("a", "m", "1a.5"), ModRef("a", "m", "1b.1")]
    ensures Rewritten(previous, targets, trees, game).Ok?
            && "a/m/1b.1" in Rewritten(previous, targets, trees, game).value
    ensures After("a-m", previous, targets, trees, game) == ModRef("a", "m", "1b.1") && Newer("1.3", "1b.1")
  {
    hide *;
    var cur, r, s := ModRef("a", "m", "1.3"), ModRef("a", "m", "1a.5"), ModRef("a", "m", "1b.1");
    var offers, es := [r, s], ["a/m/1a.5", "a/m/1b.1"];
    TheMod("1.3", game);
    TheMod("1a.5", game);
    TheMod("1b.1", game);
    assert "a/m/" + "1.3" == "a/m/1.3" && "a/m/" + "1a.5" == "a/m/1a.5" && "a/m/" + "1b.1" == "a/m/1b.1";
    SaysBoth(es, offers, "a-m", game);
    previous, targets, trees := UpdateOffering("a/m/1.3", cur, es, offers, game);
    Circle();
    WinnerStep(cur, [], r);
    WinnerStep(cur, [r], s);
    NotNewerItself("1.3");
    NothingWins(cur);
    assert [] + [r] == [r] && [r] + [s] == offers;
    var u := UpdateTransform(previous, targets, trees, game);
    OthersNeverOlder(previous, targets, trees, "a-m", game);
    AfterIs("a-m", previous, targets, trees, u, game);
    WrittenAt(u);
    assert "a-m" in u.order;
    var i :| 0 <= i < |u.order| && u.order[i] == "a-m";
    assert Written(u)[i] == "a/m/1b.1";
  }

  lemma AfterIs(k: string, previous: seq<string>, targets: seq<Update>, trees: Trees, u: Tree, game: Game)
    requires UpdateAll(EnterAll(previous, game), targets, trees, game) == Ok(u)
    ensures After(k, previous, targets, trees, game) == RefOf(u, k)
  {
    hide UpdateAll, EnterAll, RefOf;
  }

  lemma TheMod(v: string, game: Game)
    requires |v| > 2 && v[0] == '1' && '/' !in v && (v[|v| - 1] == '1' || v[|v| - 1] == '3' || v[|v| - 1] == '5')
    ensures var r := ModRef("a", "m", v);
            r.Entry() == "a/m/" + v && r.Key() == "a-m" && ParseModRef(r.Entry(), game) == Some(r)
  {
    var r := ModRef("a", "m", v);
    TheKey(v);
    hide ParseModRef, Printable, Outright, ToLower;
    assert r.Entry() == "a/m/" + v;
    TheEntry(v);
    PinnedPrintable(r, game);
    EntryReads(r, game);
  }

  lemma TheKey(v: string)
    ensures ModRef("a", "m", v).Key() == "a-m"
  {
    assert "a" + "-" + "m" == "a-m";
    hide ToLower;
    assert |ToLower("a-m")| == 3 && forall i | 0 <= i < 3 :: ToLower("a-m")[i] == "a-m"[i];
  }

  lemma TheEntry(v: string)
    requires |v| > 2 && (v[|v| - 1] == '1' || v[|v| - 1] == '3' || v[|v| - 1] == '5')
    ensures Outright("a/m/" + v)
  {
    var e := "a/m/" + v;
    assert e[0] == 'a' && e[|e| - 1] == v[|v| - 1];
  }

  lemma SaysBoth(es: seq<string>, offers: seq<ModRef>, k: string, game: Game)
    requires |es| == |offers| == 2 && ParseModRef(es[0], game) == Some(offers[0])
             && ParseModRef(es[1], game) == Some(offers[1])
    requires offers[0].ver != "" && offers[1].ver != "" && offers[0].Key() == k && offers[1].Key() == k
    ensures Says(es, offers, k, game)
  {
    hide ParseModRef;
  }

  lemma Circle()
    ensures Newer("1a.5", "1.3") && Newer("1.3", "1b.1") && Newer("1b.1", "1a.5")
  {
    hide *;
    NewerIsCircular();
    assert "1a.5" == ['1', 'a', '.', '5'] && "1.3" == ['1', '.', '3'] && "1b.1" == ['1', 'b', '.', '1'];
  }
}
