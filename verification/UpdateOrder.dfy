/** When an update can move a mod back, exactly: internal/app/modupdates/checker.go, lines 523-547,
    over the comparison of internal/domain/mod.go, lines 258-337, which is no order on all texts. */
module UpdateOrder {
  import opened Graph
  import opened Wrappers
  import opened ModRefs
  import opened Versions
  import opened Updates
  import opened UpdateLaws

  /** From each version to the newer ones of vs. */
  function Rising(v: string, vs: set<string>): Edges<string> {
    map u | u in vs + {v} :: set w | w in vs && Newer(w, u)
  }

  /** Versions of vs, each newer than the one before, lead from v to one that v is newer than. */
  ghost predicate Circular(v: string, vs: set<string>) {
    exists w :: w in vs && Reaches(Rising(v, vs), v, w) && Newer(v, w)
  }

  /** Two steps up from a version that can be reached are one: what is newer than a newer version
      is newer. */
  ghost predicate Chained(v: string, vs: set<string>) {
    forall a, b, c | Reaches(Rising(v, vs), v, a) && b in vs && c in vs + {v} && Newer(b, a) && Newer(c, b) ::
      Newer(c, a)
  }

  function VersionsOf(pool: set<ModRef>): set<string> {
    set r | r in pool :: r.ver
  }

  ghost predicate From(offers: seq<ModRef>, pool: set<ModRef>) {
    forall r | r in offers :: r in pool
  }

  // ---- climbing ----------------------------------------------------------------

  lemma NextRising(v: string, vs: set<string>, u: string)
    ensures Next(Rising(v, vs), u) == if u in vs + {v} then set w | w in vs && Newer(w, u) else {}
  {
    hide Newer;
  }

  lemma OfferedVersion(offers: seq<ModRef>, pool: set<ModRef>, r: ModRef)
    requires From(offers, pool) && r in offers
    ensures r.ver in VersionsOf(pool)
  {
  }

  /** What wins is what was there or an offer, and is reached by rising. */
  lemma {:induction false} BestRises(cur: ModRef, offers: seq<ModRef>, pool: set<ModRef>)
    requires From(offers, pool)
    ensures var best, vs := Best(Some(cur), offers), VersionsOf(pool);
            && best.Some? && (best.value == cur || best.value in offers)
            && Reaches(Rising(cur.ver, vs), cur.ver, best.value.ver)
  {
    hide Newer, Reaches, VersionsOf, Rising;
    var vs := VersionsOf(pool);
    if offers == [] {
      ReachesItself(Rising(cur.ver, vs), cur.ver);
    } else {
      var n := |offers| - 1;
      var before, r := offers[..n], offers[n];
      assert forall x | x in before :: x in offers;
      BestRises(cur, before, pool);
      var b := Best(Some(cur), before).value;
      if Newer(r.ver, b.ver) {
        OfferedVersion(offers, pool, r);
        if b != cur {
          OfferedVersion(offers, pool, b);
        }
        NextRising(cur.ver, vs, b.ver);
        ReachesStep(Rising(cur.ver, vs), cur.ver, b.ver, r.ver);
      }
    }
  }

  /** Offered along a path, every offer wins. */
  lemma {:induction false} ClimbPath(cur: ModRef, p: seq<string>, offers: seq<ModRef>, vs: set<string>, w: string)
    requires IsPath(Rising(cur.ver, vs), p, cur.ver, w)
    requires |offers| == |p| - 1 && forall i | 0 <= i < |offers| :: offers[i].ver == p[i + 1]
    ensures Best(Some(cur), offers) == Some(if offers == [] then cur else offers[|offers| - 1])
  {
    hide Newer, Rising;
    if offers != [] {
      var n := |offers| - 1;
      var q := p[..|p| - 1];
      assert IsPath(Rising(cur.ver, vs), q, cur.ver, q[|q| - 1]);
      ClimbPath(cur, q, offers[..n], vs, q[|q| - 1]);
      assert p[n + 1] in Next(Rising(cur.ver, vs), p[n]);
      NextRising(cur.ver, vs, p[n]);
      assert n > 0 ==> offers[..n][n - 1].ver == p[n];
    }
  }

  lemma PathVersions(v: string, vs: set<string>, p: seq<string>, w: string)
    requires IsPath(Rising(v, vs), p, v, w)
    ensures forall i | 0 < i < |p| :: p[i] in vs
  {
    hide Newer, Rising;
    forall i | 0 < i < |p| ensures p[i] in vs {
      assert p[i - 1 + 1] in Next(Rising(v, vs), p[i - 1]);
      NextRising(v, vs, p[i - 1]);
    }
  }

  /** Every version that can be reached wins after some offers. */
  lemma ClimbTo(cur: ModRef, pool: set<ModRef>, w: string) returns (offers: seq<ModRef>)
    requires Reaches(Rising(cur.ver, VersionsOf(pool)), cur.ver, w)
    ensures From(offers, pool) && Best(Some(cur), offers).Some? && Best(Some(cur), offers).value.ver == w
  {
    hide Newer, Rising, Best, VersionsOf;
    var vs := VersionsOf(pool);
    var p :| IsPath(Rising(cur.ver, vs), p, cur.ver, w);
    PathVersions(cur.ver, vs, p, w);
    offers := OffersFor(pool, p[1..]);
    ClimbPath(cur, p, offers, vs, w);
  }

  lemma OffersFor(pool: set<ModRef>, vs: seq<string>) returns (offers: seq<ModRef>)
    requires forall v | v in vs :: v in VersionsOf(pool)
    ensures From(offers, pool) && |offers| == |vs| && forall i | 0 <= i < |vs| :: offers[i].ver == vs[i]
  {
    if vs == [] {
      offers := [];
    } else {
      var before := OffersFor(pool, vs[..|vs| - 1]);
      assert vs[|vs| - 1] in vs;
      var r :| r in pool && r.ver == vs[|vs| - 1];
      offers := before + [r];
    }
  }

  // ---- offers, exactly ---------------------------------------------------------

  /** The reference that is left. */
  function Winner(cur: ModRef, offers: seq<ModRef>): ModRef {
    var best := Best(Some(cur), offers);
    if best.Some? then best.value else cur
  }

  lemma WinnerIs(cur: ModRef, offers: seq<ModRef>)
    ensures Best(Some(cur), offers) == Some(Winner(cur, offers))
  {
    BestThere(Some(cur), offers);
  }

  /** GOING BACK, EXACTLY: some offers of the pool leave an older reference than there was just when
      the version lies on a circle through the pool's. */
  lemma BackExactly(cur: ModRef, pool: set<ModRef>)
    ensures (exists offers :: From(offers, pool) && Newer(cur.ver, Winner(cur, offers).ver)) <==>
            Circular(cur.ver, VersionsOf(pool))
  {
    hide Newer, Best, VersionsOf, Reaches, Rising, From;
    var vs := VersionsOf(pool);
    if offers :| From(offers, pool) && Newer(cur.ver, Winner(cur, offers).ver) {
      NeverBack(cur, offers, pool);
    }
    if Circular(cur.ver, vs) {
      var w :| w in vs && Reaches(Rising(cur.ver, vs), cur.ver, w) && Newer(cur.ver, w);
      var offers := ClimbTo(cur, pool, w);
    }
  }

  lemma NeverBack(cur: ModRef, offers: seq<ModRef>, pool: set<ModRef>)
    requires From(offers, pool) && Newer(cur.ver, Winner(cur, offers).ver)
    ensures Circular(cur.ver, VersionsOf(pool))
  {
    hide Newer, Best, VersionsOf, Reaches, Rising, From;
    BestRises(cur, offers, pool);
    NotNewerItself(cur.ver);
    OfferedVersion(offers, pool, Winner(cur, offers));
  }

  /** What an update is for: the mod kept its reference or got a newer one, and neither what was
      there nor what was offered is newer than what is left. */
  ghost predicate Settled(was: ModRef, now: ModRef, offers: seq<ModRef>) {
    && (now == was || (now in offers && Newer(now.ver, was.ver)))
    && !Newer(was.ver, now.ver) && forall r | r in offers :: !Newer(r.ver, now.ver)
  }

  lemma ChainedAt(v: string, vs: set<string>, a: string, b: string, c: string)
    requires Chained(v, vs) && Reaches(Rising(v, vs), v, a) && b in vs && c in vs + {v} && Newer(b, a) && Newer(c, b)
    ensures Newer(c, a)
  {
    hide Newer, Reaches, Rising;
  }

  lemma {:induction false} ChainedSettles(cur: ModRef, offers: seq<ModRef>, pool: set<ModRef>)
    requires From(offers, pool) && Chained(cur.ver, VersionsOf(pool))
    ensures Settled(cur, Winner(cur, offers), offers)
  {
    hide *;
    if offers == [] {
      NotNewerItself(cur.ver);
      NothingWins(cur);
    } else {
      var vs, n := VersionsOf(pool), |offers| - 1;
      var before, r := offers[..n], offers[n];
      assert offers == before + [r];
      FromParts(before, r, pool);
      ChainedSettles(cur, before, pool);
      var b := Winner(cur, before);
      WinnerStep(cur, before, r);
      if Newer(r.ver, b.ver) {
        BestRises(cur, before, pool);
        WinnerIs(cur, before);
        ReachesItself(Rising(cur.ver, vs), cur.ver);
        OfferedVersion(offers, pool, r);
        NotNewerItself(r.ver);
        SettledRises(cur, b, before);
        if b != cur {
          OfferedVersion(before, pool, b);
          ChainedAt(cur.ver, vs, cur.ver, b.ver, r.ver);
        }
        if Newer(cur.ver, r.ver) {
          ChainedAt(cur.ver, vs, b.ver, r.ver, cur.ver);
        }
        forall x | x in before ensures !Newer(x.ver, r.ver) {
          if Newer(x.ver, r.ver) {
            OfferedVersion(before, pool, x);
            ChainedAt(cur.ver, vs, b.ver, r.ver, x.ver);
          }
        }
        SettledBy(cur, r, offers);
      } else {
        SettledRises(cur, b, before);
        SettledBy(cur, b, offers);
      }
    }
  }

  lemma NothingWins(cur: ModRef)
    requires !Newer(cur.ver, cur.ver)
    ensures Winner(cur, []) == cur && Settled(cur, cur, [])
  {
    hide Newer;
  }

  lemma FromParts(before: seq<ModRef>, r: ModRef, pool: set<ModRef>)
    ensures From(before + [r], pool) <==> From(before, pool) && r in pool
  {
    var all := before + [r];
    assert all[|before|] == r;
    assert forall x | x in before :: x in all;
  }

  lemma WinnerStep(cur: ModRef, before: seq<ModRef>, r: ModRef)
    ensures Winner(cur, before + [r]) == if Newer(r.ver, Winner(cur, before).ver) then r else Winner(cur, before)
  {
    hide Newer, Best;
    WinnerIs(cur, before);
    BestOneMore(Some(cur), before, r);
  }

  lemma SettledRises(was: ModRef, now: ModRef, offers: seq<ModRef>)
    requires Settled(was, now, offers)
    ensures now == was || (now in offers && Newer(now.ver, was.ver))
    ensures !Newer(was.ver, now.ver) && forall r | r in offers :: !Newer(r.ver, now.ver)
  {
    hide Newer;
  }

  lemma SettledBy(was: ModRef, now: ModRef, offers: seq<ModRef>)
    requires now == was || (now in offers && Newer(now.ver, was.ver))
    requires !Newer(was.ver, now.ver) && forall r | r in offers :: !Newer(r.ver, now.ver)
    ensures Settled(was, now, offers)
  {
    hide Newer;
  }

  /** SETTLING, EXACTLY: whatever is offered from the pool, nothing newer is passed over or given up,
      just when two steps up from any version that can be reached are one. */
  lemma SettlesExactly(cur: ModRef, pool: set<ModRef>)
    ensures (forall offers | From(offers, pool) :: Settled(cur, Winner(cur, offers), offers)) <==>
            Chained(cur.ver, VersionsOf(pool))
  {
    hide Newer, Best, VersionsOf, Reaches, Rising, From, Settled, Winner;
    var vs := VersionsOf(pool);
    if Chained(cur.ver, vs) {
      forall offers | From(offers, pool) ensures Settled(cur, Winner(cur, offers), offers) {
        ChainedSettles(cur, offers, pool);
      }
    } else {
      var a, b, c :| Reaches(Rising(cur.ver, vs), cur.ver, a) && b in vs && c in vs + {cur.ver}
                     && Newer(b, a) && Newer(c, b) && !Newer(c, a);
      var offers := PassedOver(cur, pool, a, b, c);
    }
  }

  /** Offers that climb to a, pass c by and go on to b leave c behind. */
  lemma PassedOver(cur: ModRef, pool: set<ModRef>, a: string, b: string, c: string) returns (offers: seq<ModRef>)
    requires var vs := VersionsOf(pool);
             && Reaches(Rising(cur.ver, vs), cur.ver, a) && b in vs && c in vs + {cur.ver}
             && Newer(b, a) && Newer(c, b) && !Newer(c, a)
    ensures From(offers, pool) && !Settled(cur, Winner(cur, offers), offers)
  {
    hide Newer, Best, Reaches, Rising, Settled, Winner;
    var way := ClimbTo(cur, pool, a);
    WinnerIs(cur, way);
    var rb :| rb in pool && rb.ver == b;
    if c in VersionsOf(pool) {
      var rc :| rc in pool && rc.ver == c;
      FromParts(way, rc, pool);
      WinnerStep(cur, way, rc);
      way := way + [rc];
      assert way[|way| - 1] == rc;
    }
    FromParts(way, rb, pool);
    WinnerStep(cur, way, rb);
    offers := way + [rb];
    assert c != cur.ver ==> offers[|way| - 1].ver == c;
    if Settled(cur, rb, offers) {
      SettledRises(cur, rb, offers);
    }
  }

  // ---- versions that make no circle ----------------------------------------------

  /** Settling keeps from going back. */
  lemma ChainedIsNotCircular(cur: ModRef, pool: set<ModRef>)
    requires Chained(cur.ver, VersionsOf(pool))
    ensures !Circular(cur.ver, VersionsOf(pool))
  {
    hide *;
    BackExactly(cur, pool);
    if offers :| From(offers, pool) && Newer(cur.ver, Winner(cur, offers).ver) {
      ChainedSettles(cur, offers, pool);
      SettledRises(cur, Winner(cur, offers), offers);
    }
  }

  /** Versions of numbers make none. */
  lemma OrderedIsChained(v: string, vs: set<string>)
    requires forall w | w in vs + {v} :: Ordered(w)
    ensures Chained(v, vs)
  {
    hide Newer, Ordered, Reaches, Rising;
    forall a, b, c | Reaches(Rising(v, vs), v, a) && b in vs && c in vs + {v} && Newer(b, a) && Newer(c, b)
      ensures Newer(c, a)
    {
      RisingStays(v, vs, a);
      NewerTransitive(c, b, a);
    }
  }

  lemma RisingStays(v: string, vs: set<string>, a: string)
    requires Reaches(Rising(v, vs), v, a)
    ensures a in vs + {v}
  {
    hide Newer, Reaches, Rising;
    forall u, w | u in vs + {v} && w in Next(Rising(v, vs), u) ensures w in vs + {v} {
      NextRising(v, vs, u);
    }
    ReachesStays(Rising(v, vs), vs + {v}, v, a);
  }

  /** ONE OFFERED VERSION makes a circle only with a version that is newer both ways, and then one of
      them is an unpinned marker. */
  lemma OneOfferedVersion(v: string, x: string)
    ensures Circular(v, {x}) <==> Newer(x, v) && Newer(v, x)
    ensures Chained(v, {x}) <==> !(Newer(x, v) && Newer(v, x))
    ensures Newer(x, v) && Newer(v, x) ==> Marker(v) || Marker(x)
  {
    hide Newer, Marker, Reaches, Rising;
    if Newer(x, v) && Newer(v, x) {
      NewerAsymmetric(v, x);
      ReachesItself(Rising(v, {x}), v);
      NextRising(v, {x}, v);
      ReachesStep(Rising(v, {x}), v, v, x);
      NotNewerItself(v);
      assert !Chained(v, {x}) by {
        assert Reaches(Rising(v, {x}), v, v) && x in {x} && v in {x} + {v} && Newer(x, v) && Newer(v, x);
      }
    }
    NotNewerItself(x);
    NotNewerItself(v);
    if Circular(v, {x}) {
      var w :| w in {x} && Reaches(Rising(v, {x}), v, w) && Newer(v, w);
      if !Newer(x, v) {
        StaysPut(v, x);
      }
    }
    if !Chained(v, {x}) {
      var a, b, c :| Reaches(Rising(v, {x}), v, a) && b in {x} && c in {x} + {v} && Newer(b, a) && Newer(c, b)
        && !Newer(c, a);
      RisingStays(v, {x}, a);
    }
  }

  lemma StaysPut(v: string, x: string)
    requires !Newer(x, v) && Reaches(Rising(v, {x}), v, x)
    ensures x == v
  {
    hide Newer, Reaches, Rising;
    NextRising(v, {x}, v);
    ReachesStays(Rising(v, {x}), {v}, v, x);
  }

  predicate AllOrdered(refs: seq<ModRef>) {
    forall r | r in refs :: Ordered(r.ver)
  }

  /** THE BEST OFFER IS THE NEWEST among versions of numbers, and goes for nothing older. */
  lemma BestIsNewest(cur: ModRef, offers: seq<ModRef>)
    requires Ordered(cur.ver) && AllOrdered(offers)
    ensures !Circular(cur.ver, VersionsOf(Pool(offers))) && Chained(cur.ver, VersionsOf(Pool(offers)))
    ensures Settled(cur, Winner(cur, offers), offers)
  {
    hide Newer, Ordered, Settled, Chained, Circular, Winner;
    OrderedIsChained(cur.ver, VersionsOf(Pool(offers)));
    ChainedSettles(cur, offers, Pool(offers));
    ChainedIsNotCircular(cur, Pool(offers));
  }

  // ---- whole updates -------------------------------------------------------------

  function Pool(offers: seq<ModRef>): set<ModRef> {
    set r | r in offers
  }

  /** NO UPDATE MOVES A MOD BACK, unless its version lies on a circle of the offered ones: a mod that
      is no target ends as the winner among what it was and all that was offered, which is not older
      without such a circle, and settled when two steps up are always one. */
  lemma OthersNeverOlder(previous: seq<string>, targets: seq<Update>, trees: Trees, k: string, game: Game)
    requires Rewritten(previous, targets, trees, game).Ok? && AllInstalled(targets, previous, game)
    requires LastEntry(k, previous, game).Some? && !IsTarget(k, targets)
    ensures var was, offers := LastEntry(k, previous, game).value, AllOffers(k, targets, trees, game);
            var now := RefOf(UpdateAll(EnterAll(previous, game), targets, trees, game).value, k);
            var vs := VersionsOf(Pool(offers));
            && now == Winner(was, offers) && (now == was || now in offers)
            && (!Circular(was.ver, vs) ==> !Newer(was.ver, now.ver))
            && (Chained(was.ver, vs) ==> Settled(was, now, offers))
  {
    hide *;
    var was, offers := LastEntry(k, previous, game).value, AllOffers(k, targets, trees, game);
    var u := UpdateTransform(previous, targets, trees, game);
    WinnerIs(was, offers);
    AtIs(u, k);
    WinnerFacts(was, offers);
  }

  lemma WinnerFacts(was: ModRef, offers: seq<ModRef>)
    ensures var now, vs := Winner(was, offers), VersionsOf(Pool(offers));
            && (now == was || now in offers)
            && (!Circular(was.ver, vs) ==> !Newer(was.ver, now.ver))
            && (Chained(was.ver, vs) ==> Settled(was, now, offers))
  {
    hide Newer, Settled, Chained, Circular, Reaches;
    var pool := Pool(offers);
    BestRises(was, offers, pool);
    BackExactly(was, pool);
    if Chained(was.ver, VersionsOf(pool)) {
      ChainedSettles(was, offers, pool);
    }
  }

  /** A TARGET ENDS AT ITS LATEST VERSION, or at what later updates offer for it, under the same
      conditions on that version. */
  lemma TargetsEndAtLatest(previous: seq<string>, targets: seq<Update>, trees: Trees, k: string, game: Game)
    returns (j: nat, pinned: ModRef)
    requires Rewritten(previous, targets, trees, game).Ok? && AllInstalled(targets, previous, game)
    requires IsTarget(k, targets)
    ensures j < |targets| && targets[j].ref.Key() == k && !IsTarget(k, targets[j + 1..])
    ensures pinned.Key() == k && pinned.ver == targets[j].latest
    ensures var offers := AllOffers(k, targets[j + 1..], trees, game);
            var now := RefOf(UpdateAll(EnterAll(previous, game), targets, trees, game).value, k);
            var vs := VersionsOf(Pool(offers));
            && now == Winner(pinned, offers) && (now == pinned || now in offers)
            && (!Circular(pinned.ver, vs) ==> !Newer(pinned.ver, now.ver))
            && (Chained(pinned.ver, vs) ==> Settled(pinned, now, offers))
  {
    hide *;
    var t := EnterAll(previous, game);
    var u := UpdateTransform(previous, targets, trees, game);
    Entered(previous, game);
    forall x | x in targets ensures x.ref.Key() in t.byKey {
      InstalledIsThere(targets, previous, x, game);
    }
    j, pinned := TargetTakesItsLatest(t, targets, trees, k, game);
    var offers := AllOffers(k, targets[j + 1..], trees, game);
    WinnerIs(pinned, offers);
    AtIs(u, k);
    WinnerFacts(pinned, offers);
  }
}
