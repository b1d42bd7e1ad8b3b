/** The budget, the slots and the addresses by what is recorded of an instance:
    internal/domain/instance.go, lines 111-126, internal/domain/budget.go, lines 26-69, and
    internal/app/instances/manager.go, lines 562-980. */
module InstanceFields {
  import opened Sets
  import opened Wrappers
  import opened Instances
  import opened InstanceLaws

  // ---- memory ------------------------------------------------------------------

  const NOTHING := Resources(0, 0, 0, 0)

  lemma LastOne(all: seq<Instance>, inst: Instance)
    ensures (all + [inst])[..|all|] == all && (all + [inst])[|all|] == inst
  {
  }

  /** WHAT AN INSTANCE ADDS to the sums of a list: nothing when it does not run; its own request when it
      has resources of its own, whatever its tier; and its tier's request otherwise. */
  lemma OneMoreCounts(all: seq<Instance>, inst: Instance, game: GameId)
    ensures RunningCount(all + [inst]) == RunningCount(all) + if inst.state == Running then 1 else 0
    ensures inst.state != Running ==> UsedGiB(all + [inst], game) == UsedGiB(all, game)
    ensures inst.state == Running && inst.resources != NOTHING ==>
              UsedGiB(all + [inst], game) == UsedGiB(all, game) + inst.resources.memRequest
    ensures inst.state == Running && inst.resources == NOTHING ==>
              UsedGiB(all + [inst], game) == UsedGiB(all, game) + BuiltinRequest(game, inst.tier)
  {
    LastOne(all, inst);
  }

  /** The same for a repository: putting a running instance in a slot adds its own request. */
  lemma OneMoreUses(repo: Repo, n: int, inst: Instance, game: GameId)
    ensures RunningIn(repo[n := inst]) == RunningIn(repo - {n}) + if inst.state == Running then 1 else 0
    ensures inst.state != Running ==> Used(repo[n := inst], game) == Used(repo - {n}, game)
    ensures inst.state == Running && inst.resources != NOTHING ==>
              Used(repo[n := inst], game) == Used(repo - {n}, game) + inst.resources.memRequest
    ensures inst.state == Running && inst.resources == NOTHING ==>
              Used(repo[n := inst], game) == Used(repo - {n}, game) + BuiltinRequest(game, inst.tier)
  {
    SumsWith(repo, game, n, inst);
    hide RunningIn, Used;
  }

  /** THE TIERS' REQUESTS in GiB: small, large, and everything else as medium. */
  lemma TierRequests(tier: Tier)
    ensures [BuiltinRequest(Minecraft, Small), BuiltinRequest(Minecraft, Medium), BuiltinRequest(Minecraft, Large)] ==
            [4, 8, 12]
    ensures [BuiltinRequest(Valheim, Small), BuiltinRequest(Valheim, Medium), BuiltinRequest(Valheim, Large)] ==
            [4, 6, 8]
    ensures [BuiltinRequest(GarrysMod, Small), BuiltinRequest(GarrysMod, Medium), BuiltinRequest(GarrysMod, Large)] ==
            [2, 4, 8]
    ensures forall game :: tier != Small && tier != Large ==> BuiltinRequest(game, tier) == BuiltinRequest(game, Medium)
  {
  }

  /** A START OVER THE MEMORY IS REFUSED, EXACTLY: with a running place free, when the world's own request
      (its tier's, when it has no resources of its own) and what the others use are over the total. */
  lemma StartOverMemory(l: Limits, repo: Repo, n: int, fails: bool)
    requires l.total > 0 && l.maxRunning > 0 && n in repo && repo[n].state != Running
    ensures var refused := AfterStart(l, repo, n, fails).1;
            && (refused == Some(TooManyRunning) <==> RunningIn(repo - {n}) >= l.maxRunning)
            && (RunningIn(repo - {n}) < l.maxRunning && repo[n].resources != NOTHING ==>
                  (refused == Some(OverMemory) <==> Used(repo - {n}, l.game) + repo[n].resources.memRequest > l.total))
            && (RunningIn(repo - {n}) < l.maxRunning && repo[n].resources == NOTHING ==>
                  (refused == Some(OverMemory) <==>
                     Used(repo - {n}, l.game) + BuiltinRequest(l.game, repo[n].tier) > l.total))
  {
    hide RunningIn, Used;
  }

  /** Two worlds with resources of their own: the second starts beside the first just when their requests
      fit the total together. */
  lemma SecondOfTwo(l: Limits, a: Instance, b: Instance)
    requires l.maxRunning == 2 && l.total > 0 && a.resources != NOTHING && b.resources != NOTHING
    requires a.state == Running && b.state != Running
    ensures AfterStart(l, map[1 := a, 2 := b], 2, false).1 ==
            if a.resources.memRequest + b.resources.memRequest > l.total then Some(OverMemory) else None
  {
    var none: Repo := map[];
    var repo := map[1 := a, 2 := b];
    StartOverMemory(l, repo, 2, false);
    hide RunningIn, Used;
    assert repo - {2} == none[1 := a] && none - {1} == none;
    OneMoreUses(none, 1, a, l.game);
    NothingRuns(l.game);
  }

  // ---- states ------------------------------------------------------------------

  /** A STOPPED WORLD NO LONGER COUNTS, and nothing else about it or the others changes. */
  lemma StopFrees(repo: Repo, n: int, game: GameId, fails: bool)
    ensures var (after, refused) := AfterStop(repo, n, fails);
            && (refused.None? <==> n in repo && !fails)
            && (refused.Some? ==> after == repo)
            && (refused.None? ==>
                  && after.Keys == repo.Keys && after[n] == repo[n].(state := Stopped)
                  && (forall k | k in repo && k != n :: after[k] == repo[k])
                  && RunningIn(after) == RunningIn(repo - {n}) && Used(after, game) == Used(repo - {n}, game))
  {
    hide RunningIn, Used;
    if n in repo {
      OneMoreUses(repo, n, repo[n].(state := Stopped), game);
    }
  }

  /** A START ONLY SETS THE STATE, and a running world is left alone. */
  lemma StartRuns(l: Limits, repo: Repo, n: int, fails: bool)
    ensures var (after, refused) := AfterStart(l, repo, n, fails);
            && (refused.Some? ==> after == repo) && (refused.None? ==> n in repo)
            && (refused.None? ==>
                  && after.Keys == repo.Keys && after[n] == repo[n].(state := Running)
                  && forall k | k in repo && k != n :: after[k] == repo[k])
            && (n in repo && repo[n].state == Running ==> refused.None? && after == repo)
  {
    hide Refused;
  }

  /** A DELETED NUMBER IS FREE AGAIN; a running world is not deleted. */
  lemma DeleteFrees(repo: Repo, n: int, fails: bool)
    ensures var (after, refused) := AfterDelete(repo, n, fails);
            && (refused.None? <==> n in repo && repo[n].state != Running && !fails)
            && (refused.Some? ==> after == repo)
            && (refused.None? ==>
                  n !in after && |after| == |repo| - 1 && forall k | k != n :: k in after <==> k in repo)
            && forall k | k in after :: k in repo && after[k] == repo[k]
    ensures n in repo && repo[n].state == Running ==> AfterDelete(repo, n, fails).1 == Some(StillRunning)
  {
    if n in repo {
      assert repo.Keys == (repo - {n}).Keys + {n};
      assert |repo| == |repo.Keys| && |repo - {n}| == |(repo - {n}).Keys|;
    }
  }

  /** AN ADOPTED DEPLOYMENT TAKES SLOT 1 when it is free, running just when it was found running, at the
      address it has. */
  lemma AdoptTakesFirst(repo: Repo, found: Option<InstanceState>, address: string)
    ensures var after := AfterAdopt(repo, found, address);
            && (after == repo <==> 1 in repo || found.None?)
            && (1 !in repo && found.Some? ==>
                  && after.Keys == repo.Keys + {1} && after[1].number == 1 && after[1].address == address
                  && (after[1].state == Running <==> found.value == Running)
                  && after[1].resources == NOTHING
                  && forall k | k in repo :: after[k] == repo[k])
  {
    if 1 !in repo && found.Some? {
      assert 1 in AfterAdopt(repo, found, address);
    }
  }

  /** A CREATED INSTANCE IS WHAT WAS ASKED FOR but for what was left open: its number, a medium tier, the
      stopped state and the address of its slot. */
  lemma CreatedAsAsked(l: Limits, repo: Repo, inst: Instance, s: Surroundings)
    ensures var (after, r) := AfterCreate(l, repo, inst, s);
            r.Ok? ==>
              && r.value.number in after && after[r.value.number] == r.value && r.value.number !in repo
              && (forall k | k in repo :: k in after && after[k] == repo[k])
              && (inst.number > 0 ==> r.value.number == inst.number)
              && r.value.resources == inst.resources
              && r.value.tier == (if inst.tier == NoTier then Medium else inst.tier)
              && r.value.state == (if inst.state == Unset then Stopped else inst.state)
              && (inst.address != "" ==> r.value.address == inst.address)
              && (inst.address == "" && r.value.number in s.addresses ==>
                  r.value.address == s.addresses[r.value.number])
  {
    hide LeastFree, AddressHeld, WithDefaults;
    DefaultsKeep(inst, SlotFor(l, repo, inst.number), s);
  }

  lemma DefaultsKeep(inst: Instance, n: int, s: Surroundings)
    ensures var made := WithDefaults(inst, n, s);
            && made.number == n && made.resources == inst.resources
            && made.tier == (if inst.tier == NoTier then Medium else inst.tier)
            && made.state == (if inst.state == Unset then Stopped else inst.state)
            && (inst.address != "" ==> made.address == inst.address)
            && (inst.address == "" && n in s.addresses ==> made.address == s.addresses[n])
  {
  }

  // ---- addresses ---------------------------------------------------------------

  /** No address is given out twice. */
  predicate DistinctAddresses(repo: Repo) {
    forall j, k | j in repo && k in repo && j != k :: repo[j].address == "" || repo[j].address != repo[k].address
  }

  lemma HeldMeans(repo: Repo, inst: Instance)
    requires Numbered(repo)
    ensures AddressHeld(repo, inst) <==>
            inst.address != "" && exists k :: k in repo && k != inst.number && repo[k].address == inst.address
  {
  }

  lemma PutAddress(repo: Repo, n: int, inst: Instance)
    requires DistinctAddresses(repo)
    requires forall k | k in repo && k != n :: inst.address == "" || repo[k].address != inst.address
    ensures DistinctAddresses(repo[n := inst])
  {
  }

  lemma SameAddress(repo: Repo, n: int, state: InstanceState)
    requires DistinctAddresses(repo) && n in repo
    ensures DistinctAddresses(repo[n := repo[n].(state := state)])
  {
  }

  lemma FewerAddresses(repo: Repo, n: int)
    requires DistinctAddresses(repo)
    ensures DistinctAddresses(repo - {n})
  {
  }

  /** An adoption does not bring an address that an instance has. */
  predicate NewAddress(repo: Repo, e: Event) {
    e.Adopt? ==> forall k | k in repo :: e.address == "" || repo[k].address != e.address
  }

  lemma EventKeepsAddresses(l: Limits, repo: Repo, e: Event)
    requires Numbered(repo) && DistinctAddresses(repo) && NewAddress(repo, e)
    ensures DistinctAddresses(Happen(l, repo, e))
  {
    hide DistinctAddresses, Refused, LeastFree, AddressHeld;
    match e
    case Create(inst, s) =>
      var made := WithDefaults(inst, SlotFor(l, repo, inst.number), s);
      HeldMeans(repo, made);
      if !AddressHeld(repo, made) {
        PutAddress(repo, made.number, made);
      }
    case Start(n, fails) => if n in repo { SameAddress(repo, n, Running); }
    case Stop(n, fails) => if n in repo { SameAddress(repo, n, Stopped); }
    case Delete(n, fails) => FewerAddresses(repo, n);
    case Adopt(found, address) =>
      if 1 !in repo && found.Some? {
        PutAddress(repo, 1, AfterAdopt(repo, found, address)[1]);
      }
  }

  /** IN EVERY RUN no two instances have one address, unless an adoption brought it. */
  lemma {:induction false} RunKeepsAddresses(l: Limits, events: seq<Event>)
    requires l.maxInstances > 0
    requires forall i | 0 <= i < |events| :: NewAddress(Run(l, events[..i]), events[i])
    ensures DistinctAddresses(Run(l, events))
  {
    if events != [] {
      var n := |events| - 1;
      hide Happen, DistinctAddresses, NewAddress, Run;
      forall i | 0 <= i < n ensures NewAddress(Run(l, events[..n][..i]), events[..n][i]) {
        assert events[..n][..i] == events[..i];
      }
      RunKeepsAddresses(l, events[..n]);
      RunKeepsSlots(l, events[..n]);
      RunLast(l, events);
      EventKeepsAddresses(l, Run(l, events[..n]), events[n]);
    } else {
      NothingRan(l);
    }
  }

  lemma NothingRan(l: Limits)
    ensures DistinctAddresses(Run(l, []))
  {
  }

  lemma RunLast(l: Limits, events: seq<Event>)
    requires events != []
    ensures Run(l, events) == Happen(l, Run(l, events[..|events| - 1]), events[|events| - 1])
  {
    hide Happen;
  }
}
