/** What every run of creates, starts, stops, deletes and adoptions keeps:
    internal/app/instances/manager.go, lines 562-665 and 810-980, and adoption.go. */
module InstanceLaws {
  import opened Sets
  import opened Wrappers
  import opened Instances

  datatype Event =
    | Create(inst: Instance, surroundings: Surroundings)
    | Start(n: int, fails: bool)
    | Stop(n: int, fails: bool)
    | Delete(n: int, fails: bool)
    | Adopt(found: Option<InstanceState>, address: string)

  ghost function Happen(l: Limits, repo: Repo, e: Event): Repo {
    match e
    case Create(inst, s) => AfterCreate(l, repo, inst, s).0
    case Start(n, fails) => AfterStart(l, repo, n, fails).0
    case Stop(n, fails) => AfterStop(repo, n, fails).0
    case Delete(n, fails) => AfterDelete(repo, n, fails).0
    case Adopt(found, address) => AfterAdopt(repo, found, address)
  }

  /** The repository after a run from an empty one. */
  ghost function Run(l: Limits, events: seq<Event>): Repo {
    if events == [] then map[] else Happen(l, Run(l, events[..|events| - 1]), events[|events| - 1])
  }

  // ---- slots -----------------------------------------------------------------

  /** Every instance is recorded under its own number, from 1 to max. */
  predicate InSlots(repo: Repo, max: nat) {
    Numbered(repo) && forall k | k in repo :: 1 <= k <= max
  }

  lemma PutInSlots(repo: Repo, max: nat, n: int, inst: Instance)
    requires InSlots(repo, max) && 1 <= n <= max && inst.number == n
    ensures InSlots(repo[n := inst], max)
  {
  }

  lemma LessInSlots(repo: Repo, max: nat, n: int)
    requires InSlots(repo, max)
    ensures InSlots(repo - {n}, max)
    ensures n in repo ==> 1 <= n <= max && repo[n].number == n
  {
  }

  lemma EventKeepsSlots(l: Limits, repo: Repo, e: Event)
    requires InSlots(repo, l.maxInstances) && l.maxInstances > 0
    ensures InSlots(Happen(l, repo, e), l.maxInstances)
  {
    hide InSlots, SlotFor, AddressHeld, Refused;
    match e
    case Create(inst, s) =>
      var n := SlotFor(l, repo, inst.number);
      if 1 <= n <= l.maxInstances {
        PutInSlots(repo, l.maxInstances, n, WithDefaults(inst, n, s));
      }
    case Start(n, fails) =>
      LessInSlots(repo, l.maxInstances, n);
      if n in repo {
        PutInSlots(repo, l.maxInstances, n, repo[n].(state := Running));
      }
    case Stop(n, fails) =>
      LessInSlots(repo, l.maxInstances, n);
      if n in repo {
        PutInSlots(repo, l.maxInstances, n, repo[n].(state := Stopped));
      }
    case Delete(n, fails) =>
      LessInSlots(repo, l.maxInstances, n);
    case Adopt(found, address) =>
      if 1 !in repo && found.Some? {
        PutInSlots(repo, l.maxInstances, 1, AfterAdopt(repo, found, address)[1]);
      }
  }

  /** IN EVERY RUN instance numbers are distinct and from 1 to the limit. */
  lemma {:induction false} RunKeepsSlots(l: Limits, events: seq<Event>)
    requires l.maxInstances > 0
    ensures InSlots(Run(l, events), l.maxInstances) && |Run(l, events)| <= l.maxInstances
  {
    if events != [] {
      hide Happen, InSlots;
      RunKeepsSlots(l, events[..|events| - 1]);
      EventKeepsSlots(l, Run(l, events[..|events| - 1]), events[|events| - 1]);
    }
    AtMostSlots(Run(l, events), l.maxInstances);
  }

  lemma {:induction false} SlotsCount(max: nat) returns (slots: set<int>)
    ensures forall n :: n in slots <==> 1 <= n <= max
    ensures |slots| == max
  {
    if max == 0 {
      slots := {};
    } else {
      slots := SlotsCount(max - 1);
      slots := slots + {max};
    }
  }

  lemma AtMostSlots(repo: Repo, max: nat)
    requires InSlots(repo, max)
    ensures |repo| <= max
  {
    var slots := SlotsCount(max);
    assert forall k | k in repo.Keys :: k in slots;
    SubsetSize(repo.Keys, slots);
    assert |repo| == |repo.Keys|;
  }

  /** The pigeonhole: below the limit some slot is free. */
  lemma SlotIsFree(repo: Repo, max: nat)
    requires InSlots(repo, max) && |repo| < max
    ensures LeastFree(repo, 1, max) != 0
  {
    hide LeastFree;
    var slots := SlotsCount(max);
    assert |repo| == |repo.Keys|;
    assert LeastFree(repo, 1, max) == 0 ==> forall m | m in slots :: m in repo.Keys;
    if slots <= repo.Keys {
      SubsetSize(slots, repo.Keys);
    }
  }

  /** AN UNNUMBERED CREATE, EXACTLY. It is refused for want of a slot only at the limit; it takes
      the least free slot; and a refused create leaves the repository as it was. */
  lemma CreateTakesLeastSlot(l: Limits, repo: Repo, inst: Instance, s: Surroundings)
    requires InSlots(repo, l.maxInstances) && inst.number <= 0
    ensures var (after, r) := AfterCreate(l, repo, inst, s);
            var n := LeastFree(repo, 1, l.maxInstances);
            && (r == Err(TooManyInstances) <==> |repo| >= l.maxInstances)
            && r != Err(BadNumber) && r != Err(NumberTaken)
            && (r.Ok? <==> |repo| < l.maxInstances && !AddressHeld(repo, WithDefaults(inst, n, s))
                           && n !in s.elsewhere && !s.fails)
            && if r.Ok? then
                 && r.value.number == n && 1 <= n <= l.maxInstances && n !in repo
                 && (forall m | 1 <= m < n :: m in repo)
                 && after == repo[n := r.value]
               else after == repo
  {
    hide LeastFree, AddressHeld, InSlots;
    if |repo| < l.maxInstances {
      SlotIsFree(repo, l.maxInstances);
    }
  }

  // ---- the budget ------------------------------------------------------------

  /** What is running fits the limits. */
  ghost predicate Within(l: Limits, repo: Repo) {
    RunningIn(repo) <= l.maxRunning && Used(repo, l.game) <= l.total
  }

  lemma SumsWith(repo: Repo, game: GameId, n: int, inst: Instance)
    ensures RunningIn(repo[n := inst]) == RunningOf(inst) + RunningIn(repo - {n})
    ensures Used(repo[n := inst], game) == UsedOf(inst, game) + Used(repo - {n}, game)
  {
    hide RunningIn, Used, RunningOf, UsedOf;
    SumsWithout(repo[n := inst], game, n);
    assert repo[n := inst] - {n} == repo - {n};
  }

  lemma SumsOf(inst: Instance, game: GameId)
    ensures RunningOf(inst) == if inst.state == Running then 1 else 0
    ensures UsedOf(inst, game) == if inst.state == Running then inst.MemoryGiB(game) else 0
  {
  }

  /** THE BUDGET CHECK IS EXACT: putting an instance beside others that fit keeps the budget just
      when it is not running or the check lets it start. */
  lemma PutKeepsBudget(l: Limits, repo: Repo, n: int, inst: Instance)
    requires l.total > 0 && l.maxRunning > 0 && Within(l, repo - {n})
    ensures Within(l, repo[n := inst]) <==>
            inst.state != Running || Refused(l, repo - {n}, inst.MemoryGiB(l.game)).None?
  {
    hide RunningIn, Used, RunningOf, UsedOf;
    SumsWith(repo, l.game, n, inst);
    SumsOf(inst, l.game);
  }

  /** No instance requests negative memory. */
  predicate Fair(repo: Repo, game: GameId) {
    forall k | k in repo :: repo[k].MemoryGiB(game) >= 0
  }

  lemma OthersFit(l: Limits, repo: Repo, n: int)
    requires Within(l, repo) && Fair(repo, l.game)
    ensures Within(l, repo - {n})
  {
    hide RunningIn, Used;
    if n in repo {
      SumsWithout(repo, l.game, n);
    } else {
      assert repo - {n} == repo;
    }
  }

  /** A START, EXACTLY. It is refused just when running the instance would break the budget (or a
      later step fails), and then nothing changes. */
  lemma StartKeepsBudget(l: Limits, repo: Repo, n: int, fails: bool)
    requires l.total > 0 && l.maxRunning > 0 && Within(l, repo) && Fair(repo, l.game)
    requires n in repo && repo[n].state != Running
    ensures var (after, refused) := AfterStart(l, repo, n, fails);
            && (refused.None? <==> Within(l, repo[n := repo[n].(state := Running)]) && !fails)
            && after == (if refused.None? then repo[n := repo[n].(state := Running)] else repo)
            && Within(l, after)
  {
    hide Within, Fair, Refused;
    OthersFit(l, repo, n);
    PutKeepsBudget(l, repo, n, repo[n].(state := Running));
    SameMemory(repo[n], l.game);
  }

  lemma SameMemory(inst: Instance, game: GameId)
    ensures inst.(state := Running).MemoryGiB(game) == inst.MemoryGiB(game)
  {
  }

  /** AN ADOPTION KEEPS THE BUDGET just when the legacy deployment is stopped or would be let
      start: nothing checks it. */
  lemma AdoptionKeepsBudget(l: Limits, repo: Repo, found: InstanceState, address: string)
    requires l.total > 0 && l.maxRunning > 0 && Within(l, repo) && Fair(repo, l.game) && 1 !in repo
    ensures Within(l, AfterAdopt(repo, Some(found), address)) <==>
            found != Running || Refused(l, repo, BuiltinRequest(l.game, Medium)).None?
  {
    hide Within, Fair, Refused;
    var inst := Instance(1, Medium, Resources(0, 0, 0, 0), if found == Running then Running else Stopped, address);
    assert repo - {1} == repo;
    PutKeepsBudget(l, repo, 1, inst);
  }

  /** SUCH ADOPTIONS EXIST: two running worlds fill a limit of two, within any memory that holds them, and
      a running legacy deployment is adopted as the third. */
  lemma AdoptionBreaksBudget(l: Limits, a: Instance, b: Instance, address: string)
    requires l.maxRunning == 2 && a.state == Running && b.state == Running
    requires 0 <= a.MemoryGiB(l.game) && 0 <= b.MemoryGiB(l.game)
             && a.MemoryGiB(l.game) + b.MemoryGiB(l.game) <= l.total
    requires l.total > 0
    ensures var repo := map[2 := a, 3 := b];
            && Within(l, repo) && Fair(repo, l.game)
            && RunningIn(AfterAdopt(repo, Some(Running), address)) == 3
               && !Within(l, AfterAdopt(repo, Some(Running), address))
  {
    hide RunningIn, Used, RunningOf, UsedOf;
    var none: Repo := map[];
    var one := none[2 := a];
    var repo := one[3 := b];
    assert repo == map[2 := a, 3 := b];
    NothingRuns(l.game);
    SumsOf(a, l.game);
    SumsOf(b, l.game);
    SumsWith(none, l.game, 2, a);
    SumsWith(one, l.game, 3, b);
    assert one - {3} == one && none - {2} == none;
    var inst := Instance(1, Medium, Resources(0, 0, 0, 0), Running, address);
    SumsWith(repo, l.game, 1, inst);
    SumsOf(inst, l.game);
    assert repo - {1} == repo;
  }

  lemma NothingRuns(game: GameId)
    ensures RunningIn(map[]) == 0 && Used(map[], game) == 0
  {
  }

  /** What the budget rests on: instances are created stopped, with no negative request, and the
      budget is not checked when one is adopted. */
  predicate Budgeted(l: Limits, e: Event) {
    match e
    case Create(inst, _) => inst.state != Running && (inst.resources.IsZero() || inst.resources.memRequest >= 0)
    case Adopt(found, _) => found.None? || found.value != Running
    case _ => true
  }

  lemma PutFair(repo: Repo, game: GameId, n: int, inst: Instance)
    requires Fair(repo, game) && inst.MemoryGiB(game) >= 0
    ensures Fair(repo[n := inst], game)
  {
  }

  lemma EventKeepsBudget(l: Limits, repo: Repo, e: Event)
    requires l.total > 0 && l.maxRunning > 0 && Within(l, repo) && Fair(repo, l.game) && Budgeted(l, e)
    ensures Within(l, Happen(l, repo, e)) && Fair(Happen(l, repo, e), l.game)
  {
    hide Within, Fair, Refused, AddressHeld, SlotFor;
    match e
    case Create(inst, s) =>
      var n := SlotFor(l, repo, inst.number);
      var made := WithDefaults(inst, n, s);
      OthersFit(l, repo, n);
      PutKeepsBudget(l, repo, n, made);
      PutFair(repo, l.game, n, made);
    case Start(n, fails) =>
      if n in repo && repo[n].state != Running {
        StartKeepsBudget(l, repo, n, fails);
        FairAt(repo, l.game, n);
        PutFair(repo, l.game, n, repo[n].(state := Running));
      }
    case Stop(n, fails) =>
      if n in repo {
        OthersFit(l, repo, n);
        PutKeepsBudget(l, repo, n, repo[n].(state := Stopped));
        FairAt(repo, l.game, n);
        PutFair(repo, l.game, n, repo[n].(state := Stopped));
      }
    case Delete(n, fails) =>
      OthersFit(l, repo, n);
      FairWithout(repo, l.game, n);
    case Adopt(found, address) =>
      if found.Some? && 1 !in repo {
        AdoptionKeepsBudget(l, repo, found.value, address);
        PutFair(repo, l.game, 1, AfterAdopt(repo, found, address)[1]);
      }
  }

  lemma FairAt(repo: Repo, game: GameId, n: int)
    requires Fair(repo, game) && n in repo
    ensures repo[n].MemoryGiB(game) >= 0
  {
  }

  lemma FairWithout(repo: Repo, game: GameId, n: int)
    requires Fair(repo, game)
    ensures Fair(repo - {n}, game)
  {
  }

  /** IN EVERY RUN of creates (stopped), starts, stops, deletes and adoptions of stopped
      deployments, no more run than the limit and they fit the memory budget. */
  lemma {:induction false} RunKeepsBudget(l: Limits, events: seq<Event>)
    requires l.total > 0 && l.maxRunning > 0
    requires forall e | e in events :: Budgeted(l, e)
    ensures Within(l, Run(l, events)) && Fair(Run(l, events), l.game)
  {
    if events != [] {
      hide Happen, Within, Fair, Budgeted;
      var n := |events| - 1;
      assert forall e | e in events[..n] :: e in events;
      RunKeepsBudget(l, events[..n]);
      assert events[n] in events;
      EventKeepsBudget(l, Run(l, events[..n]), events[n]);
    }
  }
}
