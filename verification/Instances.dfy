/** Slots and the start budget of one game's instances: internal/app/instances/manager.go,
    lines 256-281, 562-665 and 810-980, internal/app/instances/adoption.go,
    internal/domain/budget.go and internal/domain/resources.go. */
module Instances {
  import opened Sets
  import opened Wrappers

  datatype GameId = Minecraft | Valheim | GarrysMod

  datatype InstanceState = Unset | Running | Stopped | Provisioning | Error | Unknown

  datatype Tier = NoTier | Small | Medium | Large | OtherTier

  datatype Resources = Resources(memRequest: int, memLimit: int, cpuRequest: int, cpuLimit: int) {
    predicate IsZero() {
      memRequest == 0 && memLimit == 0 && cpuRequest == 0 && cpuLimit == 0
    }
  }

  /** The request of a game's tier when an instance carries no resources of its own. */
  function BuiltinRequest(game: GameId, tier: Tier): nat {
    match game
    case Minecraft => if tier == Small then 4 else if tier == Large then 12 else 8
    case Valheim => if tier == Small then 4 else if tier == Large then 8 else 6
    case GarrysMod => if tier == Small then 2 else if tier == Large then 8 else 4
  }

  datatype Instance = Instance(number: int, tier: Tier, resources: Resources, state: InstanceState, address: string) {
    function MemoryGiB(game: GameId): int {
      if resources.IsZero() then BuiltinRequest(game, tier) else resources.memRequest
    }
  }

  type Repo = map<int, Instance>

  // ---- what is running -------------------------------------------------------

  function RunningOf(inst: Instance): nat {
    if inst.state.Running? then 1 else 0
  }

  function UsedOf(inst: Instance, game: GameId): int {
    if inst.state.Running? then inst.MemoryGiB(game) else 0
  }

  function RunningCount(all: seq<Instance>): nat {
    if all == [] then 0 else RunningCount(all[..|all| - 1]) + RunningOf(all[|all| - 1])
  }

  function UsedGiB(all: seq<Instance>, game: GameId): int {
    if all == [] then 0 else UsedGiB(all[..|all| - 1], game) + UsedOf(all[|all| - 1], game)
  }

  /** How many instances of a repository are running. */
  ghost function RunningIn(repo: Repo): nat
    decreases |repo|
  {
    if repo.Keys == {} then 0
    else
      Inhabited(repo.Keys);
      var k :| k in repo;
      RunningOf(repo[k]) + RunningIn(repo - {k})
  }

  /** The memory the running instances of a repository request. */
  ghost function Used(repo: Repo, game: GameId): int
    decreases |repo|
  {
    if repo.Keys == {} then 0
    else
      Inhabited(repo.Keys);
      var k :| k in repo;
      UsedOf(repo[k], game) + Used(repo - {k}, game)
  }

  lemma FirstTaken(repo: Repo, game: GameId, n: int) returns (k: int, j: int)
    requires n in repo
    ensures k in repo && RunningIn(repo) == RunningOf(repo[k]) + RunningIn(repo - {k})
    ensures j in repo && Used(repo, game) == UsedOf(repo[j], game) + Used(repo - {j}, game)
  {
    hide RunningOf, UsedOf;
    k :| k in repo && RunningIn(repo) == RunningOf(repo[k]) + RunningIn(repo - {k});
    j :| j in repo && Used(repo, game) == UsedOf(repo[j], game) + Used(repo - {j}, game);
  }

  /** The sums do not depend on the order the instances are taken in. */
  lemma {:induction false} SumsWithout(repo: Repo, game: GameId, n: int)
    requires n in repo
    ensures RunningIn(repo) == RunningOf(repo[n]) + RunningIn(repo - {n})
    ensures Used(repo, game) == UsedOf(repo[n], game) + Used(repo - {n}, game)
    decreases |repo|, 1
  {
    hide *;
    var k, j := FirstTaken(repo, game, n);
    TakeTwo(repo, game, k, n);
    TakeTwo(repo, game, j, n);
  }

  lemma {:induction false} TakeTwo(repo: Repo, game: GameId, k: int, n: int)
    requires n in repo && k in repo
    ensures RunningOf(repo[k]) + RunningIn(repo - {k}) == RunningOf(repo[n]) + RunningIn(repo - {n})
    ensures UsedOf(repo[k], game) + Used(repo - {k}, game) == UsedOf(repo[n], game) + Used(repo - {n}, game)
    decreases |repo|, 0
  {
    hide *;
    if k != n {
      SumsWithout(repo - {k}, game, n);
      SumsWithout(repo - {n}, game, k);
      assert repo - {k} - {n} == repo - {n} - {k};
    }
  }

  datatype Budget = Budget(total: int, used: int, maxRunning: int, running: int, maxInstances: int, instances: int)

  method CalculateBudget(game: GameId, all: seq<Instance>, total: int, maxRunning: int, maxInstances: int)
    returns (b: Budget)
    ensures b == Budget(if total <= 0 then 24 else total, UsedGiB(all, game),
                        if maxRunning <= 0 then 2 else maxRunning, RunningCount(all),
                        if maxInstances <= 0 then 4 else maxInstances, |all|)
  {
    var used, running := 0, 0;
    for i := 0 to |all|
      invariant used == UsedGiB(all[..i], game) && running == RunningCount(all[..i])
    {
      assert all[..i + 1][..i] == all[..i];
      if all[i].state == Running {
        running := running + 1;
        used := used + all[i].MemoryGiB(game);
      }
    }
    assert all[..|all|] == all;
    return Budget(if total <= 0 then 24 else total, used,
                  if maxRunning <= 0 then 2 else maxRunning, running,
                  if maxInstances <= 0 then 4 else maxInstances, |all|);
  }

  datatype Refusal =
    | TooManyInstances | NumberTaken | BadNumber | AddressTaken | SlotElsewhere | StepFailed
    | NoSuchInstance | TooManyRunning | OverMemory | StillRunning

  function CanStart(b: Budget, memory: int): Option<Refusal> {
    if b.maxRunning > 0 && b.running >= b.maxRunning then Some(TooManyRunning)
    else if b.total > 0 && b.used + memory > b.total then Some(OverMemory)
    else None
  }

  // ---- slots -----------------------------------------------------------------

  /** The least number from n to max that is not taken, or 0. */
  function LeastFree(repo: Repo, n: nat, max: nat): (r: nat)
    requires n > 0
    ensures r == 0 ==> forall m | n <= m <= max :: m in repo
    ensures r != 0 ==> n <= r <= max && r !in repo && forall m | n <= m < r :: m in repo
    decreases max + 1 - n
  {
    if n > max then 0 else if n !in repo then n else LeastFree(repo, n + 1, max)
  }

  datatype Limits = Limits(game: GameId, total: nat, maxRunning: nat, maxInstances: nat)

  /** What surrounds a create: the address of each slot, the slots the repository of manifests
      holds already, and whether a later step (role, manifests, saving) fails. */
  datatype Surroundings = Surroundings(addresses: map<int, string>, elsewhere: set<int>, fails: bool)

  function SlotFor(l: Limits, repo: Repo, asked: int): int {
    if asked > 0 then asked
    else if LeastFree(repo, 1, l.maxInstances) > 0 then LeastFree(repo, 1, l.maxInstances)
    else asked
  }

  function WithDefaults(inst: Instance, n: int, s: Surroundings): Instance {
    inst.(number := n,
          tier := if inst.tier == NoTier then Medium else inst.tier,
          state := if inst.state == Unset then Stopped else inst.state,
          address := if inst.address == "" && n in s.addresses then s.addresses[n] else inst.address)
  }

  predicate AddressHeld(repo: Repo, inst: Instance) {
    inst.address != "" && exists k | k in repo :: repo[k].address == inst.address && repo[k].number != inst.number
  }

  function AfterCreate(l: Limits, repo: Repo, inst: Instance, s: Surroundings): (Repo, Result<Instance, Refusal>) {
    var n := SlotFor(l, repo, inst.number);
    var made := WithDefaults(inst, n, s);
    if |repo| >= l.maxInstances then (repo, Err(TooManyInstances))
    else if inst.number > 0 && inst.number in repo then (repo, Err(NumberTaken))
    else if n <= 0 || n > l.maxInstances then (repo, Err(BadNumber))
    else if AddressHeld(repo, made) then (repo, Err(AddressTaken))
    else if n in s.elsewhere then (repo, Err(SlotElsewhere))
    else if s.fails then (repo, Err(StepFailed))
    else (repo[n := made], Ok(made))
  }

  ghost function AfterStart(l: Limits, repo: Repo, n: int, fails: bool): (Repo, Option<Refusal>) {
    if n !in repo then (repo, Some(NoSuchInstance))
    else if repo[n].state == Running then (repo, None)
    else
      var refused := Refused(l, repo - {n}, repo[n].MemoryGiB(l.game));
      if refused.Some? then (repo, refused)
      else if fails then (repo, Some(StepFailed))
      else (repo[n := repo[n].(state := Running)], None)
  }

  /** Why nothing that needs the memory can start beside the others. */
  ghost function Refused(l: Limits, others: Repo, memory: int): Option<Refusal> {
    CanStart(Budget(l.total, Used(others, l.game), l.maxRunning, RunningIn(others), l.maxInstances, |others|), memory)
  }

  function AfterStop(repo: Repo, n: int, fails: bool): (Repo, Option<Refusal>) {
    if n !in repo then (repo, Some(NoSuchInstance))
    else if fails then (repo, Some(StepFailed))
    else (repo[n := repo[n].(state := Stopped)], None)
  }

  function AfterDelete(repo: Repo, n: int, fails: bool): (Repo, Option<Refusal>) {
    if n !in repo then (repo, Some(NoSuchInstance))
    else if repo[n].state == Running then (repo, Some(StillRunning))
    else if fails then (repo, Some(StepFailed))
    else (repo - {n}, None)
  }

  /** A legacy deployment found in the runtime takes slot 1 when it is free. */
  function AfterAdopt(repo: Repo, found: Option<InstanceState>, address: string): Repo {
    if 1 in repo || found.None? then repo
    else
      var state := if found.value == Running then Running else Stopped;
      repo[1 := Instance(1, Medium, Resources(0, 0, 0, 0), state, address)]
  }

  /** The list holds every recorded instance once. */
  ghost predicate Lists(all: seq<Instance>, repo: Repo) {
    |all| == |repo|
    && (forall i | 0 <= i < |all| :: all[i].number in repo && repo[all[i].number] == all[i])
    && forall i, j | 0 <= i < j < |all| :: all[i].number != all[j].number
  }

  /** Every instance is recorded under its number. */
  predicate Numbered(repo: Repo) {
    forall k | k in repo :: repo[k].number == k
  }

  class InstanceManager {
    const limits: Limits
    var repo: Repo

    /** Settings that are not positive fall back to the defaults. */
    constructor (game: GameId, total: int, maxInstances: int, maxRunning: int)
      ensures repo == map[]
      ensures limits == Limits(game, if total <= 0 then 24 else total, if maxRunning <= 0 then 2 else maxRunning,
                               if maxInstances <= 0 then 4 else maxInstances)
    {
      limits := Limits(game, if total <= 0 then 24 else total, if maxRunning <= 0 then 2 else maxRunning,
                       if maxInstances <= 0 then 4 else maxInstances);
      repo := map[];
    }

    /** repo.List, in some order. */
    method List() returns (all: seq<Instance>)
      requires Numbered(repo)
      ensures Lists(all, repo)
    {
      all := [];
      var rest := repo.Keys;
      while rest != {}
        invariant rest <= repo.Keys && |all| + |rest| == |repo.Keys|
        invariant forall i | 0 <= i < |all| :: all[i].number in repo.Keys - rest && repo[all[i].number] == all[i]
        invariant forall i, j | 0 <= i < j < |all| :: all[i].number != all[j].number
        decreases |rest|
      {
        Inhabited(rest);
        var k :| k in rest;
        all := all + [repo[k]];
        rest := rest - {k};
      }
      assert |repo.Keys| == |repo|;
    }

    method Numbers(all: seq<Instance>) returns (used: set<int>)
      requires Lists(all, repo) && Numbered(repo)
      ensures used == repo.Keys
    {
      used := {};
      for i := 0 to |all|
        invariant forall n :: n in used <==> exists j :: 0 <= j < i && all[j].number == n
      {
        used := used + {all[i].number};
      }
      UsedNumbers(all, repo, used);
    }

    /** checkLBIPFree: another instance holds the address. */
    method AddressTakenBy(made: Instance) returns (held: bool)
      requires Numbered(repo)
      ensures held == AddressHeld(repo, made)
    {
      if made.address == "" {
        return false;
      }
      var all := List();
      for i := 0 to |all|
        invariant forall j | 0 <= j < i :: !(all[j].address == made.address && all[j].number != made.number)
      {
        if all[i].address == made.address && all[i].number != made.number {
          return true;
        }
      }
      EveryListed(all, repo);
      return false;
    }

    method CreateInstance(inst: Instance, s: Surroundings) returns (r: Result<Instance, Refusal>)
      requires Numbered(repo) && limits.maxInstances > 0
      modifies this`repo
      ensures (repo, r) == AfterCreate(limits, old(repo), inst, s)
      ensures Numbered(repo)
    {
      var existing := List();
      var budget := CalculateBudget(limits.game, existing, limits.total, limits.maxRunning, limits.maxInstances);
      if budget.instances >= budget.maxInstances {
        return Err(TooManyInstances);
      }
      var used := Numbers(existing);
      var number := inst.number;
      if number <= 0 {
        var n := 1;
        while n <= limits.maxInstances && n in used
          invariant 1 <= n <= limits.maxInstances + 1
          invariant LeastFree(repo, 1, limits.maxInstances) == LeastFree(repo, n, limits.maxInstances)
        {
          n := n + 1;
        }
        if n <= limits.maxInstances {
          number := n;
        }
      } else if number in used {
        return Err(NumberTaken);
      }
      if number <= 0 || number > limits.maxInstances {
        return Err(BadNumber);
      }
      var made := WithDefaults(inst, number, s);
      var held := AddressTakenBy(made);
      if held {
        return Err(AddressTaken);
      }
      if number in s.elsewhere {
        return Err(SlotElsewhere);
      }
      if s.fails {
        return Err(StepFailed);
      }
      repo := repo[number := made];
      return Ok(made);
    }

    /** The instances but one, as StartInstance filters them. */
    method Others(n: int) returns (others: seq<Instance>)
      requires Numbered(repo)
      ensures Lists(others, repo - {n})
    {
      others := [];
      var rest := repo.Keys - {n};
      while rest != {}
        invariant rest <= repo.Keys - {n} && |others| + |rest| == |repo.Keys - {n}|
        invariant forall i | 0 <= i < |others| ::
                    others[i].number in repo.Keys - {n} - rest && repo[others[i].number] == others[i]
        invariant forall i, j | 0 <= i < j < |others| :: others[i].number != others[j].number
        decreases |rest|
      {
        Inhabited(rest);
        var k :| k in rest;
        others := others + [repo[k]];
        rest := rest - {k};
      }
      assert (repo - {n}).Keys == repo.Keys - {n};
    }

    method StartInstance(n: int, fails: bool) returns (refused: Option<Refusal>)
      requires Numbered(repo) && limits.total > 0 && limits.maxRunning > 0 && limits.maxInstances > 0
      modifies this`repo
      ensures (repo, refused) == AfterStart(limits, old(repo), n, fails)
      ensures Numbered(repo)
    {
      hide Used, RunningIn, UsedGiB, RunningCount, Lists;
      if n !in repo {
        return Some(NoSuchInstance);
      }
      if repo[n].state == Running {
        return None;
      }
      var others := Others(n);
      ListSums(others, repo - {n}, limits.game);
      ListLength(others, repo - {n});
      var budget := CalculateBudget(limits.game, others, limits.total, limits.maxRunning, limits.maxInstances);
      refused := CanStart(budget, repo[n].MemoryGiB(limits.game));
      if refused.Some? {
        return;
      }
      if fails {
        return Some(StepFailed);
      }
      repo := repo[n := repo[n].(state := Running)];
    }

    method StopInstance(n: int, fails: bool) returns (refused: Option<Refusal>)
      requires Numbered(repo)
      modifies this`repo
      ensures (repo, refused) == AfterStop(old(repo), n, fails)
      ensures Numbered(repo)
    {
      if n !in repo {
        return Some(NoSuchInstance);
      }
      if fails {
        return Some(StepFailed);
      }
      repo := repo[n := repo[n].(state := Stopped)];
      return None;
    }

    method DeleteInstance(n: int, fails: bool) returns (refused: Option<Refusal>)
      requires Numbered(repo)
      modifies this`repo
      ensures (repo, refused) == AfterDelete(old(repo), n, fails)
      ensures Numbered(repo)
    {
      if n !in repo {
        return Some(NoSuchInstance);
      }
      if repo[n].state == Running {
        return Some(StillRunning);
      }
      if fails {
        return Some(StepFailed);
      }
      repo := repo - {n};
      return None;
    }

    method AdoptLegacyValheim(found: Option<InstanceState>, address: string)
      requires Numbered(repo)
      modifies this`repo
      ensures repo == AfterAdopt(old(repo), found, address)
      ensures Numbered(repo)
    {
      if 1 in repo {
        return;
      }
      if found.None? {
        return;
      }
      var state := Stopped;
      if found.value == Running {
        state := Running;
      }
      repo := repo[1 := Instance(1, Medium, Resources(0, 0, 0, 0), state, address)];
    }
  }

  lemma EveryListed(all: seq<Instance>, repo: Repo)
    requires Lists(all, repo) && Numbered(repo)
    ensures forall k | k in repo :: repo[k] in all
  {
    var numbers := set i | 0 <= i < |all| :: all[i].number;
    NumbersCount(all);
    SubsetSize(numbers, repo.Keys);
    forall k | k in repo ensures repo[k] in all {
      assert k in numbers;
      var i :| 0 <= i < |all| && all[i].number == k;
      assert repo[k] == all[i];
    }
  }

  lemma {:induction false} NumbersCount(all: seq<Instance>)
    requires forall i, j | 0 <= i < j < |all| :: all[i].number != all[j].number
    ensures |set i | 0 <= i < |all| :: all[i].number| == |all|
  {
    var numbers := set i | 0 <= i < |all| :: all[i].number;
    if all != [] {
      var n := |all| - 1;
      var before := all[..n];
      NumbersCount(before);
      var fewer := set i | 0 <= i < |before| :: before[i].number;
      assert forall i | 0 <= i < n :: before[i] == all[i];
      assert numbers == fewer + {all[n].number};
    }
  }

  lemma UsedNumbers(all: seq<Instance>, repo: Repo, used: set<int>)
    requires Lists(all, repo) && Numbered(repo)
    requires forall n :: n in used <==> exists j :: 0 <= j < |all| && all[j].number == n
    ensures used == repo.Keys
  {
    EveryListed(all, repo);
    forall k | k in repo ensures k in used {
      assert repo[k] in all;
      var j :| 0 <= j < |all| && all[j] == repo[k];
      assert all[j].number == k;
    }
    forall k | k in used ensures k in repo {
      var j :| 0 <= j < |all| && all[j].number == k;
    }
  }

  lemma ListLength(all: seq<Instance>, repo: Repo)
    requires Lists(all, repo)
    ensures |all| == |repo|
  {
  }

  /** A list's sums are its repository's. */
  lemma {:induction false} ListSums(all: seq<Instance>, repo: Repo, game: GameId)
    requires Lists(all, repo)
    ensures RunningCount(all) == RunningIn(repo) && UsedGiB(all, game) == Used(repo, game)
  {
    hide RunningOf, UsedOf;
    if all == [] {
      assert repo == map[];
    } else {
      var n := |all| - 1;
      var k := all[n].number;
      assert (repo - {k}).Keys == repo.Keys - {k};
      assert |(repo - {k}).Keys| == |repo.Keys| - 1;
      ListSums(all[..n], repo - {k}, game);
      SumsWithout(repo, game, k);
    }
  }
}
