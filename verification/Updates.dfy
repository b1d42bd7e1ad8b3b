/** Updating the mods of one instance and undoing it: internal/app/modupdates/checker.go,
    lines 450-622, internal/domain/mod.go, lines 352-379, and internal/infra/store/restore.go. */
module Updates {
  import opened Text
  import opened Wrappers
  import opened ModRefs
  import opened ModLists
  import opened Versions

  /** An installed mod the catalogue has a newer version of. */
  datatype Update = Update(ref: ModRef, current: string, latest: string)

  // ---- the list being rewritten ----------------------------------------------

  /** The keys in the order they are written, and the reference of each. */
  datatype Tree = Tree(order: seq<string>, byKey: map<string, ModRef>)

  function At(t: Tree, k: string): Option<ModRef> {
    if k in t.byKey then Some(t.byKey[k]) else None
  }

  /** byKey[k] as Go reads it: the zero reference when there is none. */
  function RefOf(t: Tree, k: string): ModRef {
    if k in t.byKey then t.byKey[k] else ModRef("", "", "")
  }

  /** One entry of the list as it was: the last entry of a mod counts, in the first one's place. */
  function Enter(t: Tree, entry: string, game: Game): Tree {
    var r := ParseModRef(entry, game);
    if r.None? then t
    else
      var k := r.value.Key();
      Tree(if k in t.byKey then t.order else t.order + [k], t.byKey[k := r.value])
  }

  function EnterAll(entries: seq<string>, game: Game): Tree {
    if entries == [] then Tree([], map[])
    else Enter(EnterAll(entries[..|entries| - 1], game), entries[|entries| - 1], game)
  }

  /** One entry of a target's resolved tree. */
  function Offer(t: Tree, target: Update, entry: string, game: Game): Tree {
    var r := ParseModRef(entry, game);
    if r.None? || r.value.ver == "" then t
    else
      var k := r.value.Key();
      if k !in t.byKey then Tree(t.order + [k], t.byKey[k := r.value])
      else if k == target.ref.Key() || Newer(r.value.ver, t.byKey[k].ver) then Tree(t.order, t.byKey[k := r.value])
      else t
  }

  function OfferAll(t: Tree, target: Update, entries: seq<string>, game: Game): Tree {
    if entries == [] then t
    else Offer(OfferAll(t, target, entries[..|entries| - 1], game), target, entries[|entries| - 1], game)
  }

  /** The target itself ends at its latest version. */
  function Pin(t: Tree, target: Update): Tree {
    var k := target.ref.Key();
    var cur := RefOf(t, k);
    if cur.ver == target.latest then t else Tree(t.order, t.byKey[k := cur.(ver := target.latest)])
  }

  function UpdateOne(t: Tree, target: Update, resolved: seq<string>, game: Game): Tree {
    Pin(OfferAll(t, target, resolved, game), target)
  }

  /** What the catalogue resolves a mod to; a mod it lacks cannot be resolved. */
  type Trees = map<ModRef, seq<string>>

  function UpdateAll(t: Tree, targets: seq<Update>, trees: Trees, game: Game): Result<Tree, ModRef> {
    if targets == [] then Ok(t)
    else
      var before := UpdateAll(t, targets[..|targets| - 1], trees, game);
      var last := targets[|targets| - 1];
      if before.Err? then before
      else if last.ref !in trees then Err(last.ref)
      else Ok(UpdateOne(before.value, last, trees[last.ref], game))
  }

  /** The new entries, in order. */
  function Written(t: Tree): (out: seq<string>)
    ensures |out| == |t.order|
    ensures forall i | 0 <= i < |t.order| :: out[i] == RefOf(t, t.order[i]).Entry()
  {
    seq(|t.order|, i requires 0 <= i < |t.order| => RefOf(t, t.order[i]).Entry())
  }

  /** The list an update writes. */
  function Rewritten(previous: seq<string>, targets: seq<Update>, trees: Trees,
                     game: Game): Result<seq<string>, ModRef> {
    var t := UpdateAll(EnterAll(previous, game), targets, trees, game);
    if t.Err? then Err(t.error) else Ok(Written(t.value))
  }

  // ---- restore points --------------------------------------------------------

  /** The row a restore point is kept in. */
  datatype SavedPoint = SavedPoint(previous: string, applied: string)

  datatype RestorePoint = RestorePoint(previous: seq<string>, applied: seq<string>)

  function SplitRestore(s: string): seq<string> {
    if s == "" then [] else Split(s, '\n')
  }

  function PointOf(row: SavedPoint): RestorePoint {
    RestorePoint(SplitRestore(row.previous), SplitRestore(row.applied))
  }

  function TrimAll(entries: seq<string>): (r: seq<string>)
    ensures |r| == |entries|
    ensures forall i | 0 <= i < |entries| :: r[i] == Trim(entries[i])
  {
    seq(|entries|, i requires 0 <= i < |entries| => Trim(entries[i]))
  }

  function Times(have: map<string, nat>, e: string): nat {
    if e in have then have[e] else 0
  }

  /** have counts the entries. */
  ghost predicate Counts(have: map<string, nat>, entries: multiset<string>) {
    forall e :: entries[e] == Times(have, e)
  }

  /** ModRestorePoint.Matches: exactly the same entries, in any order. */
  method Matches(applied: seq<string>, entries: seq<string>) returns (same: bool)
    ensures same <==> multiset(TrimAll(entries)) == multiset(TrimAll(applied))
  {
    hide *;
    ghost var es, ap := TrimAll(entries), TrimAll(applied);
    if |entries| != |applied| {
      Different(es, ap);
      return false;
    }
    var have: map<string, nat> := map[];
    NoneCounted();
    for i := 0 to |entries|
      invariant Counts(have, multiset(es[..i]))
    {
      OneMore(es, i);
      CountUp(have, multiset(es[..i]), es[i]);
      have := have[Trim(entries[i]) := Times(have, Trim(entries[i])) + 1];
    }
    assert es[..|es|] == es;
    ghost var rest := multiset(es);
    for i := 0 to |applied|
      invariant Counts(have, rest) && rest + multiset(ap[..i]) == multiset(es)
    {
      var e := Trim(applied[i]);
      CountIs(have, rest, e);
      OneMore(ap, i);
      if Times(have, e) == 0 {
        TooFew(es, ap, i, rest);
        return false;
      }
      CountDown(have, rest, e);
      OneLess(multiset(es), multiset(ap[..i]), rest, e);
      rest := rest - multiset{e};
      have := have[e := have[e] - 1];
    }
    assert ap[..|ap|] == ap;
    AllUsed(multiset(es), multiset(ap), rest);
    return true;
  }

  lemma NoneCounted()
    ensures Counts(map[], multiset{})
  {
  }

  lemma CountIs(have: map<string, nat>, m: multiset<string>, e: string)
    requires Counts(have, m)
    ensures m[e] == Times(have, e)
    ensures Times(have, e) > 0 ==> e in have && have[e] == Times(have, e)
  {
  }

  lemma OneLess(all: multiset<string>, m: multiset<string>, rest: multiset<string>, e: string)
    requires rest + m == all && rest[e] > 0
    ensures (rest - multiset{e}) + (m + multiset{e}) == all
  {
  }

  lemma Different(a: seq<string>, b: seq<string>)
    requires |a| != |b|
    ensures multiset(a) != multiset(b)
  {
    assert |multiset(a)| == |a| && |multiset(b)| == |b|;
  }

  lemma OneMore(s: seq<string>, i: nat)
    requires i < |s|
    ensures multiset(s[..i + 1]) == multiset(s[..i]) + multiset{s[i]}
  {
    assert s[..i + 1] == s[..i] + [s[i]];
  }

  lemma CountUp(have: map<string, nat>, m: multiset<string>, e: string)
    requires Counts(have, m)
    ensures Counts(have[e := Times(have, e) + 1], m + multiset{e})
  {
  }

  lemma CountDown(have: map<string, nat>, m: multiset<string>, e: string)
    requires Counts(have, m) && Times(have, e) > 0
    ensures e in have && Counts(have[e := have[e] - 1], m - multiset{e})
  {
  }

  lemma TooFew(es: seq<string>, ap: seq<string>, i: nat, rest: multiset<string>)
    requires i < |ap| && rest + multiset(ap[..i]) == multiset(es) && rest[ap[i]] == 0
    ensures multiset(es) != multiset(ap)
  {
    OneMore(ap, i);
    assert ap == ap[..i + 1] + ap[i + 1..];
    assert multiset(ap)[ap[i]] > multiset(es)[ap[i]];
  }

  lemma AllUsed(es: multiset<string>, ap: multiset<string>, rest: multiset<string>)
    requires rest + ap == es && |ap| == |es|
    ensures es == ap
  {
    assert |rest| == 0;
  }

  // ---- Apply and Undo --------------------------------------------------------

  datatype ApplyError = CheckFailed | NoneSelected | CannotResolve(ref: ModRef)

  /** The last report's updates; a refresh answers when there are none, or fails. */
  function Available(report: seq<Update>, check: Option<seq<Update>>): seq<Update> {
    if report != [] then report else if check.Some? then check.value else []
  }

  function Targets(available: seq<Update>, keys: seq<string>): seq<Update> {
    if available == [] then []
    else
      var before, u := Targets(available[..|available| - 1], keys), available[|available| - 1];
      if keys == [] || u.ref.Key() in keys then before + [u] else before
  }

  /** The updates that are left once some were written. */
  function Forgotten(report: seq<Update>, done: seq<Update>): seq<Update> {
    if report == [] then []
    else
      var before, u := Forgotten(report[..|report| - 1], done), report[|report| - 1];
      if exists d | d in done :: d.ref.Key() == u.ref.Key() then before else before + [u]
  }

  /** What the checker keeps of one instance, and its mods.txt. */
  datatype State = State(text: string, report: seq<Update>, saved: Option<SavedPoint>)

  /** Apply, as the state it leaves and what it answers. */
  function AfterApply(s: State, keys: seq<string>, check: Option<seq<Update>>, trees: Trees, game: Game)
    : (State, Result<seq<Update>, ApplyError>)
  {
    var available := Available(s.report, check);
    var targets := Targets(available, keys);
    var checked := s.(report := available);
    if s.report == [] && check.None? then (checked, Err(CheckFailed))
    else if available == [] then (checked, Ok([]))
    else if targets == [] then (checked, Err(NoneSelected))
    else
      var out := Rewritten(Installed(s.text), targets, trees, game);
      if out.Err? then (checked, Err(CannotResolve(out.error)))
      else
        var text := Unlines(Stored(out.value));
        var left := Forgotten(available, targets);
        if text == s.text then (checked.(report := left), Ok([]))
        else (State(text, left, Some(SavedPoint(Join(Installed(s.text), "\n"), Join(out.value, "\n")))), Ok(targets))
  }

  ghost predicate Untouched(row: SavedPoint, text: string) {
    multiset(TrimAll(Installed(text))) == multiset(TrimAll(PointOf(row).applied))
  }

  /** Undo, as the state it leaves and the point it went back to, if any. */
  ghost function AfterUndo(s: State, check: Option<seq<Update>>): (State, Option<RestorePoint>) {
    if s.saved.None? then (s, None)
    else if !Untouched(s.saved.value, s.text) then (s.(saved := None), None)
    else
      var p := PointOf(s.saved.value);
      (State(Unlines(Stored(p.previous)), Available([], check), None), Some(p))
  }

  /** Written entries that wait until the world reports them, and since when, in seconds. */
  datatype Waiting = Waiting(want: set<string>, at: int)

  const PENDING_TTL := 360

  function Wanted(entries: seq<string>): set<string> {
    set e | e in entries
  }

  lemma WantedMeans(want: set<string>, entries: seq<string>)
    ensures want <= Wanted(entries) <==> forall e | e in want :: e in entries
  {
    assert forall e :: e in Wanted(entries) <==> e in entries;
  }

  /** What waits after an update: the entries it wrote, if it changed the list. */
  function WaitingAfter(was: Option<Waiting>, s: State, r: Result<seq<Update>, ApplyError>, trees: Trees, game: Game,
                        now: int): Option<Waiting> {
    if r.Err? || r.value == [] then was
    else
      var out := Rewritten(Installed(s.text), r.value, trees, game);
      if out.Err? then was else Some(Waiting(Wanted(out.value), now))
  }

  /** The modupdates.Checker of one instance. */
  class Checker {
    const mods: ModsFile
    var report: seq<Update>
    var saved: Option<SavedPoint>
    var waiting: Option<Waiting>

    constructor (mods: ModsFile)
      ensures this.mods == mods && report == [] && saved == None && waiting == None
    {
      this.mods := mods;
      report, saved, waiting := [], None, None;
    }

    ghost function Now(): State
      reads this, mods
    {
      State(mods.text, report, saved)
    }

    method Selected(keys: seq<string>) returns (targets: seq<Update>)
      ensures targets == Targets(report, keys)
    {
      targets := [];
      for i := 0 to |report|
        invariant targets == Targets(report[..i], keys)
      {
        assert report[..i + 1][..i] == report[..i];
        if |keys| == 0 || report[i].ref.Key() in keys {
          targets := targets + [report[i]];
        }
      }
      assert report[..|report|] == report;
    }

    /** The rewritten list: every installed mod in its place, then what the updates drag in. */
    method Rewrite(previous: seq<string>, targets: seq<Update>, trees: Trees) returns (r: Result<seq<string>, ModRef>)
      ensures r == Rewritten(previous, targets, trees, mods.game)
    {
      hide *;
      RewrittenCases(previous, targets, trees, mods.game);
      var order: seq<string>, byKey: map<string, ModRef> := [], map[];
      NothingEntered(mods.game);
      for i := 0 to |previous|
        invariant Tree(order, byKey) == EnterAll(previous[..i], mods.game)
      {
        EnterStep(previous, i, mods.game);
        EnterCases(Tree(order, byKey), previous[i], mods.game);
        var ref := ParseModRef(previous[i], mods.game);
        if ref.Some? {
          if ref.value.Key() !in byKey {
            order := order + [ref.value.Key()];
          }
          byKey := byKey[ref.value.Key() := ref.value];
        }
      }
      assert previous[..|previous|] == previous;
      ghost var start := Tree(order, byKey);
      NothingUpdated(start, targets, trees, mods.game);
      for i := 0 to |targets|
        invariant UpdateAll(start, targets[..i], trees, mods.game) == Ok(Tree(order, byKey))
      {
        UpdateStep(start, targets, i, Tree(order, byKey), trees, mods.game);
        if targets[i].ref !in trees {
          UnresolvedEarly(start, targets, i + 1, targets[i].ref, trees, mods.game);
          return Err(targets[i].ref);
        }
        var resolved := trees[targets[i].ref];
        ghost var before := Tree(order, byKey);
        NothingOffered(before, targets[i], mods.game);
        for j := 0 to |resolved|
          invariant Tree(order, byKey) == OfferAll(before, targets[i], resolved[..j], mods.game)
        {
          OfferStep(before, targets[i], resolved, j, mods.game);
          OfferCases(Tree(order, byKey), targets[i], resolved[j], mods.game);
          var ref := ParseModRef(resolved[j], mods.game);
          if ref.Some? && ref.value.ver != "" {
            var k := ref.value.Key();
            if k !in byKey {
              order := order + [k];
              byKey := byKey[k := ref.value];
            } else if k == targets[i].ref.Key() {
              byKey := byKey[k := ref.value];
            } else {
              var newer := VersionNewer(ref.value.ver, byKey[k].ver);
              if newer {
                byKey := byKey[k := ref.value];
              }
            }
          }
        }
        assert resolved[..|resolved|] == resolved;
        PinCases(Tree(order, byKey), targets[i]);
        OneUpdate(before, targets[i], resolved, mods.game);
        var cur := RefOf(Tree(order, byKey), targets[i].ref.Key());
        if cur.ver != targets[i].latest {
          byKey := byKey[targets[i].ref.Key() := cur.(ver := targets[i].latest)];
        }
      }
      assert targets[..|targets|] == targets;
      var out: seq<string> := [];
      WrittenAt(Tree(order, byKey));
      for i := 0 to |order|
        invariant out == Written(Tree(order, byKey))[..i]
      {
        out := out + [RefOf(Tree(order, byKey), order[i]).Entry()];
      }
      assert out == Written(Tree(order, byKey));
      return Ok(out);
    }

    method Forget(done: seq<Update>)
      modifies this`report
      ensures report == Forgotten(old(report), done)
    {
      var kept: seq<Update> := [];
      for i := 0 to |report|
        invariant report == old(report)
        invariant kept == Forgotten(report[..i], done)
      {
        assert report[..i + 1][..i] == report[..i];
        if !exists d | d in done :: d.ref.Key() == report[i].ref.Key() {
          kept := kept + [report[i]];
        }
      }
      assert report[..|report|] == report;
      report := kept;
    }

    /** Repins the chosen mods and rewrites the list; keys == [] chooses every update. */
    method Apply(keys: seq<string>, check: Option<seq<Update>>, trees: Trees,
                 now: int) returns (r: Result<seq<Update>, ApplyError>)
      modifies this, mods
      ensures (Now(), r) == AfterApply(old(Now()), keys, check, trees, mods.game)
      ensures waiting == WaitingAfter(old(waiting), old(Now()), r, trees, mods.game, now)
    {
      hide AfterApply, AfterUndo, Available, Targets, Forgotten, Rewritten, Installed, Stored, Unlines, Join, Split,
        Untouched, PointOf;
      ApplyCases(Now(), keys, check, trees, mods.game);
      if report == [] {
        if check.None? {
          return Err(CheckFailed);
        }
        report := check.value;
      }
      if report == [] {
        return Ok([]);
      }
      var targets := Selected(keys);
      if targets == [] {
        return Err(NoneSelected);
      }
      var previous := mods.GetInstalledMods();
      var out := Rewrite(previous, targets, trees);
      if out.Err? {
        return Err(CannotResolve(out.error));
      }
      var changed := mods.ReplaceMods(out.value);
      Forget(targets);
      if !changed {
        return Ok([]);
      }
      waiting := Some(Waiting(Wanted(out.value), now));
      saved := Some(SavedPoint(Join(previous, "\n"), Join(out.value, "\n")));
      return Ok(targets);
    }

    /** Pending: whether what was written is still waiting; a mark that is reported or too old goes. */
    method Pending(now: int) returns (still: bool)
      modifies this`waiting
      ensures still <==> old(waiting).Some? && now - old(waiting).value.at <= PENDING_TTL
                         && exists e :: e in old(waiting).value.want && e !in Installed(mods.text)
      ensures waiting == if still then old(waiting) else None
    {
      hide *;
      if waiting.None? {
        return false;
      }
      if now - waiting.value.at > PENDING_TTL {
        waiting := None;
        return false;
      }
      var entries := mods.GetInstalledMods();
      WantedMeans(waiting.value.want, entries);
      if !(waiting.value.want <= Wanted(entries)) {
        return true;
      }
      waiting := None;
      return false;
    }

    /** The restore point while it is safe to use; a stale one is cleared. */
    method RestoreAvailable() returns (p: Option<RestorePoint>)
      modifies this`saved
      ensures p == if old(saved).Some? && Untouched(old(saved).value, mods.text) then Some(PointOf(old(saved).value))
              else None
      ensures saved == if p.Some? then old(saved) else None
    {
      if saved.None? {
        return None;
      }
      var point := PointOf(saved.value);
      var entries := mods.GetInstalledMods();
      var same := Matches(point.applied, entries);
      if !same {
        saved := None;
        return None;
      }
      return Some(point);
    }

    /** One step back; None is the refusal. */
    method Undo(check: Option<seq<Update>>, now: int) returns (p: Option<RestorePoint>)
      modifies this, mods
      ensures (Now(), p) == AfterUndo(old(Now()), check)
      ensures waiting == if mods.text != old(mods.text) then Some(Waiting(Wanted(p.value.previous), now))
              else old(waiting)
    {
      hide AfterApply, AfterUndo, Available, Targets, Forgotten, Rewritten, Installed, Stored, Unlines, Join, Split,
        Untouched, PointOf;
      UndoCases(Now(), check);
      p := RestoreAvailable();
      if p.None? {
        return None;
      }
      var changed := mods.ReplaceMods(p.value.previous);
      if changed {
        waiting := Some(Waiting(Wanted(p.value.previous), now));
      }
      saved := None;
      report := if check.Some? then check.value else [];
    }
  }

  // ---- unfolding, for the methods --------------------------------------------

  lemma RewrittenCases(previous: seq<string>, targets: seq<Update>, trees: Trees, game: Game)
    ensures var t := UpdateAll(EnterAll(previous, game), targets, trees, game);
            Rewritten(previous, targets, trees, game) == if t.Err? then Err(t.error) else Ok(Written(t.value))
  {
    hide UpdateAll, EnterAll, Written;
  }

  lemma NothingEntered(game: Game)
    ensures EnterAll([], game) == Tree([], map[])
  {
  }

  lemma EnterStep(entries: seq<string>, i: nat, game: Game)
    requires i < |entries|
    ensures EnterAll(entries[..i + 1], game) == Enter(EnterAll(entries[..i], game), entries[i], game)
  {
    hide Enter;
    assert entries[..i + 1][..i] == entries[..i];
  }

  lemma EnterCases(t: Tree, entry: string, game: Game)
    ensures var r := ParseModRef(entry, game);
            Enter(t, entry, game) ==
            if r.None? then t
            else Tree(if r.value.Key() in t.byKey then t.order else t.order + [r.value.Key()],
                      t.byKey[r.value.Key() := r.value])
  {
    hide ParseModRef;
  }

  lemma NothingUpdated(t: Tree, targets: seq<Update>, trees: Trees, game: Game)
    ensures UpdateAll(t, targets[..0], trees, game) == Ok(t)
  {
  }

  lemma UpdateStep(start: Tree, targets: seq<Update>, i: nat, t: Tree, trees: Trees, game: Game)
    requires i < |targets| && UpdateAll(start, targets[..i], trees, game) == Ok(t)
    ensures UpdateAll(start, targets[..i + 1], trees, game) ==
            if targets[i].ref !in trees then Err(targets[i].ref)
            else Ok(UpdateOne(t, targets[i], trees[targets[i].ref], game))
  {
    hide UpdateOne;
    assert targets[..i + 1][..i] == targets[..i];
  }

  lemma {:induction false} UnresolvedEarly(start: Tree, targets: seq<Update>, i: nat, e: ModRef, trees: Trees,
                                           game: Game)
    requires i <= |targets| && UpdateAll(start, targets[..i], trees, game) == Err(e)
    ensures UpdateAll(start, targets, trees, game) == Err(e)
    decreases |targets|
  {
    hide UpdateOne;
    if i < |targets| {
      var n := |targets| - 1;
      assert targets[..n][..i] == targets[..i];
      UnresolvedEarly(start, targets[..n], i, e, trees, game);
    } else {
      assert targets[..i] == targets;
    }
  }

  lemma NothingOffered(t: Tree, target: Update, game: Game)
    ensures OfferAll(t, target, [], game) == t
  {
  }

  lemma OfferStep(t: Tree, target: Update, entries: seq<string>, i: nat, game: Game)
    requires i < |entries|
    ensures OfferAll(t, target, entries[..i + 1], game) ==
            Offer(OfferAll(t, target, entries[..i], game), target, entries[i], game)
  {
    hide Offer;
    assert entries[..i + 1][..i] == entries[..i];
  }

  lemma OfferCases(t: Tree, target: Update, entry: string, game: Game)
    ensures var r := ParseModRef(entry, game);
            Offer(t, target, entry, game) ==
            if r.None? || r.value.ver == "" then t
            else
              var k := r.value.Key();
              if k !in t.byKey then Tree(t.order + [k], t.byKey[k := r.value])
              else if k == target.ref.Key() || Newer(r.value.ver, t.byKey[k].ver) then
                Tree(t.order, t.byKey[k := r.value])
              else t
  {
    hide ParseModRef, Newer;
  }

  lemma PinCases(t: Tree, target: Update)
    ensures var k := target.ref.Key();
            var cur := RefOf(t, k);
            Pin(t, target) ==
            if cur.ver == target.latest then t else Tree(t.order, t.byKey[k := cur.(ver := target.latest)])
  {
    hide RefOf;
  }

  lemma OneUpdate(t: Tree, target: Update, resolved: seq<string>, game: Game)
    ensures UpdateOne(t, target, resolved, game) == Pin(OfferAll(t, target, resolved, game), target)
  {
  }

  lemma WrittenAt(t: Tree)
    ensures |Written(t)| == |t.order|
    ensures forall i | 0 <= i < |t.order| :: Written(t)[i] == RefOf(t, t.order[i]).Entry()
  {
  }

  lemma ApplyCases(s: State, keys: seq<string>, check: Option<seq<Update>>, trees: Trees, game: Game)
    ensures var available := if s.report != [] then s.report else if check.Some? then check.value else [];
            var targets := Targets(available, keys);
            var checked := s.(report := available);
            AfterApply(s, keys, check, trees, game) ==
            if s.report == [] && check.None? then (checked, Err(CheckFailed))
            else if available == [] then (checked, Ok([]))
            else if targets == [] then (checked, Err(NoneSelected))
            else
              var out := Rewritten(Installed(s.text), targets, trees, game);
              if out.Err? then (checked, Err(CannotResolve(out.error)))
              else
                var text := Unlines(Stored(out.value));
                var left := Forgotten(available, targets);
                if text == s.text then (checked.(report := left), Ok([]))
                else (State(text, left, Some(SavedPoint(Join(Installed(s.text), "\n"), Join(out.value, "\n")))),
                      Ok(targets))
  {
    hide Targets, Rewritten, Installed, Unlines, Stored, Forgotten, Join;
  }

  lemma UndoCases(s: State, check: Option<seq<Update>>)
    ensures AfterUndo(s, check) ==
            if s.saved.None? then (s, None)
            else if !Untouched(s.saved.value, s.text) then (s.(saved := None), None)
            else
              var p := PointOf(s.saved.value);
              (State(Unlines(Stored(p.previous)), if check.Some? then check.value else [], None), Some(p))
  {
    hide Untouched, PointOf, Unlines, Stored;
  }
}
