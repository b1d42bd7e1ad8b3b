/** Which updates an apply writes, by the keys it is given: internal/app/modupdates/checker.go,
    lines 472-566. */
module UpdateAnswers {
  import opened Text
  import opened Wrappers
  import opened ModRefs
  import opened ModLists
  import opened Updates
  import opened UpdateLaws
  import UndoLaws

  /** The caller asked for this update: by its mod's key, or for all of them with no key. */
  predicate AskedFor(u: Update, keys: seq<string>) {
    keys == [] || exists i :: 0 <= i < |keys| && keys[i] == u.ref.Key()
  }

  /** chosen are the entries of all at the given places, in their order. */
  ghost predicate Picks(chosen: seq<Update>, all: seq<Update>, at: seq<nat>) {
    && |at| == |chosen|
    && (forall i | 0 <= i < |at| :: at[i] < |all| && chosen[i] == all[at[i]])
    && forall i, j | 0 <= i < j < |at| :: at[i] < at[j]
  }

  /** chosen are exactly the updates asked for, each once, in the order of the report. */
  ghost predicate AnswersExactly(chosen: seq<Update>, all: seq<Update>, keys: seq<string>, at: seq<nat>) {
    Picks(chosen, all, at) && forall j | 0 <= j < |all| :: AskedFor(all[j], keys) <==> j in at
  }

  lemma AnswerNext(chosen: seq<Update>, all: seq<Update>, keys: seq<string>, at: seq<nat>, u: Update)
    requires AnswersExactly(chosen, all, keys, at)
    ensures if AskedFor(u, keys) then AnswersExactly(chosen + [u], all + [u], keys, at + [|all|])
            else AnswersExactly(chosen, all + [u], keys, at)
  {
    hide AskedFor;
    var more := all + [u];
    if AskedFor(u, keys) {
      var next := at + [|all|];
      forall j | 0 <= j < |more| ensures AskedFor(more[j], keys) <==> j in next {
        assert j in next <==> j in at || j == |all|;
        assert j < |all| ==> more[j] == all[j];
      }
    } else {
      assert |all| !in at;
      forall j | 0 <= j < |more| ensures AskedFor(more[j], keys) <==> j in at {
        assert j < |all| ==> more[j] == all[j];
      }
    }
  }

  lemma {:induction false} TargetsAnswer(all: seq<Update>, keys: seq<string>) returns (at: seq<nat>)
    ensures AnswersExactly(Targets(all, keys), all, keys, at)
  {
    hide AnswersExactly;
    if all == [] {
      at := [];
      NothingAnswered(keys);
    } else {
      var n := |all| - 1;
      var before := TargetsAnswer(all[..n], keys);
      AnswerNext(Targets(all[..n], keys), all[..n], keys, before, all[n]);
      assert all[..n] + [all[n]] == all;
      at := if AskedFor(all[n], keys) then before + [n] else before;
      assert AskedFor(all[n], keys) <==> keys == [] || all[n].ref.Key() in keys;
    }
  }

  lemma NothingAnswered(keys: seq<string>)
    ensures AnswersExactly([], [], keys, [])
  {
  }

  /** The updates an apply chooses from: the last report's, or those of a refresh. */
  function Reported(s: State, check: Option<seq<Update>>): seq<Update> {
    if |s.report| > 0 then s.report else match check case Some(us) => us case None => []
  }

  /** EXACTLY THE UPDATES ASKED FOR are written, in the order of the report, when the list changes;
      and an apply is refused for want of a choice just when there are updates and none was asked for. */
  lemma AppliedAsAsked(s: State, keys: seq<string>, check: Option<seq<Update>>, trees: Trees,
                       game: Game) returns (at: seq<nat>)
    ensures var (after, r) := AfterApply(s, keys, check, trees, game);
            var all := Reported(s, check);
            && (r.Ok? && r.value != [] ==> AnswersExactly(r.value, all, keys, at))
            && (after.text != s.text ==> r.Ok? && r.value != [])
            && (r == Err(NoneSelected) <==> all != [] && forall u | u in all :: !AskedFor(u, keys))
            && (r == Err(CheckFailed) <==> s.report == [] && check.None?)
  {
    hide *;
    ApplyCases(s, keys, check, trees, game);
    ReportedIs(s, check);
    var all := Reported(s, check);
    at := TargetsAnswer(all, keys);
    AnsweredNone(Targets(all, keys), all, keys, at);
  }

  lemma ReportedIs(s: State, check: Option<seq<Update>>)
    ensures Reported(s, check) == if s.report != [] then s.report else if check.Some? then check.value else []
  {
  }

  lemma AnsweredNone(chosen: seq<Update>, all: seq<Update>, keys: seq<string>, at: seq<nat>)
    requires AnswersExactly(chosen, all, keys, at)
    ensures chosen == [] <==> forall u | u in all :: !AskedFor(u, keys)
  {
    hide AskedFor;
    if chosen == [] {
      forall u | u in all ensures !AskedFor(u, keys) {
        var j :| 0 <= j < |all| && all[j] == u;
        assert j !in at;
      }
    } else {
      assert at[0] in at && all[at[0]] in all;
    }
  }

  /** No tree of an update that is written offers the mod. */
  ghost predicate Unoffered(k: string, chosen: seq<Update>, trees: Trees, game: Game) {
    forall u, e | u in chosen && u.ref in trees && e in trees[u.ref] ::
      ParseModRef(e, game).Some? ==> ParseModRef(e, game).value.Key() != k
  }

  lemma {:induction false} NoOffer(k: string, entries: seq<string>, game: Game)
    requires forall e | e in entries :: ParseModRef(e, game).Some? ==> ParseModRef(e, game).value.Key() != k
    ensures Offers(k, entries, game) == []
  {
    hide ParseModRef;
    if entries != [] {
      assert forall e | e in entries[..|entries| - 1] :: e in entries;
      NoOffer(k, entries[..|entries| - 1], game);
      assert entries[|entries| - 1] in entries;
    }
  }

  lemma {:induction false} NoOffers(k: string, chosen: seq<Update>, trees: Trees, game: Game)
    requires Unoffered(k, chosen, trees, game)
    ensures AllOffers(k, chosen, trees, game) == []
  {
    hide ParseModRef, Offers;
    if chosen != [] {
      var n := |chosen| - 1;
      assert forall u | u in chosen[..n] :: u in chosen;
      NoOffers(k, chosen[..n], trees, game);
      assert chosen[n] in chosen;
      NoOffer(k, TreeOf(trees, chosen[n].ref), game);
    }
  }

  /** WHAT WAS NOT ASKED FOR STAYS: a mod whose key is not among the keys, and that no written update's tree
      offers, keeps the reference of its last entry. */
  lemma UnaskedStays(s: State, keys: seq<string>, check: Option<seq<Update>>, trees: Trees, k: string, game: Game)
    requires keys != [] && k !in keys
    requires var (_, r) := AfterApply(s, keys, check, trees, game);
             r.Ok? && r.value != [] && Unoffered(k, r.value, trees, game)
    ensures var (_, r) := AfterApply(s, keys, check, trees, game);
            var u := UpdateAll(EnterAll(Installed(s.text), game), r.value, trees, game);
            u.Ok? && At(u.value, k) == LastEntry(k, Installed(s.text), game)
  {
    hide *;
    var (after, r) := AfterApply(s, keys, check, trees, game);
    var at := AppliedAsAsked(s, keys, check, trees, game);
    UndoLaws.ApplyLeaves(s, keys, check, trees, game);
    var previous := Installed(s.text);
    RewrittenCases(previous, r.value, trees, game);
    NoTargetAsked(r.value, Reported(s, check), keys, at, k);
    OthersTakeTheBest(EnterAll(previous, game), r.value, trees, k, game);
    Entered(previous, game);
    NoOffers(k, r.value, trees, game);
    NothingBetter(At(EnterAll(previous, game), k));
  }

  lemma NothingBetter(cur: Option<ModRef>)
    ensures Best(cur, []) == cur
  {
  }

  lemma NoTargetAsked(chosen: seq<Update>, all: seq<Update>, keys: seq<string>, at: seq<nat>, k: string)
    requires AnswersExactly(chosen, all, keys, at) && keys != [] && k !in keys
    ensures !IsTarget(k, chosen)
  {
    forall i | 0 <= i < |chosen| ensures chosen[i].ref.Key() != k {
      assert at[i] in at && AskedFor(all[at[i]], keys);
    }
  }

  // ---- what is left to do --------------------------------------------------------

  /** THE REPORT KEEPS THE OTHER UPDATES, in their order: those of mods none of which was written. */
  lemma {:induction false} ForgottenInOrder(report: seq<Update>, done: seq<Update>) returns (at: seq<nat>)
    ensures Picks(Forgotten(report, done), report, at)
    ensures forall j | 0 <= j < |report| ::
              j in at <==> forall d | d in done :: d.ref.Key() != report[j].ref.Key()
  {
    if report == [] {
      at := [];
    } else {
      var n := |report| - 1;
      var before := ForgottenInOrder(report[..n], done);
      var u := report[n];
      assert report[..n] + [u] == report;
      at := if exists d | d in done :: d.ref.Key() == u.ref.Key() then before else before + [n];
      PicksNext(Forgotten(report[..n], done), report[..n], before, u);
      forall j | 0 <= j < |report|
        ensures j in at <==> forall d | d in done :: d.ref.Key() != report[j].ref.Key()
      {
        assert j < n ==> report[..n][j] == report[j];
        assert j in before + [n] <==> j in before || j == n;
      }
    }
  }

  lemma PicksNext(chosen: seq<Update>, all: seq<Update>, at: seq<nat>, u: Update)
    requires Picks(chosen, all, at)
    ensures Picks(chosen, all + [u], at) && Picks(chosen + [u], all + [u], at + [|all|])
    ensures |all| !in at
  {
  }

  /** WHAT IS WAITED FOR after an update is every entry it wrote, from the moment it did; an update that writes
      nothing leaves what was waited for. */
  lemma WaitsForWritten(was: Option<Waiting>, s: State, keys: seq<string>, check: Option<seq<Update>>, trees: Trees,
                        game: Game, now: int)
    ensures var (after, r) := AfterApply(s, keys, check, trees, game);
            var waiting := WaitingAfter(was, s, r, trees, game, now);
            if r.Ok? && r.value != [] then
              && waiting.Some? && waiting.value.at == now && Rewritten(Installed(s.text), r.value, trees, game).Ok?
              && forall e :: e in waiting.value.want <==> e in Rewritten(Installed(s.text), r.value, trees, game).value
            else waiting == was
  {
    hide *;
    UndoLaws.ApplyLeaves(s, keys, check, trees, game);
    WaitingIs(was, s, AfterApply(s, keys, check, trees, game).1, trees, game, now);
  }

  lemma WaitingIs(was: Option<Waiting>, s: State, r: Result<seq<Update>, ApplyError>, trees: Trees, game: Game,
                  now: int)
    ensures var waiting := WaitingAfter(was, s, r, trees, game, now);
            && (r.Err? || r.value == [] ==> waiting == was)
            && (r.Ok? && r.value != [] && Rewritten(Installed(s.text), r.value, trees, game).Ok? ==>
                  && waiting.Some? && waiting.value.at == now
                  && forall e :: e in waiting.value.want <==>
                     e in Rewritten(Installed(s.text), r.value, trees, game).value)
  {
    hide Rewritten, Installed;
  }
}
