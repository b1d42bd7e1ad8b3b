/** Which installed mods have an update: internal/app/modupdates/checker.go, lines 251-345 and 450-466. */
module Reports {
  import opened Text
  import opened Wrappers
  import opened ModRefs
  import opened Versions
  import opened Updates
  import Order
  import UpdateLaws

  /** What the catalogue says about a mod. */
  datatype Answer = NotPublished | LookupFailed | Latest(version: string)

  type Catalogue = map<ModRef, Answer>

  datatype Report = Report(total: nat, checked: nat, updates: seq<Update>, missing: seq<ModRef>,
                           unreachable: seq<ModRef>)

  function Ask(answers: Catalogue, r: ModRef): Answer {
    if r in answers then answers[r] else LookupFailed
  }

  /** The entries that are asked about: on Valheim only those with a namespace. */
  function Asked(entry: string, game: Game): Option<ModRef> {
    var r := ParseModRef(entry, game);
    if r.Some? && game == Valheim && r.value.ns == "" then None else r
  }

  function Refs(entries: seq<string>, game: Game): seq<ModRef> {
    if entries == [] then []
    else
      var before, r := Refs(entries[..|entries| - 1], game), Asked(entries[|entries| - 1], game);
      if r.Some? then before + [r.value] else before
  }

  function Current(r: ModRef): string {
    if r.ver == "" then "(unpinned)" else r.ver
  }

  /** The update of a mod, when the catalogue has a newer version of it. */
  function UpdateOf(r: ModRef, answers: Catalogue, game: Game): Option<Update> {
    match Ask(answers, r)
    case Latest(v) =>
      if v == "" || (game == Valheim && r.ver == "") || !Newer(v, Current(r)) then None
      else Some(Update(r, Current(r), v))
    case _ => None
  }

  function Counted(rep: Report, r: ModRef, answers: Catalogue, game: Game): Report {
    match Ask(answers, r)
    case NotPublished => rep.(missing := rep.missing + [r])
    case LookupFailed => rep.(unreachable := rep.unreachable + [r])
    case Latest(_) =>
      var u := UpdateOf(r, answers, game);
      rep.(checked := rep.checked + 1, updates := if u.Some? then rep.updates + [u.value] else rep.updates)
  }

  function ReportOf(refs: seq<ModRef>, total: nat, answers: Catalogue, game: Game): Report {
    if refs == [] then Report(total, 0, [], [], [])
    else Counted(ReportOf(refs[..|refs| - 1], total, answers, game), refs[|refs| - 1], answers, game)
  }

  predicate RefLess(a: ModRef, b: ModRef) {
    Order.Less(a.Key(), b.Key())
  }

  predicate UpdateLess(a: Update, b: Update) {
    RefLess(a.ref, b.ref)
  }

  lemma KeysOrder()
    ensures Order.Orders(RefLess) && Order.Orders(UpdateLess)
  {
    Order.LessOrders();
    hide Order.Less;
  }

  lemma SortedUpdates(us: seq<Update>)
    requires Order.InOrder(us, UpdateLess)
    ensures forall i, j | 0 <= i < j < |us| :: !Order.Less(us[j].ref.Key(), us[i].ref.Key())
  {
    hide Order.Less;
    assert forall i, j | 0 <= i < j < |us| :: !UpdateLess(us[j], us[i]);
  }

  lemma SortedRefs(rs: seq<ModRef>)
    requires Order.InOrder(rs, RefLess)
    ensures forall i, j | 0 <= i < j < |rs| :: !Order.Less(rs[j].Key(), rs[i].Key())
  {
    hide Order.Less;
    assert forall i, j | 0 <= i < j < |rs| :: !RefLess(rs[j], rs[i]);
  }

  /** The same report with its lists sorted by key. */
  ghost predicate Sorts(rep: Report, unsorted: Report) {
    && rep.total == unsorted.total && rep.checked == unsorted.checked
    && multiset(rep.updates) == multiset(unsorted.updates)
    && multiset(rep.missing) == multiset(unsorted.missing)
    && multiset(rep.unreachable) == multiset(unsorted.unreachable)
    && (forall i, j | 0 <= i < j < |rep.updates| :: !Order.Less(rep.updates[j].ref.Key(), rep.updates[i].ref.Key()))
    && (forall i, j | 0 <= i < j < |rep.missing| :: !Order.Less(rep.missing[j].Key(), rep.missing[i].Key()))
    && forall i, j | 0 <= i < j < |rep.unreachable| :: !Order.Less(rep.unreachable[j].Key(), rep.unreachable[i].Key())
  }

  /** managed: the world is vanilla or its mods come with its pack, and nothing is reported. */
  method Compute(managed: bool, entries: seq<string>, answers: Catalogue, game: Game) returns (rep: Report)
    ensures managed ==> rep == Report(0, 0, [], [], [])
    ensures !managed ==> Sorts(rep, ReportOf(Refs(entries, game), |Refs(entries, game)|, answers, game))
  {
    hide Order.InOrder, Order.Orders, Current, Refs, ReportOf, UpdateOf, Ask;
    if managed {
      return Report(0, 0, [], [], []);
    }
    var refs := Listed(entries, game);
    rep := Report(|refs|, 0, [], [], []);
    NothingReported(|refs|, answers, game);
    for i := 0 to |refs|
      invariant rep == ReportOf(refs[..i], |refs|, answers, game)
    {
      ReportStep(refs, i, |refs|, answers, game);
      CountedCases(rep, refs[i], answers, game);
      var r := refs[i];
      match Ask(answers, r)
      case NotPublished => rep := rep.(missing := rep.missing + [r]);
      case LookupFailed => rep := rep.(unreachable := rep.unreachable + [r]);
      case Latest(latest) =>
        rep := rep.(checked := rep.checked + 1);
        if latest != "" && !(game == Valheim && r.ver == "") {
          var newer := VersionNewer(latest, Current(r));
          if newer {
            rep := rep.(updates := rep.updates + [Update(r, Current(r), latest)]);
          }
        }
    }
    assert refs[..|refs|] == refs;
    KeysOrder();
    var updates := Order.SortBy(rep.updates, UpdateLess);
    var missing := Order.SortBy(rep.missing, RefLess);
    var unreachable := Order.SortBy(rep.unreachable, RefLess);
    SortedUpdates(updates);
    SortedRefs(missing);
    SortedRefs(unreachable);
    rep := rep.(updates := updates, missing := missing, unreachable := unreachable);
  }

  method Listed(entries: seq<string>, game: Game) returns (refs: seq<ModRef>)
    ensures refs == Refs(entries, game)
  {
    hide ParseModRef;
    refs := [];
    for i := 0 to |entries|
      invariant refs == Refs(entries[..i], game)
    {
      assert entries[..i + 1][..i] == entries[..i];
      var r := ParseModRef(entries[i], game);
      if r.Some? && !(game == Valheim && r.value.ns == "") {
        refs := refs + [r.value];
      }
    }
    assert entries[..|entries|] == entries;
  }

  lemma NothingReported(total: nat, answers: Catalogue, game: Game)
    ensures ReportOf([], total, answers, game) == Report(total, 0, [], [], [])
  {
  }

  lemma CountedCases(rep: Report, r: ModRef, answers: Catalogue, game: Game)
    ensures Counted(rep, r, answers, game) ==
            match Ask(answers, r)
            case NotPublished => rep.(missing := rep.missing + [r])
            case LookupFailed => rep.(unreachable := rep.unreachable + [r])
            case Latest(v) =>
              if v == "" || (game == Valheim && r.ver == "") || !Newer(v, Current(r)) then
                rep.(checked := rep.checked + 1)
              else rep.(checked := rep.checked + 1, updates := rep.updates + [Update(r, Current(r), v)])
  {
    hide Newer, Current, Ask;
  }

  lemma ReportStep(refs: seq<ModRef>, i: nat, total: nat, answers: Catalogue, game: Game)
    requires i < |refs|
    ensures ReportOf(refs[..i + 1], total, answers, game) ==
            Counted(ReportOf(refs[..i], total, answers, game), refs[i], answers, game)
  {
    hide Counted;
    assert refs[..i + 1][..i] == refs[..i];
  }

  /** EVERY MOD IS ACCOUNTED FOR ONCE: checked, missing or unreachable; and the updates are exactly
      the checked mods the catalogue has a newer version of. */
  lemma {:induction false} ReportAccounts(refs: seq<ModRef>, total: nat, answers: Catalogue, game: Game)
    ensures var rep := ReportOf(refs, total, answers, game);
            && rep.checked + |rep.missing| + |rep.unreachable| == |refs|
            && (forall u :: u in rep.updates <==> exists r | r in refs :: UpdateOf(r, answers, game) == Some(u))
            && (forall r :: r in rep.missing <==> r in refs && Ask(answers, r) == NotPublished)
            && (forall r :: r in rep.unreachable <==> r in refs && Ask(answers, r) == LookupFailed)
  {
    if refs != [] {
      hide *;
      var n := |refs| - 1;
      var before, r := refs[..n], refs[n];
      ReportAccounts(before, total, answers, game);
      ReportStep(refs, n, total, answers, game);
      assert refs[..n + 1] == refs;
      assert forall x :: x in refs <==> x in before || x == r;
      var rep, was := ReportOf(refs, total, answers, game), ReportOf(before, total, answers, game);
      CountedOne(was, r, answers, game);
    } else {
      NothingReported(total, answers, game);
    }
  }

  /** One more mod is in exactly one list, or counted as checked. */
  lemma CountedOne(was: Report, r: ModRef, answers: Catalogue, game: Game)
    ensures var rep := Counted(was, r, answers, game);
            && rep.checked + |rep.missing| + |rep.unreachable| == was.checked + |was.missing| + |was.unreachable| + 1
            && (forall u :: u in rep.updates <==> u in was.updates || UpdateOf(r, answers, game) == Some(u))
            && (forall x :: x in rep.missing <==> x in was.missing || (x == r && Ask(answers, r) == NotPublished))
            && (forall x :: x in rep.unreachable <==>
                x in was.unreachable || (x == r && Ask(answers, r) == LookupFailed))
  {
    NoUpdateUnasked(r, answers, game);
    hide UpdateOf, Ask, Newer;
  }

  lemma NoUpdateUnasked(r: ModRef, answers: Catalogue, game: Game)
    ensures UpdateOf(r, answers, game).Some? ==> Ask(answers, r).Latest? && UpdateOf(r, answers, game).value.ref == r
  {
    hide Newer;
  }

  /** A REPORTED UPDATE IS OF AN INSTALLED MOD, to a newer version, in whatever order the report
      lists them: what the theorems about an update ask of its targets. */
  lemma ReportedIsInstalled(entries: seq<string>, answers: Catalogue, game: Game, reported: seq<Update>,
                            keys: seq<string>)
    requires multiset(reported) == multiset(ReportOf(Refs(entries, game), |Refs(entries, game)|, answers, game).updates)
    ensures forall u | u in reported :: Newer(u.latest, u.current) && u.current == Current(u.ref)
    ensures UpdateLaws.AllInstalled(reported, entries, game)
    ensures UpdateLaws.AllInstalled(Targets(reported, keys), entries, game)
  {
    hide *;
    var refs := Refs(entries, game);
    var rep := ReportOf(refs, |refs|, answers, game);
    ReportAccounts(refs, |refs|, answers, game);
    forall u | u in reported
      ensures Newer(u.latest, u.current) && u.current == Current(u.ref)
      ensures UpdateLaws.LastEntry(u.ref.Key(), entries, game).Some?
    {
      assert u in multiset(reported);
      assert u in rep.updates;
      var r :| r in refs && UpdateOf(r, answers, game) == Some(u);
      UpdateIsNewer(r, u, answers, game);
      RefHasEntry(entries, r, game);
    }
    InstalledMeans(reported, entries, game);
    TargetsAreAvailable(reported, keys);
    InstalledMeans(Targets(reported, keys), entries, game);
  }

  lemma InstalledMeans(targets: seq<Update>, entries: seq<string>, game: Game)
    ensures UpdateLaws.AllInstalled(targets, entries, game) <==>
            forall u | u in targets :: UpdateLaws.LastEntry(u.ref.Key(), entries, game).Some?
  {
    hide UpdateLaws.LastEntry;
  }

  lemma UpdateIsNewer(r: ModRef, u: Update, answers: Catalogue, game: Game)
    requires UpdateOf(r, answers, game) == Some(u)
    ensures u.ref == r && u.current == Current(r) && Newer(u.latest, u.current)
  {
    hide Newer, Current;
  }

  lemma {:induction false} RefHasEntry(entries: seq<string>, r: ModRef, game: Game)
    requires r in Refs(entries, game)
    ensures UpdateLaws.LastEntry(r.Key(), entries, game).Some?
  {
    hide ParseModRef;
    var n := |entries| - 1;
    if Asked(entries[n], game) != Some(r) {
      RefHasEntry(entries[..n], r, game);
    }
  }

  lemma {:induction false} TargetsAreAvailable(available: seq<Update>, keys: seq<string>)
    ensures forall u | u in Targets(available, keys) :: u in available
  {
    if available != [] {
      TargetsAreAvailable(available[..|available| - 1], keys);
    }
  }

  /** Once updates are written, the report drops those mods and keeps every other. */
  lemma {:induction false} ForgottenExactly(report: seq<Update>, done: seq<Update>)
    ensures forall u :: u in Forgotten(report, done) <==>
            u in report && forall d | d in done :: d.ref.Key() != u.ref.Key()
  {
    if report != [] {
      ForgottenExactly(report[..|report| - 1], done);
      assert report == report[..|report| - 1] + [report[|report| - 1]];
    }
  }

  // ---- by the entries ------------------------------------------------------------

  /** WHICH MODS ARE ASKED ABOUT: those some entry reads as, but on Valheim only those with a namespace. */
  lemma {:induction false} AskedByEntries(entries: seq<string>, game: Game)
    ensures forall r :: r in Refs(entries, game) <==>
              (game == Valheim ==> r.ns != "") && exists e :: e in entries && ParseModRef(e, game) == Some(r)
  {
    if entries != [] {
      hide ParseModRef;
      var n := |entries| - 1;
      AskedByEntries(entries[..n], game);
      assert entries == entries[..n] + [entries[n]];
      forall r
        ensures r in Refs(entries, game) <==>
                (game == Valheim ==> r.ns != "") && exists e :: e in entries && ParseModRef(e, game) == Some(r)
      {
        assert r in Refs(entries, game) <==> r in Refs(entries[..n], game) || Asked(entries[n], game) == Some(r);
        assert forall e :: e in entries <==> e in entries[..n] || e == entries[n];
      }
    }
  }

  /** A PINNED MOD WITH A NEWER PUBLISHED VERSION IS REPORTED, from the one to the other, and a pinned mod
      without one is not. */
  lemma PinnedIsReported(entries: seq<string>, answers: Catalogue, game: Game, e: string, v: string)
    requires e in entries && ParseModRef(e, game).Some? && ParseModRef(e, game).value.ver != ""
    requires game == Valheim ==> ParseModRef(e, game).value.ns != ""
    requires ParseModRef(e, game).value in answers && answers[ParseModRef(e, game).value] == Latest(v)
    ensures var r, rep := ParseModRef(e, game).value,
            ReportOf(Refs(entries, game), |Refs(entries, game)|, answers, game);
            && (v != "" && Newer(v, r.ver) ==> Update(r, r.ver, v) in rep.updates)
            && (v == "" || !Newer(v, r.ver) ==> forall u | u in rep.updates :: u.ref != r)
            && r !in rep.missing && r !in rep.unreachable
  {
    hide ParseModRef, Newer, Refs, ReportOf;
    var r, refs := ParseModRef(e, game).value, Refs(entries, game);
    AskedByEntries(entries, game);
    ReportAccounts(refs, |refs|, answers, game);
    assert UpdateOf(r, answers, game) == if v == "" || !Newer(v, r.ver) then None else Some(Update(r, r.ver, v));
    forall u | u in ReportOf(refs, |refs|, answers, game).updates && u.ref == r ensures v != "" && Newer(v, r.ver) {
      var x :| x in refs && UpdateOf(x, answers, game) == Some(u);
      NoUpdateUnasked(x, answers, game);
    }
  }

  /** AN UNPINNED MOD is reported for any version published for it, but on Valheim never. */
  lemma UnpinnedIsReported(entries: seq<string>, answers: Catalogue, game: Game, e: string, v: string)
    requires e in entries && ParseModRef(e, game).Some? && ParseModRef(e, game).value.ver == ""
    requires game == Valheim ==> ParseModRef(e, game).value.ns != ""
    requires ParseModRef(e, game).value in answers && answers[ParseModRef(e, game).value] == Latest(v)
    ensures var r, rep := ParseModRef(e, game).value,
            ReportOf(Refs(entries, game), |Refs(entries, game)|, answers, game);
            && (game == Valheim ==> forall u | u in rep.updates :: u.ref != r)
            && (game != Valheim && Trim(v) != "" && Trim(v) != "(unpinned)" ==>
                Update(r, "(unpinned)", v) in rep.updates)
  {
    hide ParseModRef, Newer, Refs, ReportOf;
    var r, refs := ParseModRef(e, game).value, Refs(entries, game);
    AskedByEntries(entries, game);
    ReportAccounts(refs, |refs|, answers, game);
    AboveUnpinned(v);
    if game != Valheim && Trim(v) != "" && Trim(v) != "(unpinned)" {
      assert UpdateOf(r, answers, game) == Some(Update(r, "(unpinned)", v));
    }
    forall u | u in ReportOf(refs, |refs|, answers, game).updates && u.ref == r ensures game != Valheim {
      var x :| x in refs && UpdateOf(x, answers, game) == Some(u);
      NoUpdateUnasked(x, answers, game);
    }
  }

  lemma AboveUnpinned(v: string)
    ensures Trim(v) != "" && Trim(v) != "(unpinned)" ==> Newer(v, "(unpinned)") && v != ""
  {
    TrimOfTrimmed("(unpinned)");
    TrimOfTrimmed("");
    hide Trim, NewerParts, TakeApart;
  }

  /** What the catalogue does not publish is missing, and what it cannot answer for is unreachable. */
  lemma UnansweredIsAccounted(entries: seq<string>, answers: Catalogue, game: Game, e: string)
    requires e in entries && ParseModRef(e, game).Some?
    requires game == Valheim ==> ParseModRef(e, game).value.ns != ""
    ensures var r, rep := ParseModRef(e, game).value,
            ReportOf(Refs(entries, game), |Refs(entries, game)|, answers, game);
            && (r in answers && answers[r] == NotPublished ==> r in rep.missing)
            && (r !in answers || answers[r] == LookupFailed ==> r in rep.unreachable)
  {
    hide ParseModRef, Newer, Refs, ReportOf;
    var refs := Refs(entries, game);
    AskedByEntries(entries, game);
    ReportAccounts(refs, |refs|, answers, game);
  }
}
