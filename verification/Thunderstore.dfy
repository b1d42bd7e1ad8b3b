/** Resolving a Thunderstore package: internal/infra/content/thunderstore/client.go, lines 97-153. */
module Thunderstore {
  import opened Text
  import opened Wrappers
  import opened Graph
  import ModRefs

  datatype Ref = Ref(ns: string, name: string, ver: string) {
    /** What a visit is remembered by. */
    function Key(): string {
      ns + "/" + name
    }

    function Dashed(): string {
      ns + "-" + name + "-" + ver
    }

    /** The line pinned in the mod list. */
    function Line(): string {
      ns + "/" + name + "/" + ver
    }
  }

  /** Every published version with its dependency strings. */
  type Catalogue = map<Ref, seq<string>>

  datatype Error = NoPackage | NoVersion(r: Ref)

  /** "Namespace-Name-Version": the first and last parts, and all between. */
  function ParseRef(dep: string): Option<Ref> {
    var parts := Split(dep, '-');
    if |parts| < 3 then None
    else Some(Ref(parts[0], Join(parts[1..|parts| - 1], "-"), parts[|parts| - 1]))
  }

  predicate IsPack(name: string) {
    HasPrefix(ToLower(name), "bepinexpack")
  }

  /** entry: the line for a dependency string, None to skip it. */
  function EntryOf(dep: string): Option<string> {
    var r := ParseRef(dep);
    if r.None? || IsPack(r.value.name) then None else Some(r.value.Line())
  }

  /** The packages a version depends on. */
  function Deps(c: Catalogue, r: Ref): set<Ref> {
    if r in c then set i | 0 <= i < |c[r]| && ParseRef(c[r][i]).Some? :: ParseRef(c[r][i]).value else {}
  }

  /** What a printed reference reads as. */
  function Read(r: Ref): Ref {
    var p := ParseRef(r.Dashed());
    if p.Some? then p.value else r
  }

  /** A reference that prints and parses back: dependency strings only yield these. */
  predicate Plain(r: Ref) {
    '-' !in r.ns && '-' !in r.ver
  }

  /** A printed reference splits into its first part, its last part and all between. */
  lemma DashedParts(r: Ref)
    ensures var parts := Split(r.ns, '-') + Split(r.name, '-') + Split(r.ver, '-');
            Split(r.Dashed(), '-') == parts && |parts| >= 3
  {
    hide Split;
    SplitAppend(r.ns, '-', r.name);
    SplitAppend(r.ns + "-" + r.name, '-', r.ver);
    assert r.Dashed() == r.ns + "-" + r.name + ['-'] + r.ver;
    assert r.ns + "-" + r.name == r.ns + ['-'] + r.name;
  }

  /** PRINTING AND SPLITTING, EXACTLY: a reference comes back when its namespace and version hold no
      '-', and only then. */
  lemma DashedReads(r: Ref)
    ensures ParseRef(r.Dashed()) == Some(Read(r)) && Plain(Read(r))
    ensures Read(r) == r <==> Plain(r)
    ensures EntryOf(r.Dashed()) == if IsPack(Read(r).name) then None else Some(Read(r).Line())
  {
    DashedParts(r);
    ParsedIsPlain(r.Dashed());
    if Plain(r) {
      PlainReads(r);
    }
    hide Split, Join, IsPack;
  }

  lemma PlainReads(r: Ref)
    requires Plain(r)
    ensures ParseRef(r.Dashed()) == Some(r)
  {
    DashedParts(r);
    SplitOne(r.ns, '-');
    SplitOne(r.ver, '-');
    JoinSplit(r.name, '-');
    hide Split, Join;
    var parts := [r.ns] + Split(r.name, '-') + [r.ver];
    assert Split(r.Dashed(), '-') == parts;
    assert parts[1..|parts| - 1] == Split(r.name, '-');
  }

  lemma ParsedIsPlain(dep: string)
    ensures ParseRef(dep).Some? ==> Plain(ParseRef(dep).value)
  {
    SplitFree(dep, '-');
  }

  /** Every key the search can meet. */
  function Universe(c: Catalogue, root: Ref): set<string> {
    {root.Key()} + set r, i | r in c && 0 <= i < |c[r]| && ParseRef(c[r][i]).Some? :: ParseRef(c[r][i]).value.Key()
  }

  ghost predicate InUniverse(c: Catalogue, root: Ref, visited: set<string>, queue: seq<Ref>) {
    visited <= Universe(c, root) && forall q | q in queue :: q.Key() in Universe(c, root)
  }

  ghost predicate DistinctKeys(rs: seq<Ref>) {
    forall i, j | 0 <= i < j < |rs| :: rs[i].Key() != rs[j].Key()
  }

  /** The pins, as what they print as reads: published, no pack, each but the root a dependency of
      an earlier one. */
  ghost predicate Pins(c: Catalogue, root: Ref, rs: seq<Ref>, out: seq<string>) {
    && |out| == |rs| && DistinctKeys(rs)
    && forall i | 0 <= i < |rs| ::
         && out[i] == Read(rs[i]).Line() && rs[i] in c && !IsPack(Read(rs[i]).name)
         && (rs[i] == root || DependedOn(c, rs[..i], rs[i]))
  }

  /** What resolving a reference asks for: the dependencies of a published one that is no pack. */
  function Asks(c: Catalogue): Edges<Ref> {
    map r | r in c && !IsPack(Read(r).name) :: Deps(c, r)
  }

  /** Resolving the root has to ask for a version that is not published. */
  ghost predicate Missing(c: Catalogue, root: Ref, r: Ref) {
    Reaches(Asks(c), root, r) && !IsPack(Read(r).name) && r !in c
  }

  /** What is skipped: packs the root or a pinned version asks for. */
  ghost predicate Skips(c: Catalogue, root: Ref, rs: seq<Ref>, packs: set<Ref>) {
    forall p | p in packs :: IsPack(Read(p).name) && (p == root || DependedOn(c, rs, p))
  }

  ghost predicate DependedOn(c: Catalogue, rs: seq<Ref>, r: Ref) {
    exists q :: q in rs && r in Deps(c, q)
  }

  /** The package was pinned at some version, or skipped as a BepInExPack. */
  ghost predicate Handled(rs: seq<Ref>, packs: set<Ref>, key: string) {
    (exists r :: r in rs && r.Key() == key) || (exists p :: p in packs && IsPack(Read(p).name) && p.Key() == key)
  }

  /** Every dependency of every pinned version was pinned at some version, or is a pack. */
  ghost predicate ClosedUnderDeps(c: Catalogue, root: Ref, rs: seq<Ref>, packs: set<Ref>) {
    Handled(rs, packs, root.Key()) && forall r, d | r in rs && d in Deps(c, r) :: Handled(rs, packs, d.Key())
  }

  /** The search so far: what was pinned, skipped and visited, and what is still asked for. */
  ghost predicate Searching(c: Catalogue, root: Ref, rs: seq<Ref>, packs: set<Ref>, visited: set<string>,
                            queue: seq<Ref>) {
    && (root.Key() in visited || root in queue)
    && (forall k | k in visited :: Handled(rs, packs, k))
    && (forall r | r in rs :: r.Key() in visited)
    && (forall r, d | r in rs && d in Deps(c, r) :: d.Key() in visited || d in queue)
    && (forall r | r in queue :: r == root || DependedOn(c, rs, r))
    && Skips(c, root, rs, packs)
  }

  /** Everything the search meets is reachable from the root. */
  ghost predicate Reached(c: Catalogue, root: Ref, queue: seq<Ref>) {
    forall r | r in queue :: Reaches(Asks(c), root, r)
  }

  /** ResolveTree: every reference is handled at most once by its key, no pack is pinned, and the
      pins are closed under the dependencies of the versions they chose. It terminates on cycles,
      fails only for a version that is asked for and not published, and succeeds when every version
      it can ask for is published. */
  method ResolveTree(c: Catalogue, ns: string, name: string, latest: Option<string>)
    returns (r: Result<seq<string>, Error>, ghost rs: seq<Ref>, ghost packs: set<Ref>)
    ensures latest == None ==> r == Err(NoPackage)
    ensures latest.Some? && r.Err? ==> r.error.NoVersion? && Missing(c, Ref(ns, name, latest.value), r.error.r)
    ensures latest.Some? && (forall x :: !Missing(c, Ref(ns, name, latest.value), x)) ==> r.Ok?
    ensures latest.Some? && r.Ok? ==>
              var root := Ref(ns, name, latest.value);
              Pins(c, root, rs, r.value) && ClosedUnderDeps(c, root, rs, packs) && Skips(c, root, rs, packs)
  {
    hide *;
    rs, packs := [], {};
    if latest == None {
      return Err(NoPackage), rs, packs;
    }
    var root := Ref(ns, name, latest.value);
    var out: seq<string> := [];
    var visited: set<string> := {};
    var queue := [root];
    SearchStart(c, root);
    while |queue| > 0
      invariant InUniverse(c, root, visited, queue) && Reached(c, root, queue)
      invariant Searching(c, root, rs, packs, visited, queue) && Pins(c, root, rs, out)
      decreases |Universe(c, root) - visited|, |queue|
    {
      var q, rest := queue[0], queue[1..];
      var key := q.Key();
      KeyInUniverse(c, root, visited, queue);
      ReachedNext(c, root, queue);
      if key in visited {
        SearchSkip(c, root, rs, packs, visited, queue);
        queue := rest;
        continue;
      }
      Smaller(Universe(c, root), visited, key);
      var line := EntryOf(q.Dashed());
      SearchNext(c, root, rs, packs, visited, queue);
      DashedReads(q);
      if line == None {
        SearchPack(c, root, rs, packs, visited, queue);
        packs := packs + {q};
        visited := visited + {key};
        queue := rest;
        continue;
      }
      if q !in c {
        MissingBy(c, root, q);
        return Err(NoVersion(q)), rs, packs;
      }
      var next := Enqueue(c, q, rest, visited + {key});
      NextInUniverse(c, root, visited, queue, next);
      ReachedDeps(c, root, queue, next);
      SearchPin(c, root, rs, packs, visited, queue, next);
      PinsStep(c, root, rs, out, visited, q);
      visited := visited + {key};
      out := out + [line.value];
      rs := rs + [q];
      queue := next;
    }
    SearchEnd(c, root, rs, packs, visited);
    r := Ok(out);
  }

  /** The inner loop: dependencies not yet visited are asked for. */
  method Enqueue(c: Catalogue, q: Ref, queue: seq<Ref>, visited: set<string>) returns (next: seq<Ref>)
    requires q in c
    ensures forall x | x in queue :: x in next
    ensures forall x | x in next :: x in queue || x in Deps(c, q)
    ensures forall d | d in Deps(c, q) :: d.Key() in visited || d in next
  {
    hide ParseRef;
    next := queue;
    for i := 0 to |c[q]|
      invariant forall x | x in queue :: x in next
      invariant forall x | x in next :: x in queue || x in Deps(c, q)
      invariant forall j | 0 <= j < i && ParseRef(c[q][j]).Some? ::
                  ParseRef(c[q][j]).value.Key() in visited || ParseRef(c[q][j]).value in next
    {
      var d := ParseRef(c[q][i]);
      if d.None? {
        continue;
      }
      if d.value.Key() !in visited {
        assert d.value in Deps(c, q);
        next := next + [d.value];
      }
    }
    forall d | d in Deps(c, q) ensures d.Key() in visited || d in next {
      var i :| 0 <= i < |c[q]| && ParseRef(c[q][i]) == Some(d);
    }
  }

  // ---- steps of the search ---------------------------------------------------

  lemma ReachedNext(c: Catalogue, root: Ref, queue: seq<Ref>)
    requires Reached(c, root, queue) && queue != []
    ensures Reaches(Asks(c), root, queue[0]) && Reached(c, root, queue[1..])
  {
    hide Reaches, Asks;
    forall r | r in queue[1..] ensures r in queue {
    }
  }

  lemma MissingBy(c: Catalogue, root: Ref, q: Ref)
    requires Reaches(Asks(c), root, q) && !IsPack(Read(q).name) && q !in c
    ensures Missing(c, root, q)
  {
    hide Reaches, Asks, IsPack, Read;
  }

  lemma AsksDeps(c: Catalogue, q: Ref)
    ensures Next(Asks(c), q) == if q in c && !IsPack(Read(q).name) then Deps(c, q) else {}
  {
    hide Deps, IsPack, Read;
  }

  lemma ReachedDeps(c: Catalogue, root: Ref, queue: seq<Ref>, next: seq<Ref>)
    requires Reached(c, root, queue) && queue != [] && queue[0] in c && !IsPack(Read(queue[0]).name)
    requires forall x | x in next :: x in queue[1..] || x in Deps(c, queue[0])
    ensures Reached(c, root, next)
  {
    hide Reaches, Asks, IsPack, Read, Deps;
    ReachedNext(c, root, queue);
    AsksDeps(c, queue[0]);
    forall x | x in next ensures Reaches(Asks(c), root, x) {
      if x !in queue[1..] {
        ReachesStep(Asks(c), root, queue[0], x);
      }
    }
  }

  lemma SkipsOne(c: Catalogue, root: Ref, rs: seq<Ref>, packs: set<Ref>, q: Ref)
    requires Skips(c, root, rs, packs) && IsPack(Read(q).name) && (q == root || DependedOn(c, rs, q))
    ensures Skips(c, root, rs, packs + {q})
  {
    hide IsPack, Read, DependedOn;
  }

  lemma SkipsMore(c: Catalogue, root: Ref, rs: seq<Ref>, packs: set<Ref>, q: Ref)
    requires Skips(c, root, rs, packs)
    ensures Skips(c, root, rs + [q], packs)
  {
    hide IsPack, Read, DependedOn;
    forall p | p in packs && p != root ensures DependedOn(c, rs + [q], p) {
      DependedMore(c, rs, q, p);
    }
  }

  lemma SearchStart(c: Catalogue, root: Ref)
    ensures InUniverse(c, root, {}, [root])
    ensures Searching(c, root, [], {}, {}, [root]) && Pins(c, root, [], []) && Reached(c, root, [root])
  {
    hide Deps, Asks;
    ReachesItself(Asks(c), root);
    assert root.Key() in Universe(c, root);
  }

  lemma KeyInUniverse(c: Catalogue, root: Ref, visited: set<string>, queue: seq<Ref>)
    requires InUniverse(c, root, visited, queue) && queue != []
    ensures queue[0].Key() in Universe(c, root)
    ensures InUniverse(c, root, visited, queue[1..]) && InUniverse(c, root, visited + {queue[0].Key()}, queue[1..])
  {
    hide Universe;
    assert queue[0] in queue;
    forall q | q in queue[1..] ensures q in queue {
    }
  }

  lemma NextInUniverse(c: Catalogue, root: Ref, visited: set<string>, queue: seq<Ref>, next: seq<Ref>)
    requires InUniverse(c, root, visited, queue) && queue != [] && queue[0] in c
    requires forall x | x in next :: x in queue[1..] || x in Deps(c, queue[0])
    ensures InUniverse(c, root, visited + {queue[0].Key()}, next)
  {
    hide ParseRef;
    KeyInUniverse(c, root, visited, queue);
    forall x | x in next ensures x.Key() in Universe(c, root) {
      if x !in queue[1..] {
        var i :| 0 <= i < |c[queue[0]]| && ParseRef(c[queue[0]][i]) == Some(x);
      }
    }
  }

  lemma SearchNext(c: Catalogue, root: Ref, rs: seq<Ref>, packs: set<Ref>, visited: set<string>, queue: seq<Ref>)
    requires Searching(c, root, rs, packs, visited, queue) && queue != []
    ensures queue[0] == root || DependedOn(c, rs, queue[0])
    ensures forall r | r in rs :: r.Key() in visited
  {
    hide Deps, DependedOn, Handled, Skips;
    assert queue[0] in queue;
  }

  lemma SearchSkip(c: Catalogue, root: Ref, rs: seq<Ref>, packs: set<Ref>, visited: set<string>, queue: seq<Ref>)
    requires Searching(c, root, rs, packs, visited, queue) && queue != [] && queue[0].Key() in visited
    ensures Searching(c, root, rs, packs, visited, queue[1..])
  {
    hide Deps, DependedOn, Handled, Skips;
    assert queue == [queue[0]] + queue[1..];
  }

  lemma SearchPack(c: Catalogue, root: Ref, rs: seq<Ref>, packs: set<Ref>, visited: set<string>, queue: seq<Ref>)
    requires Searching(c, root, rs, packs, visited, queue) && queue != [] && IsPack(Read(queue[0]).name)
    ensures Searching(c, root, rs, packs + {queue[0]}, visited + {queue[0].Key()}, queue[1..])
  {
    hide Deps, DependedOn, IsPack, Read, Handled, Skips;
    var q := queue[0];
    assert queue == [q] + queue[1..];
    PackHandled(rs, packs + {q}, q);
    assert q in queue;
    SkipsOne(c, root, rs, packs, q);
    forall k | k in visited + {q.Key()} ensures Handled(rs, packs + {q}, k) {
      if k != q.Key() {
        HandledGrows(rs, packs, rs, packs + {q}, k);
      }
    }
  }

  lemma PackHandled(rs: seq<Ref>, packs: set<Ref>, q: Ref)
    requires q in packs && IsPack(Read(q).name)
    ensures Handled(rs, packs, q.Key())
  {
    hide IsPack, Read;
  }

  lemma HandledGrows(rs: seq<Ref>, packs: set<Ref>, more: seq<Ref>, extra: set<Ref>, key: string)
    requires Handled(rs, packs, key) && packs <= extra && forall r | r in rs :: r in more
    ensures Handled(more, extra, key)
  {
    hide IsPack, Read;
    if r :| r in rs && r.Key() == key {
      assert r in more;
    } else {
      var p :| p in packs && IsPack(Read(p).name) && p.Key() == key;
      assert p in extra;
    }
  }

  lemma SearchPin(c: Catalogue, root: Ref, rs: seq<Ref>, packs: set<Ref>, visited: set<string>, queue: seq<Ref>,
                  next: seq<Ref>)
    requires Searching(c, root, rs, packs, visited, queue) && queue != []
    requires forall x | x in queue[1..] :: x in next
    requires forall x | x in next :: x in queue[1..] || x in Deps(c, queue[0])
    requires forall d | d in Deps(c, queue[0]) :: d.Key() in visited + {queue[0].Key()} || d in next
    ensures Searching(c, root, rs + [queue[0]], packs, visited + {queue[0].Key()}, next)
  {
    hide Deps, IsPack, Read, Skips, Handled, DependedOn;
    var q := queue[0];
    var all := rs + [q];
    assert queue == [q] + queue[1..];
    SkipsMore(c, root, rs, packs, q);
    forall k | k in visited + {q.Key()} ensures Handled(all, packs, k) {
      if k == q.Key() {
        PinHandled(all, packs, q);
      } else {
        HandledGrows(rs, packs, all, packs, k);
      }
    }
    forall r | r in next ensures r == root || DependedOn(c, all, r) {
      if r in queue[1..] {
        assert r in queue;
        if r != root {
          DependedMore(c, rs, q, r);
        }
      } else {
        DependedLast(c, rs, q, r);
      }
    }
  }

  lemma PinHandled(rs: seq<Ref>, packs: set<Ref>, q: Ref)
    requires q in rs
    ensures Handled(rs, packs, q.Key())
  {
    hide IsPack, Read;
  }

  lemma DependedMore(c: Catalogue, rs: seq<Ref>, q: Ref, r: Ref)
    requires DependedOn(c, rs, r)
    ensures DependedOn(c, rs + [q], r)
  {
    hide Deps;
    var p :| p in rs && r in Deps(c, p);
    assert p in rs + [q];
  }

  lemma DependedLast(c: Catalogue, rs: seq<Ref>, q: Ref, r: Ref)
    requires r in Deps(c, q)
    ensures DependedOn(c, rs + [q], r)
  {
    hide Deps;
    assert q in rs + [q];
  }

  lemma DepsPlain(c: Catalogue, q: Ref)
    ensures forall d | d in Deps(c, q) :: Plain(d)
  {
    hide ParseRef;
    forall d | d in Deps(c, q) ensures Plain(d) {
      var i :| 0 <= i < |c[q]| && ParseRef(c[q][i]) == Some(d);
      ParsedIsPlain(c[q][i]);
    }
  }

  lemma PinsStep(c: Catalogue, root: Ref, rs: seq<Ref>, out: seq<string>, visited: set<string>, q: Ref)
    requires Pins(c, root, rs, out) && q in c && !IsPack(Read(q).name) && (q == root || DependedOn(c, rs, q))
    requires q.Key() !in visited && forall r | r in rs :: r.Key() in visited
    ensures Pins(c, root, rs + [q], out + [Read(q).Line()])
  {
    hide Deps, IsPack, DependedOn, Read;
    var all := rs + [q];
    forall i | 0 <= i < |rs| ensures all[i].Key() != q.Key() && all[..i] == rs[..i] {
      assert rs[i] in rs;
    }
    assert all[..|rs|] == rs;
  }

  lemma SearchEnd(c: Catalogue, root: Ref, rs: seq<Ref>, packs: set<Ref>, visited: set<string>)
    requires Searching(c, root, rs, packs, visited, [])
    ensures ClosedUnderDeps(c, root, rs, packs) && Skips(c, root, rs, packs)
  {
    hide Deps, DependedOn, Handled, Skips;
    forall r, d | r in rs && d in Deps(c, r) ensures Handled(rs, packs, d.Key()) {
      assert d.Key() in visited;
    }
  }

  // ---- each package once -----------------------------------------------------

  /** No namespace/name is pinned twice. */
  ghost predicate OncePinned(rs: seq<Ref>) {
    forall i, j | 0 <= i < j < |rs| :: Read(rs[i]).Key() != Read(rs[j]).Key()
  }

  lemma OthersArePlain(c: Catalogue, root: Ref, rs: seq<Ref>, out: seq<string>, i: nat)
    requires Pins(c, root, rs, out) && i < |rs| && rs[i] != root
    ensures Read(rs[i]) == rs[i]
  {
    hide Deps, Read, IsPack;
    var q :| q in rs[..i] && rs[i] in Deps(c, q);
    DepsPlain(c, q);
    DashedReads(rs[i]);
  }

  lemma RepeatsTheRoot(c: Catalogue, root: Ref, rs: seq<Ref>, out: seq<string>)
    requires Pins(c, root, rs, out)
    ensures OncePinned(rs) <==> (root in rs ==> forall r | r in rs && r != root :: r.Key() != Read(root).Key())
  {
    hide Deps, Read, IsPack, DependedOn;
    DashedReads(root);
    forall i | 0 <= i < |rs| && rs[i] != root ensures Read(rs[i]) == rs[i] {
      OthersArePlain(c, root, rs, out, i);
    }
    if root in rs {
      var k :| 0 <= k < |rs| && rs[k] == root;
      forall i | 0 <= i < |rs| && i != k ensures rs[i] != root {
        assert rs[i].Key() != rs[k].Key();
      }
      RootAgainst(root, rs, k);
    }
  }

  lemma RootAgainst(root: Ref, rs: seq<Ref>, k: nat)
    requires k < |rs| && rs[k] == root && DistinctKeys(rs)
    requires forall i | 0 <= i < |rs| && i != k :: rs[i] != root && Read(rs[i]) == rs[i]
    ensures OncePinned(rs) <==> forall r | r in rs && r != root :: r.Key() != Read(root).Key()
    ensures Read(root) == root ==> OncePinned(rs)
  {
    hide Read;
    if OncePinned(rs) {
      forall r | r in rs && r != root ensures r.Key() != Read(root).Key() {
        var i :| 0 <= i < |rs| && rs[i] == r;
      }
    }
  }

  /** No other reference resolving asks for is the package the root's printed reference reads as. */
  ghost predicate NoClash(c: Catalogue, root: Ref) {
    forall r | Reaches(Asks(c), root, r) && r != root && !IsPack(Read(r).name) :: r.Key() != Read(root).Key()
  }

  /** Resolving asks for each package at one version. */
  ghost predicate OneVersion(c: Catalogue, root: Ref) {
    forall r, q | Reaches(Asks(c), root, r) && Reaches(Asks(c), root, q) && r.Key() == q.Key() :: r == q
  }

  /** A pinned reference is one resolving asks for. */
  lemma {:induction false} PinsReached(c: Catalogue, root: Ref, rs: seq<Ref>, out: seq<string>, i: nat)
    requires Pins(c, root, rs, out) && i < |rs|
    ensures Reaches(Asks(c), root, rs[i])
  {
    hide Reaches, Asks, Read, IsPack, Deps;
    if rs[i] == root {
      ReachesItself(Asks(c), root);
    } else {
      var q :| q in rs[..i] && rs[i] in Deps(c, q);
      var j :| 0 <= j < i && rs[j] == q;
      PinsReached(c, root, rs, out, j);
      AsksDeps(c, q);
      ReachesStep(Asks(c), root, q, rs[i]);
    }
  }

  /** EACH PACKAGE ONCE: no namespace/name is pinned twice when nothing the root asks for is the
      package the root's printed reference reads as; a root that reads as itself is enough. */
  lemma PinnedOnce(c: Catalogue, root: Ref, rs: seq<Ref>, out: seq<string>)
    requires Pins(c, root, rs, out)
    ensures NoClash(c, root) || Plain(root) ==> OncePinned(rs)
  {
    hide *;
    RepeatsTheRoot(c, root, rs, out);
    DashedReads(root);
    if root in rs && (NoClash(c, root) || Plain(root)) {
      forall r | r in rs && r != root ensures r.Key() != Read(root).Key() {
        var i :| 0 <= i < |rs| && rs[i] == r;
        PinsReached(c, root, rs, out, i);
        PinIsNoPack(c, root, rs, out, i);
        if NoClash(c, root) {
          NoClashAt(c, root, r);
        } else {
          PinsDiffer(c, root, rs, out, root, r);
        }
      }
    }
  }

  lemma PinIsNoPack(c: Catalogue, root: Ref, rs: seq<Ref>, out: seq<string>, i: nat)
    requires Pins(c, root, rs, out) && i < |rs|
    ensures !IsPack(Read(rs[i]).name) && rs[i] in c
  {
    hide IsPack, Read, DependedOn;
  }

  lemma NoClashAt(c: Catalogue, root: Ref, r: Ref)
    requires NoClash(c, root) && Reaches(Asks(c), root, r) && r != root && !IsPack(Read(r).name)
    ensures r.Key() != Read(root).Key()
  {
    hide Reaches, Asks, IsPack, Read;
  }

  lemma PinsDiffer(c: Catalogue, root: Ref, rs: seq<Ref>, out: seq<string>, a: Ref, b: Ref)
    requires Pins(c, root, rs, out) && a in rs && b in rs && a != b
    ensures a.Key() != b.Key()
  {
    hide IsPack, Read, DependedOn;
    var i :| 0 <= i < |rs| && rs[i] == a;
    var j :| 0 <= j < |rs| && rs[j] == b;
  }

  /** What a finished search met is all it can ask for, when each package has one version. */
  lemma AllMet(c: Catalogue, root: Ref, rs: seq<Ref>, out: seq<string>, packs: set<Ref>, x: Ref)
    requires Pins(c, root, rs, out) && ClosedUnderDeps(c, root, rs, packs) && Skips(c, root, rs, packs)
    requires OneVersion(c, root) && Reaches(Asks(c), root, x)
    ensures x in rs || x in packs
  {
    hide *;
    ReachesItself(Asks(c), root);
    var met := (set r | r in rs) + packs;
    MetByKey(c, root, rs, out, packs, root);
    forall v, d | v in met && d in Next(Asks(c), v) ensures d in met {
      AsksDeps(c, v);
      MetReached(c, root, rs, out, packs, v);
      ReachesStep(Asks(c), root, v, d);
      MetNext(c, root, rs, packs, v, d);
      MetByKey(c, root, rs, out, packs, d);
    }
    ReachesStays(Asks(c), met, root, x);
  }

  lemma MetReached(c: Catalogue, root: Ref, rs: seq<Ref>, out: seq<string>, packs: set<Ref>, v: Ref)
    requires Pins(c, root, rs, out) && Skips(c, root, rs, packs) && (v in rs || v in packs)
    ensures Reaches(Asks(c), root, v)
  {
    hide *;
    if v in rs {
      var i :| 0 <= i < |rs| && rs[i] == v;
      PinsReached(c, root, rs, out, i);
    } else {
      ReachesItself(Asks(c), root);
      if v != root {
        var q := SkipFrom(c, root, rs, packs, v);
        var i :| 0 <= i < |rs| && rs[i] == q;
        PinsReached(c, root, rs, out, i);
        PinIsNoPack(c, root, rs, out, i);
        AsksDeps(c, q);
        ReachesStep(Asks(c), root, q, v);
      }
    }
  }

  lemma SkipFrom(c: Catalogue, root: Ref, rs: seq<Ref>, packs: set<Ref>, p: Ref) returns (q: Ref)
    requires Skips(c, root, rs, packs) && p in packs && p != root
    ensures q in rs && p in Deps(c, q)
  {
    hide IsPack, Read, Deps;
    q :| q in rs && p in Deps(c, q);
  }

  lemma MetNext(c: Catalogue, root: Ref, rs: seq<Ref>, packs: set<Ref>, v: Ref, d: Ref)
    requires ClosedUnderDeps(c, root, rs, packs) && Skips(c, root, rs, packs)
    requires v in rs || v in packs
    requires d in Deps(c, v) && v in c && !IsPack(Read(v).name)
    ensures Handled(rs, packs, d.Key())
  {
    hide IsPack, Read, Deps, Handled, DependedOn;
  }

  lemma MetByKey(c: Catalogue, root: Ref, rs: seq<Ref>, out: seq<string>, packs: set<Ref>, d: Ref)
    requires Pins(c, root, rs, out) && Skips(c, root, rs, packs) && OneVersion(c, root) && Reaches(Asks(c), root, d)
    requires Handled(rs, packs, d.Key()) || (d == root && ClosedUnderDeps(c, root, rs, packs))
    ensures d in rs || d in packs
  {
    hide Pins, Skips, Reaches, Asks, IsPack, Read, Deps;
    assert Handled(rs, packs, d.Key());
    if r :| r in rs && r.Key() == d.Key() {
      MetReached(c, root, rs, out, packs, r);
    } else {
      var p :| p in packs && IsPack(Read(p).name) && p.Key() == d.Key();
      MetReached(c, root, rs, out, packs, p);
    }
  }

  /** EACH PACKAGE ONCE, EXACTLY, on a catalogue that asks for each package at one version: a
      namespace/name is pinned twice just when something the root asks for is the package the root's
      printed reference reads as. */
  lemma PinnedOnceExactly(c: Catalogue, root: Ref, rs: seq<Ref>, out: seq<string>, packs: set<Ref>)
    requires Pins(c, root, rs, out) && ClosedUnderDeps(c, root, rs, packs) && Skips(c, root, rs, packs)
    requires OneVersion(c, root)
    ensures OncePinned(rs) <==> NoClash(c, root)
  {
    hide *;
    PinnedOnce(c, root, rs, out);
    if !NoClash(c, root) {
      var x := Clash(c, root);
      AllMet(c, root, rs, out, packs, x);
      SkipIsPack(c, root, rs, packs, x);
      RootIsMet(c, root, rs, out, packs, x);
      RepeatsTheRoot(c, root, rs, out);
    }
  }

  /** SUCCESS, EXACTLY, on such a catalogue: an outcome there is means that nothing is missing. */
  lemma NothingMissing(c: Catalogue, root: Ref, rs: seq<Ref>, out: seq<string>, packs: set<Ref>, x: Ref)
    requires Pins(c, root, rs, out) && ClosedUnderDeps(c, root, rs, packs) && Skips(c, root, rs, packs)
    requires OneVersion(c, root)
    ensures !Missing(c, root, x)
  {
    hide *;
    MissingMeans(c, root, x);
    if Missing(c, root, x) {
      AllMet(c, root, rs, out, packs, x);
      SkipIsPack(c, root, rs, packs, x);
      var i :| 0 <= i < |rs| && rs[i] == x;
      PinIsNoPack(c, root, rs, out, i);
    }
  }

  lemma MissingMeans(c: Catalogue, root: Ref, x: Ref)
    ensures Missing(c, root, x) <==> Reaches(Asks(c), root, x) && !IsPack(Read(x).name) && x !in c
  {
  }

  lemma Clash(c: Catalogue, root: Ref) returns (x: Ref)
    requires !NoClash(c, root)
    ensures Reaches(Asks(c), root, x) && x != root && !IsPack(Read(x).name) && x.Key() == Read(root).Key()
  {
    hide Reaches, Asks, IsPack, Read;
    x :| Reaches(Asks(c), root, x) && x != root && !IsPack(Read(x).name) && x.Key() == Read(root).Key();
  }

  lemma SkipIsPack(c: Catalogue, root: Ref, rs: seq<Ref>, packs: set<Ref>, p: Ref)
    requires Skips(c, root, rs, packs)
    ensures p in packs ==> IsPack(Read(p).name)
  {
    hide IsPack, Read, DependedOn;
  }

  /** A root that leads anywhere is no pack, so it is pinned. */
  lemma RootIsMet(c: Catalogue, root: Ref, rs: seq<Ref>, out: seq<string>, packs: set<Ref>, x: Ref)
    requires Pins(c, root, rs, out) && ClosedUnderDeps(c, root, rs, packs) && Skips(c, root, rs, packs)
    requires OneVersion(c, root) && Reaches(Asks(c), root, x) && x != root
    ensures root in rs
  {
    hide *;
    ReachesItself(Asks(c), root);
    MetByKey(c, root, rs, out, packs, root);
    SkipIsPack(c, root, rs, packs, root);
    AsksDeps(c, root);
    if IsPack(Read(root).name) {
      ReachesStays(Asks(c), {root}, root, x);
    }
  }

  /** SUCH CATALOGUES EXIST: any in which a root that does not read as itself depends on its own printed
      reference. Whatever outcome the search has, it pins that package twice. */
  lemma DashedRootRepeats(c: Catalogue, root: Ref, rs: seq<Ref>, out: seq<string>, packs: set<Ref>)
    requires Pins(c, root, rs, out) && ClosedUnderDeps(c, root, rs, packs) && Skips(c, root, rs, packs)
    requires OneVersion(c, root) && !Plain(root) && !IsPack(Read(root).name) && root in c && root.Dashed() in c[root]
    ensures !OncePinned(rs)
  {
    hide *;
    var d := Read(root);
    DashedReads(root);
    DashedReads(d);
    DependsOn(c, root, root.Dashed(), d);
    AsksDeps(c, root);
    ReachesItself(Asks(c), root);
    ReachesStep(Asks(c), root, root, d);
    PlainReads(d);
    ClashAt(c, root, d);
    PinnedOnceExactly(c, root, rs, out, packs);
  }

  lemma DependsOn(c: Catalogue, r: Ref, dep: string, d: Ref)
    requires r in c && dep in c[r] && ParseRef(dep) == Some(d)
    ensures d in Deps(c, r)
  {
    hide ParseRef;
    var i :| 0 <= i < |c[r]| && c[r][i] == dep;
  }

  lemma ClashAt(c: Catalogue, root: Ref, x: Ref)
    requires Reaches(Asks(c), root, x) && x != root && !IsPack(Read(x).name) && x.Key() == Read(root).Key()
    ensures !NoClash(c, root)
  {
    hide Reaches, Asks, IsPack, Read;
  }

  /** The catalogue of a root and the package its printed reference reads as. */
  function TwoPackages(root: Ref): Catalogue {
    map[root := [root.Dashed()], Read(root) := []]
  }

  /** So every root that does not read as itself has such a catalogue: resolving it succeeds, and
      whatever the outcome is, it pins one package twice. */
  lemma DashedRootAlwaysRepeats(root: Ref)
    requires !Plain(root) && !IsPack(Read(root).name)
    ensures forall x :: !Missing(TwoPackages(root), root, x)
    ensures var c := TwoPackages(root);
            forall rs, out, packs |
              Pins(c, root, rs, out) && ClosedUnderDeps(c, root, rs, packs) && Skips(c, root, rs, packs) ::
                !OncePinned(rs)
  {
    hide *;
    var dep, c := Read(root), TwoPackages(root);
    DashedReads(root);
    ReadPrints(root);
    if root.Key() == dep.Key() {
      SameKey(root, dep);
    }
    TwoPackagesAre(root);
    TwoRefs(c, root, dep);
    forall x ensures !Missing(c, root, x) {
      MissingMeans(c, root, x);
    }
    forall rs, out, packs | Pins(c, root, rs, out) && ClosedUnderDeps(c, root, rs, packs) && Skips(c, root, rs, packs)
      ensures !OncePinned(rs)
    {
      DashedRootRepeats(c, root, rs, out, packs);
    }
  }

  lemma TwoPackagesAre(root: Ref)
    ensures TwoPackages(root) == map[root := [root.Dashed()], Read(root) := []]
  {
    hide Read;
  }

  /** What a printed reference reads as prints the same. */
  lemma ReadPrints(r: Ref)
    ensures Read(r).Dashed() == r.Dashed()
  {
    var parts := Split(r.Dashed(), '-');
    var p := Read(r);
    DashedParts(r);
    DashedParts(p);
    SplitFree(r.Dashed(), '-');
    JoinSplit(r.Dashed(), '-');
    JoinSplit(p.Dashed(), '-');
    hide Split, Join;
    var n := |parts|;
    assert p == Ref(parts[0], Join(parts[1..n - 1], "-"), parts[n - 1]);
    assert parts[0] in parts && parts[n - 1] in parts;
    assert forall l | l in parts[1..n - 1] :: l in parts;
    SplitOne(p.ns, '-');
    SplitOne(p.ver, '-');
    SplitJoin(parts[1..n - 1], '-');
    assert ['-'] == "-";
    assert [parts[0]] + parts[1..n - 1] + [parts[n - 1]] == parts;
  }

  /** Two references print the same and have the same key only when they are the same. */
  lemma SameKey(a: Ref, b: Ref)
    requires a.Dashed() == b.Dashed() && a.Key() == b.Key()
    ensures a == b
  {
    SamePlace(a, b);
    var d, k := a.Dashed(), a.Key();
    assert |k| == |a.ns| + 1 + |a.name| == |b.ns| + 1 + |b.name|;
    assert d[|k| + 1..] == a.ver && d[|k| + 1..] == b.ver;
    assert k[..|a.ns|] == a.ns && k[..|a.ns|] == b.ns;
    assert k[|a.ns| + 1..] == a.name && k[|a.ns| + 1..] == b.name;
  }

  lemma SamePlace(a: Ref, b: Ref)
    requires a.Dashed() == b.Dashed() && a.Key() == b.Key()
    ensures |a.ns| == |b.ns|
  {
    var d, k := a.Dashed(), a.Key();
    assert forall i | 0 <= i < |k| && i != |a.ns| :: d[i] == k[i];
    assert k[|a.ns|] == '/' && d[|a.ns|] == '-';
    assert forall i | 0 <= i < |k| && i != |b.ns| :: b.Dashed()[i] == b.Key()[i];
  }

  /** One of them: "a-b/c" at version 1, which depends on "a-b-c-1", that is "a/b-c" at version 1. */
  lemma DashedNamespaceRepeats(rs: seq<Ref>, out: seq<string>, packs: set<Ref>)
    requires var root, dep := Ref("a-b", "c", "1"), Ref("a", "b-c", "1");
             var c: Catalogue := map[root := ["a-b-c-1"], dep := []];
             Pins(c, root, rs, out) && ClosedUnderDeps(c, root, rs, packs) && Skips(c, root, rs, packs)
    ensures !OncePinned(rs)
  {
    hide *;
    var root, dep := Ref("a-b", "c", "1"), Ref("a", "b-c", "1");
    SameDashes(root, dep);
    ShortIsNoPack(dep.name);
    PlainReads(dep);
    DashedReads(root);
    DashedReads(dep);
    NotPlain(root);
    TwoPackagesAre(root);
    DashedRootAlwaysRepeats(root);
  }

  lemma SameDashes(root: Ref, dep: Ref)
    requires root == Ref("a-b", "c", "1") && dep == Ref("a", "b-c", "1")
    ensures root.Dashed() == "a-b-c-1" == dep.Dashed()
    ensures '-' in root.ns && Plain(dep)
  {
    hide ParseRef, IsPack, Read;
    assert root.ns[1] == '-';
  }

  lemma ShortIsNoPack(name: string)
    requires |name| < 11
    ensures !IsPack(name)
  {
    assert |ToLower(name)| == |name|;
  }

  lemma NotPlain(r: Ref)
    requires '-' in r.ns
    ensures !Plain(r)
  {
  }

  lemma TwoRefs(c: Catalogue, root: Ref, dep: Ref)
    requires root.Key() != dep.Key() && c == map[root := [dep.Dashed()], dep := []]
             && ParseRef(dep.Dashed()) == Some(dep)
    ensures OneVersion(c, root)
    ensures forall x | Reaches(Asks(c), root, x) :: x in c
  {
    hide Reaches, Asks, IsPack, Read, ParseRef;
    AsksDeps(c, root);
    AsksDeps(c, dep);
    forall x | Reaches(Asks(c), root, x) ensures x in {root, dep} {
      ReachesStays(Asks(c), {root, dep}, root, x);
    }
  }

  // ---- the lines ---------------------------------------------------------------

  /** A PACK is any name that starts with "BepInExPack", in any case. */
  lemma PackNames(name: string, rest: string)
    ensures IsPack("BepInExPack" + rest) && IsPack("bepinexpack" + rest)
    ensures IsPack(name) <==> |name| >= 11 && forall i | 0 <= i < 11 :: LowerChar(name[i]) == "bepinexpack"[i]
  {
    PackPrefix("BepInExPack" + rest);
    PackPrefix("bepinexpack" + rest);
    PackPrefix(name);
    PackLetters(rest);
  }

  lemma PackPrefix(name: string)
    ensures IsPack(name) <==> |name| >= 11 && forall i | 0 <= i < 11 :: LowerChar(name[i]) == "bepinexpack"[i]
  {
    var lower, word := ToLower(name), "bepinexpack";
    if |name| >= 11 && forall i | 0 <= i < 11 :: LowerChar(name[i]) == word[i] {
      assert lower[..11] == word;
    }
    if word <= lower {
      assert forall i | 0 <= i < 11 :: lower[i] == word[i];
    }
  }

  lemma PackLetters(rest: string)
    ensures var a, b := "BepInExPack" + rest, "bepinexpack" + rest;
            forall i | 0 <= i < 11 :: LowerChar(a[i]) == "bepinexpack"[i] && LowerChar(b[i]) == "bepinexpack"[i]
  {
    var a, b := "BepInExPack", "bepinexpack";
    assert forall i | 0 <= i < 11 :: (a + rest)[i] == a[i] && (b + rest)[i] == b[i];
  }

  /** A PINNED LINE READS AS THE REFERENCE IT PINS, on any game, when its name and version hold no slash. */
  lemma LineReads(r: Ref, game: ModRefs.Game)
    requires r.ns != "" && r.ver != "" && '/' !in r.name && '/' !in r.ver
             && ModRefs.Outright(r.ns + "/" + r.name + "/" + r.ver)
    ensures ModRefs.ParseModRef(r.Line(), game) == Some(ModRefs.ModRef(r.ns, r.name, r.ver))
  {
    hide ModRefs.ParseModRef, ModRefs.Outright;
    var m := ModRefs.ModRef(r.ns, r.name, r.ver);
    ModRefs.EntryReads(m, game);
  }
}
