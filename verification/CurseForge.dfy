/** Resolving a CurseForge mod: internal/infra/content/curseforge/client.go, lines 308-365. */
module CurseForge {
  import opened Graph
  import opened Sets
  import opened Wrappers

  datatype Mod = Mod(id: int, slug: string, restricted: bool)

  datatype Dependency = Dependency(modID: int, required: bool)

  datatype ModFile = ModFile(id: int, dependencies: seq<Dependency>)

  /** What the API answers: a mod by its id, and its newest file for one world. */
  datatype Catalogue = Catalogue(mods: map<int, Mod>, files: map<int, ModFile>)

  /** One line of the mod list, "slug:file". */
  datatype Entry = Entry(slug: string, fileID: int)

  datatype Error = NotFound | Restricted(id: int) | NoFile(id: int) | Unknown(id: int)

  /** The mods a mod's newest file requires. */
  function Requires(c: Catalogue): Edges<int> {
    map id | id in c.files ::
      set i | 0 <= i < |c.files[id].dependencies| && c.files[id].dependencies[i].required
        :: c.files[id].dependencies[i].modID
  }

  /** The slug is known without asking, unless the root has none. */
  predicate SlugKnown(root: Mod, id: int) {
    id == root.id && root.slug != ""
  }

  /** What resolving demands of every mod in the tree. */
  predicate Installable(c: Catalogue, root: Mod, id: int) {
    id in c.files && (SlugKnown(root, id) || (id in c.mods && !c.mods[id].restricted))
  }

  function EntryFor(c: Catalogue, root: Mod, id: int): Entry
    requires Installable(c, root, id)
  {
    Entry(if SlugKnown(root, id) then root.slug else c.mods[id].slug, c.files[id].id)
  }

  /** Every mod but the first is required by an earlier one. */
  ghost predicate Discovered(c: Catalogue, root: Mod, ids: seq<int>) {
    forall i | 0 <= i < |ids| ::
      ids[i] == root.id || exists j :: 0 <= j < i && ids[i] in Next(Requires(c), ids[j])
  }

  /** ids are the mods out pins, one entry each. */
  ghost predicate Pins(c: Catalogue, root: Mod, ids: seq<int>, out: seq<Entry>) {
    && |out| == |ids| && Distinct(ids) && Discovered(c, root, ids)
    && forall i | 0 <= i < |ids| :: Installable(c, root, ids[i]) && out[i] == EntryFor(c, root, ids[i])
  }

  /** The pins by the catalogue's fields: the newest file of each mod under its slug, and just the mods that a
      pinned one's newest file requires. */
  ghost predicate PinsFiles(c: Catalogue, root: Mod, ids: seq<int>, out: seq<Entry>) {
    && |out| == |ids|
    && (forall i | 0 <= i < |ids| :: ids[i] in c.files && out[i].fileID == c.files[ids[i]].id)
    && (forall i | 0 <= i < |ids| && ids[i] == root.id && root.slug != "" :: out[i].slug == root.slug)
    && (forall i | 0 <= i < |ids| && (ids[i] != root.id || root.slug == "") ::
          ids[i] in c.mods && !c.mods[ids[i]].restricted && out[i].slug == c.mods[ids[i]].slug)
    && (forall i | 0 <= i < |ids| && ids[i] != root.id :: exists j :: 0 <= j < i && RequiresMod(c, ids[j], ids[i]))
    && forall j, d | 0 <= j < |ids| && RequiresMod(c, ids[j], d) :: d in ids
  }

  ghost predicate RequiresMod(c: Catalogue, id: int, d: int) {
    id in c.files && exists dep :: dep in c.files[id].dependencies && dep.required == true && dep.modID == d
  }

  /** An error names a mod the root needs and what is wrong with it. */
  ghost predicate Blames(c: Catalogue, root: Mod, e: Error) {
    match e
    case NotFound => false
    case NoFile(id) => Reaches(Requires(c), root.id, id) && id !in c.files
    case Unknown(id) => Reaches(Requires(c), root.id, id) && id in c.files && id !in c.mods
    case Restricted(id) => Reaches(Requires(c), root.id, id) && id in c.files && id in c.mods && c.mods[id].restricted
  }

  lemma RequiresMeans(c: Catalogue, id: int, d: int)
    ensures RequiresMod(c, id, d) <==> d in Next(Requires(c), id)
  {
    if id in c.files {
      var deps := c.files[id].dependencies;
      if RequiresMod(c, id, d) {
        var dep :| dep in deps && dep.required == true && dep.modID == d;
        var i :| 0 <= i < |deps| && deps[i] == dep;
      }
    }
  }

  lemma EntryIs(c: Catalogue, root: Mod, id: int)
    requires Installable(c, root, id)
    ensures id in c.files && (id != root.id || root.slug == "" ==> id in c.mods)
    ensures EntryFor(c, root, id) ==
            Entry(if id == root.id && root.slug != "" then root.slug else c.mods[id].slug, c.files[id].id)
  {
  }

  lemma BlamesOne(c: Catalogue, root: Mod, id: int)
    requires Reaches(Requires(c), root.id, id)
    ensures id !in c.files ==> Blames(c, root, NoFile(id))
    ensures id in c.files && id !in c.mods ==> Blames(c, root, Unknown(id))
    ensures id in c.files && id in c.mods && c.mods[id].restricted ==> Blames(c, root, Restricted(id))
  {
    hide Reaches, Requires;
  }

  lemma PinnedFiles(c: Catalogue, root: Mod, ids: seq<int>, out: seq<Entry>)
    requires Pins(c, root, ids, out) && root.id in ids
    requires forall id :: id in ids <==> Reaches(Requires(c), root.id, id)
    ensures PinsFiles(c, root, ids, out)
  {
    hide Reaches, Next, Requires, RequiresMod;
    forall i | 0 <= i < |ids| && ids[i] != root.id ensures exists j :: 0 <= j < i && RequiresMod(c, ids[j], ids[i]) {
      var j :| 0 <= j < i && ids[i] in Next(Requires(c), ids[j]);
      RequiresMeans(c, ids[j], ids[i]);
    }
    forall j, d | 0 <= j < |ids| && RequiresMod(c, ids[j], d) ensures d in ids {
      RequiresMeans(c, ids[j], d);
      ReachesStep(Requires(c), root.id, ids[j], d);
    }
  }

  /** The search so far: what is done, and what is still asked for. */
  ghost predicate Searching(c: Catalogue, root: Mod, ids: seq<int>, queue: seq<int>) {
    && (root.id in ids || (root.id in queue && ids == []))
    && (forall id | id in ids ::
          Reaches(Requires(c), root.id, id) && forall d | d in Next(Requires(c), id) :: d in ids || d in queue)
    && (forall id | id in queue :: Reaches(Requires(c), root.id, id)
                                   && (id == root.id || exists j :: 0 <= j < |ids| && id in Next(Requires(c), ids[j])))
  }

  /** EXACT CLOSURE. Resolve succeeds exactly when every mod the root reaches over required
      dependencies is installable, and then pins each of them once and nothing else. */
  method Resolve(c: Catalogue, found: Option<Mod>) returns (r: Result<seq<Entry>, Error>, ghost ids: seq<int>)
    ensures found == None ==> r == Err(NotFound)
    ensures found.Some? && found.value.restricted ==> r == Err(Restricted(found.value.id))
    ensures found.Some? && !found.value.restricted ==>
              var root := found.value;
              && (r.Ok? <==> forall id | Reaches(Requires(c), root.id, id) :: Installable(c, root, id))
              && (r.Ok? ==> Pins(c, root, ids, r.value) && ids != [] && ids[0] == root.id
                            && forall id :: id in ids <==> Reaches(Requires(c), root.id, id))
              && (r.Ok? ==> PinsFiles(c, root, ids, r.value))
              && (r.Err? ==> Blames(c, root, r.error))
  {
    hide *;
    ids := [];
    if found == None {
      return Err(NotFound), ids;
    }
    var root := found.value;
    if root.restricted {
      return Err(Restricted(root.id)), ids;
    }
    var out: seq<Entry> := [];
    var seen: set<int> := {};
    var queue := [root.id];
    var slugs := map[root.id := root.slug];
    SearchStart(c, root);
    while |queue| > 0
      invariant forall id :: id in seen <==> id in ids
      invariant Pins(c, root, ids, out) && Searching(c, root, ids, queue)
      invariant slugs.Keys <= seen + {root.id}
      invariant root.id in slugs && (root.id !in seen ==> slugs[root.id] == root.slug)
      decreases |c.files.Keys - seen|, |queue|
    {
      var id := queue[0];
      if id in seen {
        SearchSkip(c, root, ids, queue);
        queue := queue[1..];
        continue;
      }
      SearchReaches(c, root, ids, queue);
      InstallableParts(c, root, id);
      BlamesOne(c, root, id);
      if id !in c.files {
        return Err(NoFile(id)), ids;
      }
      var file := c.files[id];
      var slug := if id in slugs then slugs[id] else "";
      if slug == "" {
        if id !in c.mods {
          return Err(Unknown(id)), ids;
        }
        if c.mods[id].restricted {
          return Err(Restricted(id)), ids;
        }
        slug := c.mods[id].slug;
        slugs := slugs[id := slug];
      }
      Smaller(c.files.Keys, seen, id);
      seen := seen + {id};
      var next := Enqueue(c, id, queue[1..], seen);
      SearchStep(c, root, ids, queue, next);
      PinsStep(c, root, ids, out, id);
      EntryIs(c, root, id);
      out := out + [Entry(slug, file.id)];
      ids := ids + [id];
      queue := next;
    }
    SearchEnd(c, root, ids, seen);
    PinsInstallable(c, root, ids, out);
    PinnedFiles(c, root, ids, out);
    r := Ok(out);
  }

  /** The inner loop: requirements not yet done are asked for. */
  method Enqueue(c: Catalogue, id: int, queue: seq<int>, seen: set<int>) returns (next: seq<int>)
    requires id in c.files
    ensures forall q | q in queue :: q in next
    ensures forall q | q in next :: q in queue || q in Next(Requires(c), id)
    ensures forall d | d in Next(Requires(c), id) :: d in seen || d in next
  {
    var deps := c.files[id].dependencies;
    next := queue;
    for i := 0 to |deps|
      invariant forall q | q in queue :: q in next
      invariant forall q | q in next :: q in queue || q in Next(Requires(c), id)
      invariant forall j | 0 <= j < i && deps[j].required :: deps[j].modID in seen || deps[j].modID in next
    {
      if deps[i].required && deps[i].modID !in seen {
        next := next + [deps[i].modID];
      }
    }
    forall d | d in Next(Requires(c), id) ensures d in seen || d in next {
      var i :| 0 <= i < |deps| && deps[i].required && deps[i].modID == d;
    }
  }

  lemma SearchStart(c: Catalogue, root: Mod)
    ensures Searching(c, root, [], [root.id]) && Pins(c, root, [], [])
  {
    ReachesItself(Requires(c), root.id);
  }

  lemma SearchSkip(c: Catalogue, root: Mod, ids: seq<int>, queue: seq<int>)
    requires Searching(c, root, ids, queue) && queue != [] && queue[0] in ids
    ensures Searching(c, root, ids, queue[1..])
  {
    hide Reaches, Next, Requires;
    assert queue == [queue[0]] + queue[1..];
    forall id | id in queue[1..] ensures id in queue {
    }
  }

  lemma SearchReaches(c: Catalogue, root: Mod, ids: seq<int>, queue: seq<int>)
    requires Searching(c, root, ids, queue) && queue != []
    ensures Reaches(Requires(c), root.id, queue[0])
  {
    hide Reaches, Next, Requires;
    assert forall id | id in queue :: Reaches(Requires(c), root.id, id);
    assert queue[0] in queue;
  }

  lemma InstallableParts(c: Catalogue, root: Mod, id: int)
    ensures Installable(c, root, id) <==>
            id in c.files && ((id == root.id && root.slug != "") || (id in c.mods && !c.mods[id].restricted))
  {
  }

  /** One mod handled: its requirements are queued, or done. */
  lemma SearchStep(c: Catalogue, root: Mod, ids: seq<int>, queue: seq<int>, next: seq<int>)
    requires Searching(c, root, ids, queue) && queue != []
    requires forall q | q in queue[1..] :: q in next
    requires forall q | q in next :: q in queue[1..] || q in Next(Requires(c), queue[0])
    requires forall d | d in Next(Requires(c), queue[0]) :: d in ids + [queue[0]] || d in next
    ensures Searching(c, root, ids + [queue[0]], next)
    ensures queue[0] == root.id || exists j :: 0 <= j < |ids| && queue[0] in Next(Requires(c), ids[j])
  {
    hide Reaches, Next, Requires;
    var id, all := queue[0], ids + [queue[0]];
    assert queue == [id] + queue[1..];
    assert id in queue;
    forall x | x in all
      ensures Reaches(Requires(c), root.id, x) && forall d | d in Next(Requires(c), x) :: d in all || d in next
    {
    }
    forall x | x in next
      ensures Reaches(Requires(c), root.id, x)
      ensures x == root.id || exists j :: 0 <= j < |all| && x in Next(Requires(c), all[j])
    {
      if x in queue[1..] {
        assert x in queue;
        if x != root.id {
          var j :| 0 <= j < |ids| && x in Next(Requires(c), ids[j]);
          assert all[j] == ids[j];
        }
      } else {
        ReachesStep(Requires(c), root.id, id, x);
        assert all[|ids|] == id;
      }
    }
    if ids == [] {
      assert id == root.id;
    }
  }

  lemma PinsStep(c: Catalogue, root: Mod, ids: seq<int>, out: seq<Entry>, id: int)
    requires Pins(c, root, ids, out) && id !in ids && Installable(c, root, id)
    requires id == root.id || exists j :: 0 <= j < |ids| && id in Next(Requires(c), ids[j])
    ensures Pins(c, root, ids + [id], out + [EntryFor(c, root, id)])
  {
    hide Installable, Next, Requires, Discovered, EntryFor;
    DiscoveredStep(c, root, ids, id);
  }

  lemma DiscoveredStep(c: Catalogue, root: Mod, ids: seq<int>, id: int)
    requires Discovered(c, root, ids)
    requires id == root.id || exists j :: 0 <= j < |ids| && id in Next(Requires(c), ids[j])
    ensures Discovered(c, root, ids + [id])
  {
    hide Next, Requires;
    var all := ids + [id];
    forall i | 0 <= i < |all|
      ensures all[i] == root.id || exists j :: 0 <= j < i && all[i] in Next(Requires(c), all[j])
    {
      if i < |ids| {
        assert all[i] == ids[i];
        if ids[i] != root.id {
          var j :| 0 <= j < i && ids[i] in Next(Requires(c), ids[j]);
          assert all[j] == ids[j];
        }
      } else if id != root.id {
        var j :| 0 <= j < |ids| && id in Next(Requires(c), ids[j]);
        assert all[j] == ids[j];
      }
    }
  }

  lemma PinsInstallable(c: Catalogue, root: Mod, ids: seq<int>, out: seq<Entry>)
    requires Pins(c, root, ids, out) && ids != []
    ensures forall id | id in ids :: Installable(c, root, id)
    ensures ids[0] == root.id
  {
    hide Installable, Next, Requires;
  }

  /** Nothing left to ask: what is done is closed, so it is all the root reaches. */
  lemma SearchEnd(c: Catalogue, root: Mod, ids: seq<int>, seen: set<int>)
    requires Searching(c, root, ids, []) && forall id :: id in seen <==> id in ids
    ensures ids != [] && forall id :: id in ids <==> Reaches(Requires(c), root.id, id)
  {
    hide Reaches, Next, Requires;
    assert root.id in ids;
    forall v, d | v in seen && d in Next(Requires(c), v) ensures d in seen {
      assert v in ids;
    }
    forall id | Reaches(Requires(c), root.id, id) ensures id in ids {
      ReachesStays(Requires(c), seen, root.id, id);
    }
  }
}
