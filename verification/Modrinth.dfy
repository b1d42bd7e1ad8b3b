/** Resolving a Modrinth project: internal/infra/content/modrinth/client.go, lines 292-344. */
module Modrinth {
  import opened Graph
  import opened Sets
  import opened Wrappers

  datatype Dependency = Dependency(required: bool, projectID: Option<string>)

  /** What the API answers: the dependencies of a project's newest version for this world, or
      for any Minecraft version, and the slug of a project. */
  datatype Catalogue = Catalogue(
    exact: map<string, seq<Dependency>>,
    anyVersion: map<string, seq<Dependency>>,
    slugs: map<string, string>)

  /** The newest version's dependencies, with the fallback; a project without versions has none. */
  function DepsOf(c: Catalogue, project: string): seq<Dependency> {
    if project in c.exact then c.exact[project]
    else if project in c.anyVersion then c.anyVersion[project]
    else []
  }

  /** The project a dependency asks for, if it is required and known. */
  function Wanted(c: Catalogue, d: Dependency): Option<string> {
    if d.required && d.projectID.Some? && d.projectID.value in c.slugs then Some(c.slugs[d.projectID.value]) else None
  }

  /** The projects the catalogue knows; any other has no versions and needs nothing. */
  function Requires(c: Catalogue): Edges<string> {
    map p | p in c.exact.Keys + c.anyVersion.Keys ::
      set i | 0 <= i < |DepsOf(c, p)| && Wanted(c, DepsOf(c, p)[i]).Some? :: Wanted(c, DepsOf(c, p)[i]).value
  }

  ghost predicate Lists(s: seq<string>, members: set<string>) {
    Distinct(s) && forall x :: x in s <==> x in members
  }

  /** Everything visited since before has its dependencies visited too, and is needed by root. */
  ghost predicate Explored(c: Catalogue, root: string, before: set<string>, visited: set<string>) {
    && before <= visited
    && (forall v, d | v in visited - before && d in Next(Requires(c), v) :: d in visited)
    && (forall v | v in visited - before :: Reaches(Requires(c), root, v))
  }

  /** The state the recursive closure shares between its calls. */
  class Traversal {
    const c: Catalogue
    const root: string
    ghost const all: set<string>
    var visited: set<string>
    var resolved: seq<string>

    constructor (c: Catalogue, root: string)
      ensures this.c == c && this.root == root && visited == {} && resolved == []
      ensures all == {root} + c.slugs.Values
    {
      this.c, this.root := c, root;
      all := {root} + c.slugs.Values;
      visited, resolved := {}, [];
    }

    ghost predicate Valid()
      reads this
    {
      visited <= all && c.slugs.Values <= all
    }

    /** traverse: depth first; the caller has already listed curr if it is new. */
    method Traverse(curr: string)
      requires Valid() && curr in all && Reaches(Requires(c), root, curr)
      requires Lists(resolved, visited + {curr} - {root}) && root in visited + {curr}
      modifies this`visited, this`resolved
      ensures Valid() && curr in visited && Explored(c, root, old(visited), visited)
      ensures Lists(resolved, visited - {root})
      decreases |all - visited|
    {
      hide Reaches, Next, Requires, Lists, DepsOf, Wanted;
      if curr in visited {
        assert visited + {curr} - {root} == visited - {root};
        return;
      }
      Smaller(all, visited, curr);
      visited := visited + {curr};
      ghost var entered := visited;
      var deps := DepsOf(c, curr);
      for i := 0 to |deps|
        invariant Valid() && entered <= visited
        invariant Explored(c, root, entered, visited)
        invariant Lists(resolved, visited - {root})
        invariant forall j | 0 <= j < i :: Wanted(c, deps[j]).Some? ==> Wanted(c, deps[j]).value in visited
        invariant |all - visited| <= |all - entered|
      {
        var wanted := Wanted(c, deps[i]);
        if wanted == None {
          continue;
        }
        var slug := wanted.value;
        WantedNeeded(c, root, all, curr, i);
        ghost var before := visited;
        if slug !in visited {
          ListsMore(resolved, visited, root, slug);
          resolved := resolved + [slug];
        } else {
          assert visited + {slug} == visited;
        }
        Traverse(slug);
        ExploredTwice(c, root, entered, before, visited);
        Shrinks(all, before, visited);
      }
      AllWanted(c, curr, visited);
      ExploredEntered(c, root, old(visited), curr, visited);
    }
  }

  lemma WantedNeeded(c: Catalogue, root: string, all: set<string>, curr: string, i: nat)
    requires c.slugs.Values <= all && Reaches(Requires(c), root, curr)
    requires i < |DepsOf(c, curr)| && Wanted(c, DepsOf(c, curr)[i]).Some?
    ensures Wanted(c, DepsOf(c, curr)[i]).value in all
    ensures Reaches(Requires(c), root, Wanted(c, DepsOf(c, curr)[i]).value)
  {
    ReachesStep(Requires(c), root, curr, Wanted(c, DepsOf(c, curr)[i]).value);
  }

  lemma ListsMore(s: seq<string>, visited: set<string>, root: string, slug: string)
    requires Lists(s, visited - {root}) && slug !in visited && root in visited
    ensures Lists(s + [slug], visited + {slug} - {root})
  {
    var t := s + [slug];
    forall x ensures x in t <==> x in visited + {slug} - {root} {
      assert x in t <==> x in s || x == slug;
    }
    forall i | 0 <= i < |s| ensures s[i] != slug {
      assert s[i] in s;
    }
  }

  lemma ExploredTwice(c: Catalogue, root: string, a: set<string>, b: set<string>, visited: set<string>)
    requires Explored(c, root, a, b) && Explored(c, root, b, visited)
    ensures Explored(c, root, a, visited)
  {
    hide Reaches, Next, Requires;
    forall v, d | v in visited - a && d in Next(Requires(c), v) ensures d in visited {
      if v in b {
        assert v in b - a;
      } else {
        assert v in visited - b;
      }
    }
    forall v | v in visited - a ensures Reaches(Requires(c), root, v) {
      if v in b {
        assert v in b - a;
      } else {
        assert v in visited - b;
      }
    }
  }

  lemma Shrinks(all: set<string>, before: set<string>, visited: set<string>)
    requires before <= visited
    ensures |all - visited| <= |all - before|
  {
    assert all - before == (all - visited) + (all * (visited - before));
  }

  /** curr itself is explored once all its dependencies have been handled. */
  lemma ExploredEntered(c: Catalogue, root: string, before: set<string>, curr: string, visited: set<string>)
    requires Explored(c, root, before + {curr}, visited) && Reaches(Requires(c), root, curr)
    requires forall d | d in Next(Requires(c), curr) :: d in visited
    ensures Explored(c, root, before, visited)
  {
    hide Reaches, Next, Requires;
    forall v | v in visited - before ensures v == curr || v in visited - (before + {curr}) {
    }
  }

  lemma AllWanted(c: Catalogue, curr: string, visited: set<string>)
    requires forall j | 0 <= j < |DepsOf(c, curr)| ::
               Wanted(c, DepsOf(c, curr)[j]).Some? ==> Wanted(c, DepsOf(c, curr)[j]).value in visited
    ensures forall d | d in Next(Requires(c), curr) :: d in visited
  {
  }

  /** The dependencies that count for a project: those of its newest exact version, or of any version. */
  ghost predicate DependsOn(c: Catalogue, project: string, d: Dependency) {
    if project in c.exact then d in c.exact[project]
    else project in c.anyVersion && d in c.anyVersion[project]
  }

  /** The slug is that of a project some dependency of p requires. */
  ghost predicate RequiresSlug(c: Catalogue, p: string, slug: string) {
    exists d, id :: DependsOn(c, p, d) && d.required == true && d.projectID == Some(id) && id in c.slugs
                    && c.slugs[id] == slug
  }

  /** The list by the catalogue's fields: everything listed is required by the root or something listed, and
      everything these require, with a known slug, is listed or the root. */
  ghost predicate ListsRequired(c: Catalogue, root: string, resolved: seq<string>) {
    && (forall x | x in resolved :: exists p :: (p == root || p in resolved) && RequiresSlug(c, p, x))
    && forall p, x | (p == root || p in resolved) && RequiresSlug(c, p, x) :: x in resolved || x == root
  }

  lemma RequiresMeans(c: Catalogue, p: string, slug: string)
    ensures RequiresSlug(c, p, slug) <==> slug in Next(Requires(c), p)
  {
    var deps := DepsOf(c, p);
    if RequiresSlug(c, p, slug) {
      var d, id :| DependsOn(c, p, d) && d.required == true && d.projectID == Some(id) && id in c.slugs
        && c.slugs[id] == slug;
      var i :| 0 <= i < |deps| && deps[i] == d;
      assert Wanted(c, deps[i]) == Some(slug);
    }
    if slug in Next(Requires(c), p) {
      var i :| 0 <= i < |deps| && Wanted(c, deps[i]) == Some(slug);
      assert DependsOn(c, p, deps[i]) && c.slugs[deps[i].projectID.value] == slug;
    }
  }

  lemma ReachedFrom(c: Catalogue, root: string, x: string) returns (p: string)
    requires Reaches(Requires(c), root, x) && x != root
    ensures Reaches(Requires(c), root, p) && x in Next(Requires(c), p)
  {
    hide Next, Requires;
    var path :| IsPath(Requires(c), path, root, x);
    var n := |path| - 2;
    p := path[n];
    assert path[n + 1] in Next(Requires(c), path[n]);
    assert IsPath(Requires(c), path[..n + 1], root, p);
  }

  lemma ReachedLists(c: Catalogue, root: string, resolved: seq<string>)
    requires forall x :: x in resolved <==> x != root && Reaches(Requires(c), root, x)
    ensures ListsRequired(c, root, resolved)
  {
    hide Reaches, Next, Requires, RequiresSlug;
    ReachesItself(Requires(c), root);
    forall x | x in resolved ensures exists p :: (p == root || p in resolved) && RequiresSlug(c, p, x) {
      var p := ReachedFrom(c, root, x);
      RequiresMeans(c, p, x);
    }
    forall p, x | (p == root || p in resolved) && RequiresSlug(c, p, x) ensures x in resolved || x == root {
      RequiresMeans(c, p, x);
      ReachesStep(Requires(c), root, p, x);
    }
  }

  /** EXACT CLOSURE. What is resolved for a project is every project it needs over required
      dependencies but itself, each once; cycles and unknown projects included. */
  method ResolveRequiredDependencies(c: Catalogue, root: string) returns (resolved: seq<string>)
    ensures Distinct(resolved)
    ensures forall x :: x in resolved <==> x != root && Reaches(Requires(c), root, x)
    ensures ListsRequired(c, root, resolved)
  {
    hide Reaches, Next, Requires, ListsRequired;
    var t := new Traversal(c, root);
    ReachesItself(Requires(c), root);
    t.Traverse(root);
    resolved := t.resolved;
    ghost var visited := t.visited;
    assert Explored(c, root, {}, visited);
    forall v, d | v in visited && d in Next(Requires(c), v) ensures d in visited {
      assert v in visited - {};
    }
    forall x ensures x in visited <==> Reaches(Requires(c), root, x) {
      if Reaches(Requires(c), root, x) {
        ReachesStays(Requires(c), visited, root, x);
      }
      if x in visited {
        assert x in visited - {};
      }
    }
    ReachedLists(c, root, resolved);
  }
}
