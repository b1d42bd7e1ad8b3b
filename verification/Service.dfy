/** Editing a world's overrides: internal/app/bepinex/service.go, and the document edits of
    SaveConfig and DeleteConfig in internal/app/instances/manager.go, lines 1636-1684. */
module ConfigService {
  import opened Wrappers
  import opened Overrides
  import opened ConfigLines
  import opened ConfigFiles
  import opened OverrideText
  import opened Import

  datatype Error =
    | NotPublished | UnknownFile | StaleSnapshot | Unreadable
    | Invalid(key: SettingKey)
    | TooLarge | OtherPlugin

  datatype Change = Change(section: string, name: string, value: string, forget: bool) {
    function Key(): SettingKey {
      SettingKey(section, name)
    }
  }

  datatype View = View(config: ConfigFile, items: Items, sha256: string)

  /** The set after a list of changes, or the key that was refused. */
  function Changed(f: ConfigFile, n: Numbers, items: Items, changes: seq<Change>): Result<Items, Error> {
    if changes == [] then Ok(items)
    else
      var before, c := Changed(f, n, items, changes[..|changes| - 1]), changes[|changes| - 1];
      if before.Err? then before
      else if c.forget then Ok(before.value - {c.Key()})
      else
        var known := LookupIn(f.sections, c.Key());
        if known.Some? && !Validate(known.value, n, c.value) then Err(Invalid(c.Key()))
        else Ok(before.value[c.Key() := c.value])
  }

  /** What the stored document records for a file; no key records nothing. */
  function Stored(stored: map<string, string>, name: string): Items {
    if name in stored then Recorded(stored[name]) else map[]
  }

  /** The stored document after a set is written back: an empty set has no key. */
  ghost function Written(stored: map<string, string>, name: string, items: Items): map<string, string> {
    if items == map[] then stored - {name} else stored[name := Encoded(items)]
  }

  /** The changes ApplyImport builds from a plan's overrides. */
  function ImportChanges(os: seq<Override>): (r: seq<Change>)
    ensures |r| == |os|
    ensures forall i | 0 <= i < |os| :: r[i] == Change(os[i].section, os[i].name, os[i].value, false)
  {
    if os == [] then []
    else
      var o := os[|os| - 1];
      ImportChanges(os[..|os| - 1]) + [Change(o.section, o.name, o.value, false)]
  }

  const MAX_IMPORT: nat := 0x80000

  /** MatchesConfig: a paste that names another plugin is refused. */
  predicate MatchesConfig(generated: ConfigFile, plan: ImportPlan) {
    plan.pluginGUID == "" || generated.pluginGUID == "" || EqualFold(plan.pluginGUID, generated.pluginGUID)
  }

  type Cache = map<(string, string), ConfigFile>

  class Service {
    /** The published snapshot: every file name with its digest. */
    var published: bool
    var snapshot: map<string, string>
    /** The published files as they are on disk. */
    var files: map<string, string>
    /** The overrides the world's configs document stores. */
    var stored: map<string, string>
    var cache: Cache
    const digest: string -> string
    const numbers: Numbers

    constructor (digest: string -> string, numbers: Numbers)
      ensures Valid() && !published && cache == map[] && stored == map[]
      ensures this.digest == digest && this.numbers == numbers
    {
      published, snapshot, files, stored, cache := false, map[], map[], map[], map[];
      this.digest, this.numbers := digest, numbers;
    }

    /** Every cached file was parsed from a text with the digest it is filed under. */
    ghost predicate Valid()
      reads this`cache
    {
      forall k | k in cache && k.1 != "" :: ParsedFrom(k.0, k.1, cache[k])
    }

    ghost predicate ParsedFrom(name: string, sha256: string, f: ConfigFile) {
      exists body: string :: digest(body) == sha256 && f == FileOf(name, FileLines(body))
    }

    /** The parsed file a request is served: from the cache, or from the disk. */
    ghost function Served(name: string, sha256: string): Result<ConfigFile, Error>
      reads this
    {
      if (name, sha256) in cache then Ok(cache[(name, sha256)])
      else if name !in files then Err(Unreadable)
      else if sha256 != "" && digest(files[name]) != sha256 then Err(StaleSnapshot)
      else Ok(FileOf(name, FileLines(files[name])))
    }

    method ParsedFile(name: string, sha256: string) returns (r: Result<ConfigFile, Error>)
      requires Valid()
      modifies this`cache
      ensures Valid() && r == old(Served(name, sha256))
      ensures r.Ok? && sha256 != "" ==> ParsedFrom(name, sha256, r.value)
      ensures r.Ok? ==> (name, sha256) in cache && cache[(name, sha256)] == r.value
    {
      hide FileOf, FileLines;
      if (name, sha256) in cache {
        return Ok(cache[(name, sha256)]);
      }
      if name !in files {
        return Err(Unreadable);
      }
      var body := files[name];
      if sha256 != "" && digest(body) != sha256 {
        return Err(StaleSnapshot);
      }
      var f := ParseConfigFile(name, body);
      if |cache| > 64 {
        cache := map[];
      }
      cache := cache[(name, sha256) := f];
      return Ok(f);
    }

    ghost function ViewOf(name: string): Result<View, Error>
      reads this
    {
      if !published then Err(NotPublished)
      else if name !in snapshot then Err(UnknownFile)
      else
        match Served(name, snapshot[name])
        case Err(e) => Err(e)
        case Ok(f) => Ok(View(f, Stored(stored, name), snapshot[name]))
    }

    /** File: the parsed config with the overrides stored for it. What is shown has the digest
        the snapshot announces, though the disk may have moved on. */
    method File(name: string) returns (r: Result<View, Error>)
      requires Valid()
      modifies this`cache
      ensures Valid() && r == old(ViewOf(name))
      ensures r.Ok? && r.value.sha256 != "" ==> ParsedFrom(name, r.value.sha256, r.value.config)
      ensures r.Ok? ==> r == ViewOf(name)
    {
      hide ParsedFrom, Recorded, FileOf, FileLines;
      if !published {
        return Err(NotPublished);
      }
      if name !in snapshot {
        return Err(UnknownFile);
      }
      var f := ParsedFile(name, snapshot[name]);
      if f.Err? {
        return Err(f.error);
      }
      var items := map[];
      if name in stored {
        var parsed := ParseOverrideSet(stored[name]);
        items := parsed.items;
      }
      return Ok(View(f.value, items, snapshot[name]));
    }

    /** What an edit comes to, before it is written. */
    ghost function Edited(name: string, sha256: string, changes: seq<Change>): Result<Items, Error>
      reads this
    {
      match ViewOf(name)
      case Err(e) => Err(e)
      case Ok(view) =>
        if sha256 != "" && view.sha256 != "" && sha256 != view.sha256 then Err(StaleSnapshot)
        else Changed(view.config, numbers, view.items, changes)
    }

    lemma EditedCases(name: string, sha256: string, changes: seq<Change>)
      ensures var view := ViewOf(name);
              Edited(name, sha256, changes) ==
              if view.Err? then Err(view.error)
              else if sha256 != "" && view.value.sha256 != "" && sha256 != view.value.sha256 then Err(StaleSnapshot)
              else Changed(view.value.config, numbers, view.value.items, changes)
    {
      hide ViewOf, Changed;
    }

    /** Apply: all the changes or none; the last forgotten override takes its key with it. */
    method Apply(name: string, sha256: string, changes: seq<Change>) returns (r: Result<bool, Error>)
      requires Valid()
      modifies this`cache, this`stored
      ensures Valid()
      ensures match old(Edited(name, sha256, changes))
              case Err(e) => r == Err(e) && stored == old(stored)
              case Ok(items) => stored == Written(old(stored), name, items) && r == Ok(stored != old(stored))
    {
      hide ParsedFrom, Recorded, FileOf, FileLines, Refuses, Validate, Encoded, LookupIn, Served, Stored, Changed,
           Edited, ViewOf, Valid, Written;
      EditedCases(name, sha256, changes);
      ghost var before := stored;
      var view := File(name);
      if view.Err? {
        return Err(view.error);
      }
      if sha256 != "" && view.value.sha256 != "" && sha256 != view.value.sha256 {
        return Err(StaleSnapshot);
      }
      var set_ := new OverrideSet();
      set_.items := view.value.items;
      ghost var f := view.value.config;
      NothingChanged(f, numbers, view.value.items, changes);
      for i := 0 to |changes|
        invariant fresh(set_) && stored == old(stored) && Valid()
        invariant Changed(f, numbers, view.value.items, changes[..i]) == Ok(set_.items)
      {
        ChangedStep(f, numbers, view.value.items, changes, i);
        var c := changes[i];
        if c.forget {
          var had := set_.Unset(c.section, c.name);
          continue;
        }
        var known := Lookup(view.value.config, c.section, c.name);
        if known.Some? && !Validate(known.value, numbers, c.value) {
          ChangedStuck(f, numbers, view.value.items, changes, i + 1);
          return Err(Invalid(c.Key()));
        }
        set_.Set(c.section, c.name, c.value);
      }
      var body := set_.Encode();
      EncodedEmptiness(set_.items);
      WrittenCases(before, name, set_.items, body);
      if body == "" {
        r := Ok(name in stored);
        stored := stored - {name};
      } else if name in stored && stored[name] == body {
        r := Ok(false);
      } else {
        r := Ok(true);
        stored := stored[name := body];
      }
    }

    /** Why an import is refused, if it is: too large, no view of the file, another plugin's paste, or
        a snapshot that moved on; in this order. */
    ghost function ImportRefused(name: string, sha256: string, pasted: string): Option<Error>
      reads this
    {
      if |pasted| > MAX_IMPORT then Some(TooLarge)
      else
        match ViewOf(name)
        case Err(e) => Some(e)
        case Ok(view) =>
          if !MatchesConfig(view.config, PlanOf(view.config, numbers, pasted)) then Some(OtherPlugin)
          else if sha256 != "" && view.sha256 != "" && sha256 != view.sha256 then Some(StaleSnapshot)
          else None
    }

    /** ApplyImport: refused for those reasons and no other; validation never refuses it. An accepted
        paste becomes the changes of its plan, and the stored set becomes the old one updated with the
        plan's overrides. */
    method ApplyImport(name: string, sha256: string, pasted: string) returns (r: Result<(nat, bool), Error>)
      requires Valid()
      modifies this`cache, this`stored
      ensures Valid()
      ensures match old(ImportRefused(name, sha256, pasted))
              case Some(e) => r == Err(e) && stored == old(stored)
              case None => r.Ok? && old(ViewOf(name)).Ok?
                           && Took(old(ViewOf(name)).value, name, pasted, old(stored), r.value)
    {
      hide ParsedFrom, Recorded, FileOf, FileLines, Validate, Encoded, LookupIn, Served, Stored, PlanOf, Plan,
           Imported, Listing, Changed, EqualFold;
      if |pasted| > MAX_IMPORT {
        return Err(TooLarge);
      }
      var view := File(name);
      if view.Err? {
        return Err(view.error);
      }
      var f := view.value.config;
      var plan := PlanImport(f, numbers, pasted);
      if !MatchesConfig(f, plan) {
        return Err(OtherPlugin);
      }
      if sha256 != "" && view.value.sha256 != "" && sha256 != view.value.sha256 {
        return Err(StaleSnapshot);
      }
      PlanEntries(f, numbers, pasted);
      var wanted := exists e | e in plan.entries :: e.Wanted();
      ImportedNothing(plan.entries);
      if !wanted {
        return Ok((0, false));
      }
      var set_ := PlannedOverrides(plan.entries);
      var all := set_.All();
      ImportEdits(f, numbers, view.value.items, pasted);
      var changed := Apply(name, sha256, ImportChanges(all));
      return Ok((|all|, changed.value));
    }

    ghost predicate Took(view: View, name: string, pasted: string, before: map<string, string>, result: (nat, bool))
      reads this
    {
      var imported := Imported(Plan(view.config, numbers, pasted));
      && result.0 == |imported| && result.1 == (stored != before)
      && stored == (if imported == map[] then before else Written(before, name, view.items + imported))
    }
  }

  lemma PlanEntries(f: ConfigFile, n: Numbers, pasted: string)
    ensures PlanOf(f, n, pasted).entries == Plan(f, n, pasted)
  {
  }

  lemma WrittenCases(stored: map<string, string>, name: string, items: Items, body: string)
    requires body == Encoded(items)
    ensures Written(stored, name, items) == if items == map[] then stored - {name} else stored[name := body]
    ensures stored - {name} != stored <==> name in stored
    ensures stored[name := body] != stored <==> !(name in stored && stored[name] == body)
    ensures name in stored && stored[name] == body ==> stored[name := body] == stored
  {
    hide Encoded;
    assert name !in stored ==> stored - {name} == stored;
    assert stored[name := body][name] == body;
  }

  lemma NothingChanged(f: ConfigFile, n: Numbers, items: Items, changes: seq<Change>)
    ensures Changed(f, n, items, changes[..0]) == Ok(items) && changes[..|changes|] == changes
  {
  }

  lemma ChangedStep(f: ConfigFile, n: Numbers, items: Items, changes: seq<Change>, i: nat)
    requires i < |changes|
    ensures var before, c := Changed(f, n, items, changes[..i]), changes[i];
            var known := LookupIn(f.sections, c.Key());
            Changed(f, n, items, changes[..i + 1]) ==
            if before.Err? then before
            else if c.forget then Ok(before.value - {c.Key()})
            else if known.Some? && !Validate(known.value, n, c.value) then Err(Invalid(c.Key()))
            else Ok(before.value[c.Key() := c.value])
  {
    hide LookupIn, Validate;
    assert changes[..i + 1][..i] == changes[..i];
  }

  lemma {:induction false} ChangedStuck(f: ConfigFile, n: Numbers, items: Items, changes: seq<Change>, i: nat)
    requires i <= |changes| && Changed(f, n, items, changes[..i]).Err?
    ensures Changed(f, n, items, changes) == Changed(f, n, items, changes[..i])
  {
    hide LookupIn, Validate;
    if i == |changes| {
      assert changes[..i] == changes;
    } else {
      assert changes[..|changes| - 1][..i] == changes[..i];
      ChangedStuck(f, n, items, changes[..|changes| - 1], i);
    }
  }

  lemma EncodedEmptiness(items: Items)
    ensures Encoded(items) == "" <==> items == map[]
  {
    var os := Listing(items);
    if os != [] {
      assert EncodeLines(os) != [];
    }
  }

  lemma {:induction false} ImportedNothing(s: seq<ImportEntry>)
    ensures (exists e | e in s :: e.Wanted()) <==> Imported(s) != map[]
  {
    if s != [] {
      var p, l := s[..|s| - 1], s[|s| - 1];
      ImportedNothing(p);
      assert s == p + [l];
      assert l.Wanted() ==> l.Key() in Imported(s);
    }
  }

  /** Changes that all set, and are all accepted, update the set. */
  lemma {:induction false} SettingChanges(f: ConfigFile, n: Numbers, items: Items, os: seq<Override>)
    requires forall o | o in os ::
               var known := LookupIn(f.sections, o.Key()); known.Some? ==> Validate(known.value, n, o.value)
    ensures Changed(f, n, items, ImportChanges(os)) == Ok(items + MapOf(os))
  {
    hide LookupIn, Validate;
    if os == [] {
      assert items + map[] == items;
    } else {
      var p, o := os[..|os| - 1], os[|os| - 1];
      SettingChanges(f, n, items, p);
      assert o in os;
      assert ImportChanges(os)[..|os| - 1] == ImportChanges(p);
      UpdateUnder(items, MapOf(p), o.Key(), o.value);
    }
  }

  lemma ImportEdits(f: ConfigFile, n: Numbers, items: Items, pasted: string)
    ensures var imported := Imported(Plan(f, n, pasted));
            Changed(f, n, items, ImportChanges(Listing(imported))) == Ok(items + imported)
  {
    hide Plan, Imported, Listing, LookupIn, Validate, Changed, ImportChanges;
    var imported := Imported(Plan(f, n, pasted));
    ListingHas(imported);
    forall o | o in Listing(imported)
      ensures var known := LookupIn(f.sections, o.Key()); known.Some? ==> Validate(known.value, n, o.value)
    {
      ImportIsAccepted(f, n, pasted, o.Key());
    }
    SettingChanges(f, n, items, Listing(imported));
  }

  // ---- what is read back -----------------------------------------------------

  /** A set reads back from the document exactly when it is well formed. */
  lemma WrittenReadsBack(stored: map<string, string>, name: string, items: Items)
    ensures Stored(Written(stored, name, items), name) == items <==> WellFormed(items)
    ensures forall other | other != name :: Stored(Written(stored, name, items), other) == Stored(stored, other)
  {
    hide Recorded, Encoded;
    EncodingIsFaithful(items);
  }

  /** THE IMPORT READS BACK: the old set updated with the plan's overrides, exactly when none
      of them sits below an empty section name. */
  lemma ImportReadsBack(stored: map<string, string>, name: string, f: ConfigFile, n: Numbers, pasted: string)
    ensures var imported := Imported(Plan(f, n, pasted));
            var items := Stored(stored, name) + imported;
            Stored(Written(stored, name, items), name) == items <==> forall k | k in imported :: k.section != ""
  {
    hide Recorded, Encoded, Plan, Imported, FileOf, Written;
    var imported := Imported(Plan(f, n, pasted));
    var before := Stored(stored, name);
    WrittenReadsBack(stored, name, before + imported);
    if name in stored {
      RecordedIsWellFormed(stored[name]);
    }
    forall k | k in imported
      ensures WellFormedOverride(Override(k.section, k.name, imported[k])) <==> k.section != ""
    {
      ImportIsWellFormed(f, n, pasted, k);
    }
    WellFormedUnion(before, imported);
  }

  lemma WellFormedUnion(a: Items, b: Items)
    requires WellFormed(a)
    ensures WellFormed(a + b) <==> WellFormed(b)
  {
    hide WellFormedOverride;
    if WellFormed(a + b) {
      forall k | k in b ensures WellFormedOverride(Override(k.section, k.name, b[k])) {
        assert k in a + b;
      }
    }
  }
}
