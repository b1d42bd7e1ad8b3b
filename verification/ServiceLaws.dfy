/** What the config service refuses and what an edit leaves: internal/app/bepinex/service.go, lines
    111-287, and internal/domain/bepinex_import.go, lines 132-140. */
module ServiceLaws {
  import opened Text
  import opened Wrappers
  import opened Overrides
  import opened ConfigFiles
  import opened OverrideText
  import opened ConfigTexts
  import opened Import
  import opened ConfigService

  /** A PASTE FOR ANOTHER PLUGIN IS REFUSED, EXACTLY: when the file and the paste each announce a GUID above
      their first section, and the two differ in more than case. */
  lemma ForeignPasteRefused(c: Service, name: string, sha256: string, pasted: string, body: string,
                            guid: string, other: string)
    requires c.ViewOf(name).Ok? && c.ViewOf(name).value.config == FileOf(name, FileLines(body))
    requires Announces(FileLines(body), guid) && Announces(FileLines(pasted), other)
    ensures var r, published := c.ImportRefused(name, sha256, pasted), c.ViewOf(name).value.sha256;
            && (r == Some(TooLarge) <==> |pasted| > 512 * 1024)
            && (|pasted| <= 512 * 1024 ==>
                  (r == Some(OtherPlugin) <==> guid != "" && other != "" && ToLower(guid) != ToLower(other)))
            && (|pasted| <= 512 * 1024 && r != Some(OtherPlugin) ==>
                  r == if sha256 != "" && published != "" && sha256 != published then Some(StaleSnapshot) else None)
  {
    GuidReads(FileLines(body), guid);
    GuidReads(FileLines(pasted), other);
    PluginsAre(name, body, c.numbers, pasted);
    hide Announces, Parsed, FileOf, FileLines, PlanOf, ToLower;
  }

  lemma PluginsAre(name: string, body: string, n: Numbers, pasted: string)
    ensures var f := FileOf(name, FileLines(body));
            && f.pluginGUID == Parsed(FileLines(body)).pluginGUID
            && PlanOf(f, n, pasted).pluginGUID == Parsed(FileLines(pasted)).pluginGUID
  {
    hide Parsed, FileLines, Plan;
  }

  // ---- edits -------------------------------------------------------------------

  /** The last change of a key. */
  function LastChange(changes: seq<Change>, k: SettingKey): Option<Change> {
    if changes == [] then None
    else if changes[|changes| - 1].section == k.section && changes[|changes| - 1].name == k.name then
      Some(changes[|changes| - 1])
    else LastChange(changes[..|changes| - 1], k)
  }

  /** A change that would set a declared setting to a value it refuses. */
  predicate Unacceptable(f: ConfigFile, n: Numbers, c: Change) {
    !c.forget && var known := LookupIn(f.sections, SettingKey(c.section, c.name));
                 known.Some? && Refuses(known.value, n, c.value).Some?
  }

  /** WHAT AN EDIT LEAVES, key by key: the value of the key's last change, nothing when that forgets it, and
      what was there when no change names it. It fails just when some change is not acceptable. */
  lemma {:induction false} EditLeaves(f: ConfigFile, n: Numbers, items: Items, changes: seq<Change>)
    ensures Changed(f, n, items, changes).Err? <==> exists c :: c in changes && Unacceptable(f, n, c)
    ensures Changed(f, n, items, changes).Ok? ==>
              forall k :: var now, last := Changed(f, n, items, changes).value, LastChange(changes, k);
                if last.None? then (k in now <==> k in items) && (k in items ==> now[k] == items[k])
                else if last.value.forget then k !in now
                else k in now && now[k] == last.value.value
  {
    if changes != [] {
      hide LookupIn, Refuses;
      var m := |changes| - 1;
      EditLeaves(f, n, items, changes[..m]);
      assert changes == changes[..m] + [changes[m]];
      assert forall c :: c in changes <==> c in changes[..m] || c == changes[m];
      assert changes[m].Key() == SettingKey(changes[m].section, changes[m].name);
      assert Changed(f, n, items, changes[..m]).Ok? ==>
        (Changed(f, n, items, changes).Err? <==> Unacceptable(f, n, changes[m]));
    }
  }

  // ---- views -------------------------------------------------------------------

  /** WHAT A VIEW SHOWS, when the file is not cached: the published file on disk, provided its digest is the
      announced one, with the overrides stored for it. */
  lemma ViewFromDisk(c: Service, name: string)
    requires forall k | k in c.cache :: k.0 != name
    ensures var r := c.ViewOf(name);
            && (r == Err(NotPublished) <==> !c.published)
            && (r == Err(UnknownFile) <==> c.published && name !in c.snapshot)
            && (r == Err(Unreadable) <==> c.published && name in c.snapshot && name !in c.files)
            && (r == Err(StaleSnapshot) <==>
                  && c.published && name in c.snapshot && name in c.files
                  && c.snapshot[name] != "" && c.digest(c.files[name]) != c.snapshot[name])
            && (r.Ok? ==>
                  && r.value.sha256 == c.snapshot[name] && name in c.files
                  && r.value.config == FileOf(name, FileLines(c.files[name]))
                  && r.value.items == if name in c.stored then Recorded(c.stored[name]) else map[])
  {
    hide FileOf, FileLines, Recorded;
  }

  /** A cached file is served for the digest it has, wherever the disk has moved on. */
  lemma ViewFromCache(c: Service, name: string)
    requires c.published && name in c.snapshot && (name, c.snapshot[name]) in c.cache
    ensures c.ViewOf(name).Ok? && c.ViewOf(name).value.sha256 == c.snapshot[name]
    ensures c.ViewOf(name).value.config == c.cache[(name, c.snapshot[name])]
    ensures c.ViewOf(name).value.items == if name in c.stored then Recorded(c.stored[name]) else map[]
  {
    hide FileOf, FileLines, Recorded;
  }

  /** AN EDIT IS REFUSED when the file cannot be viewed, when it was made against another digest than the
      announced one, or when one of its changes is not acceptable; in this order. */
  lemma EditRefused(c: Service, name: string, sha256: string, changes: seq<Change>)
    ensures var r, view := c.Edited(name, sha256, changes), c.ViewOf(name);
            && (view.Err? ==> r == Err(view.error))
            && (view.Ok? && sha256 != "" && view.value.sha256 != "" && sha256 != view.value.sha256 ==>
                  r == Err(StaleSnapshot))
            && (view.Ok? && (sha256 == "" || view.value.sha256 == "" || sha256 == view.value.sha256) ==>
                  (r.Err? <==> exists x :: x in changes && Unacceptable(view.value.config, c.numbers, x)))
  {
    hide LookupIn, Refuses;
    if c.ViewOf(name).Ok? {
      EditLeaves(c.ViewOf(name).value.config, c.numbers, c.ViewOf(name).value.items, changes);
    }
  }
}
