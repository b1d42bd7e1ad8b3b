# Models and proofs of agrelha's core

agrelha runs game servers: it keeps their mods, their mod configuration, their slots and
their memory budget. This project models the parts of it that compute or keep something
difficult, and proves what they are for.

| files | what they model |
|---|---|
| `Text`, `Order`, `Sets`, `Wrappers` | splitting, joining, trimming and ordering text as Go does; small shared facts |
| `Overrides`, `OverrideText`, `ConfigLines`, `ConfigFiles`, `ConfigTexts` | BepInEx settings: the override set and its text, one config line, the config parser |
| `Merge`, `MergeLaws`, `MergeTheorems`, `MergeAgain`, `MergeBreaks`, `MergeFrame`, `MergeDir` | substituting overrides into a generated config, and a whole directory of them |
| `Import`, `ImportLaws`, `Service`, `ServiceLaws` | importing a pasted config, and the service that validates and stores edits |
| `Graph`, `CurseForge`, `Thunderstore`, `Modrinth` | the three dependency resolvers, over possibly cyclic catalogues |
| `Versions`, `McVersions`, `VersionLaws` | the two version orders |
| `ModRefs`, `ModList`, `ModListLaws` | mod references and the edits of a `mods.txt` |
| `Reports`, `Updates`, `UpdateLaws`, `UpdateOrder`, `UpdateCircles`, `UpdateTheorems`, `UpdateAnswers`, `UndoLaws` | finding, applying and undoing mod updates |
| `Instances`, `InstanceLaws`, `InstanceFields` | slots and the start budget |
| `Presence`, `Ingest`, `PresenceLaws`, `PresenceFields` | who is online, driven by the log workers |
| `Restarts`, `RestartLaws` | the queue of restarts that wait for an empty server |

Code that changes state step by step is an imperative method or a class here, proved equal to a
function of its inputs or of its old state (`MergedText`, `AfterInstall`, `AfterApply`,
`AfterCreate`, `AfterLine`, `AfterTick` and the like). The promises are then proved about those
functions for all inputs, or for every run of the state machines built from them.

`dafny verify dfyconfig.toml` checks the whole project.

## The main results

* **Merging is updating a map.** Re-reading a merged config gives the generated settings updated
  with the overrides, for every text and every override set the override parser can yield, minus
  the overrides of a section whose header is only present with padding inside its brackets: the
  code looks for the unpadded `[name]` and drops them (`MergeRefinesUpdate`). Every override takes
  effect exactly when none is dropped in this way (`EveryOverrideKept`), and every override set does
  exactly when no named header of the file is only present with padding (`UnpaddedExactly`);
  `PaddedHeaderDrops` is a family of files that lose all their overrides.
* **Merging again gives the same text, but for one kind of file:** a line that ends in a carriage
  return, is not rewritten, and stands above another line of the merged text. The second merge
  changes the text exactly then (`MergeAgainExactly`), and each further merge takes one such return
  away, so the file is at rest after as many more as the longest run of them (`RestsAfter`), which
  may be any number (`LoneReturnBreaks`). A file without stray carriage returns merges
  to a fixed point (`PlainFileSettles`), and a second pass over its directory writes nothing
  (`SecondPassWritesNothing`); into a separate directory every pass writes the same
  (`PassApartSettles`). The report is exact (`ReportMeans`, `ChangedExactly`,
  `SecondReport`), and all but the applied lines survive in order (`MergeKeepsLines`).
* **The override text keeps a set exactly when the set is well formed** (`EncodingIsFaithful`), and
  everything the parser yields is (`RecordedIsWellFormed`), so the text round trip holds for every
  stored text (`RoundTrip`).
* **Resolvers are exact closures.** CurseForge succeeds exactly when everything the root reaches is
  installable, and pins exactly that, once each. Modrinth resolves the set reachable over required
  dependencies, without the root. Both are stated on the catalogues' own fields. Thunderstore's pins are closed, and resolving fails only for a version that is asked for and
  not published. No package is pinned twice unless something the root leads to is the package the
  root's printed reference reads as (`PinnedOnce`), and then one is, on a catalogue that asks for
  each package at one version (`PinnedOnceExactly`). Every root whose namespace or version holds a
  `-`, and that does not read as a pack, has such a catalogue (`DashedRootAlwaysRepeats`).
* **Versions compare by their digits.** The text with the longer run of digits, or the later of two as
  long, in the first core segment that differs is newer (`NewerByCore`); prereleases and builds decide
  after it (`NewerByPrerelease`, `NewerByBuild`), and Minecraft versions compare alike (`McByDigits`).
* **`VersionNewer` is a strict order on versions of numbers** (`VersionOrder`). On all texts no
  version is newer than itself, and two are newer than each other only when one is a word for a
  missing version (`NewerAsymmetric`); but some versions with text in a segment go round in a circle
  (`NewerIsCircular` names three).
* **A mod reference survives printing and parsing exactly when it is `Printable`** (`EntryReads`).
  Installing a mod on its own twice changes nothing exactly when its stored line is found again
  under its mod, or reads as nothing (`InstallTwice`); a Valheim name with a slash in it, typed with
  a version, is a family of mods for which it is not (`SlashedNameDoubles`).
* **An update never loses or doubles a mod** (`UpdateTransform`, `AppliedListReads` from file to
  file), **and moves none back unless its version lies on a circle:** some update leaves a mod older
  than it was exactly when versions its entries offer, each newer than the one before, lead from the
  installed version to one that is older (`UpdateMovesBackExactly`, and `TargetMovesBackExactly` for
  the version a mod was updated to). There is no such circle among versions of numbers
  (`BestIsNewest`) nor, words for a missing version aside, when one version is offered
  (`OneOfferedVersion`); `OldVersionReturns` is an update that does move a mod back. Every update
  settles for the newest on offer exactly when two steps up are always one (`UpdateSettlesExactly`).
  Undo goes one step back exactly when the list is, entry for entry, what the update wrote
  (`UndoRefusesEdits`, `UndoRestores`), and in every run a restore point holds the list before the
  last change (`PointIsLastChange`).
* **What was asked for is what is done.** An update writes exactly the reported updates whose keys were
  given, or all of them without a key (`AppliedAsAsked`); a mod that was not asked for and is not
  offered stays (`UnaskedStays`). A paste is refused as another plugin's exactly when both texts
  announce a GUID above their first section and these differ in more than case
  (`ForeignPasteRefused`), and a start is refused for memory exactly when the world's own request and
  what the others use exceed the total (`StartOverMemory`).
* **Over every run:** instance numbers stay in their slots (`RunKeepsSlots`), what runs stays in
  the budget (`RunKeepsBudget`), presence tables, the active set, session counters and join and
  leave events agree (`RunAgrees`, `RunSessions`, `RunTakesTurns`), and a pending restart keeps the
  time of the request that queued it (`SinceIsFirstRequest`).

## Where the documentation and the code differ

The models follow the code.

* `docs/adr/0005-bepinex-configs-are-overrides-not-files.md` (lines 54-57) says only the
  right-hand side of a rewritten line changes and all else is byte-identical. The code normalises
  `\r\n` in the whole file, and rebuilds a rewritten line from its trimmed key, so an indented
  entry loses its indentation. `LeftSideKept` gives the exact condition.
* `internal/domain/mod.go:256-257` says build metadata is ignored when versions are compared. The
  code compares it last; `VersionOrder` is about the code's order.
* `internal/infra/content/curseforge/client.go:302-303` says the entries come depth first. The code
  works through a queue, so they come breadth first; the contract does not depend on it.
* `docs/plans/0001-per-instance-resources-and-tier-presets.md` (lines 151-152) says creating a world
  over the memory budget is refused. The code checks only the number of instances there; the
  budget is checked when an instance starts.

## Model

| member | source | states |
|---|---|---|
| Overrides.ListingUnique | internal/domain/bepinex.go:521-537 | a set has one sorted listing, so map iteration order never shows |
| Overrides.SortOverrides | internal/domain/bepinex.go:530-537 | sorts by section and name and keeps every override |
| OverrideText.OverrideSet.Set | internal/domain/bepinex.go:493-498 | the set becomes the old one with this key at this value |
| OverrideText.OverrideSet.Unset | internal/domain/bepinex.go:500-507 | the key is gone, nothing else is, and the answer says whether it was there |
| OverrideText.OverrideSet.All | internal/domain/bepinex.go:521-528 | the sorted listing of the set |
| OverrideText.OverrideSet.Encode | internal/domain/bepinex.go:539-556 | the set's text, which depends on the set alone |
| OverrideText.EncodedBySection | internal/domain/bepinex.go:539-556 | each section below its header, with a blank line above every header but the first |
| OverrideText.ParseOverrideSet | internal/domain/bepinex.go:558-575 | the last value of every key below a named header |
| OverrideText.RecordedIsWellFormed | internal/domain/bepinex.go:558-575 | parsed keys and sections are trimmed and non-empty, keys hold no '=' and do not start as a comment, and no entry reads as a header |
| OverrideText.EncodedReads | internal/domain/bepinex.go:539-575 | the text of a well-formed set reads back as the set, with one header per section and line breaks that stay |
| OverrideText.RoundTrip | internal/domain/bepinex.go:539-575 | for every text, parsing, encoding and parsing again gives the parsed set |
| OverrideText.EncodingIsFaithful | internal/domain/bepinex.go:539-575 | any set survives its encoding if and only if it is well formed |
| OverrideText.HeaderLikeOverrideIsLost | internal/domain/bepinex.go:539-575 | an override whose line reads as a header does not survive |
| ConfigLines.ClassifyYields | internal/domain/bepinex.go:255-292 | every header and entry the switch reads is trimmed, and an entry's key and value are as splitEntry leaves them |
| ConfigLines.RewrittenLine | internal/domain/bepinex_merge.go:43-60 | key, separator and new value read back as an entry with that value |
| ConfigFiles.ParseConfigFile | internal/domain/bepinex.go:200-295 | the loop computes the fold of its switch over the lines |
| ConfigTexts.GuidReads | internal/domain/bepinex.go:228-240 | a file's plugin GUID is that of the last line above its first section that announces one |
| ConfigTexts.GuidLineReads | internal/domain/bepinex.go:228-240 | the text "## Plugin GUID: g" announces g |
| ConfigTexts.HeaderReads | internal/domain/bepinex.go:228-240 | a file's header line names its plugin and, after the last " v", its version |
| ConfigTexts.BlockReads | internal/domain/bepinex.go:241-288 | the block of comments above an entry gives it the description, type, default, range and choices they print |
| ConfigTexts.BlockSteps | internal/domain/bepinex.go:241-288 | and nothing of a block is left for the next entry |
| ConfigTexts.WarningsExactly | internal/domain/bepinex.go:268-292 | one warning for each line with a '=' and no key, entry above the first section, or unrecognised line, with its number and text |
| ConfigFiles.Lookup | internal/domain/bepinex.go:336-348 | the first setting of the key in section order |
| ImportLaws.LookupFirst | internal/domain/bepinex.go:336-348 | a setting is found if and only if one is declared under the section and name, and then the first such |
| ConfigFiles.SettingsIndexed | internal/domain/bepinex.go:255-292 | line indices are in bounds and strictly increasing, each indexed line splits back into its setting, and every entry below a header is recorded |
| ConfigFiles.LatestIsLast | internal/domain/bepinex_merge.go:32-37 | the merge's index points at the last line that sets each key |
| ConfigFiles.LatestValues | internal/domain/bepinex_merge.go:32-37 | the indexed values are what the lines say, last one winning |
| ConfigFiles.RenderIsNormalised | internal/domain/bepinex.go:297-302 | rendering a parsed text gives it with its line breaks normalised |
| Merge.InsertIntoSection | internal/domain/bepinex_merge.go:97-133 | entries go below the section's last non-blank line, or nowhere when no line trims to the header |
| Merge.AppendOverrides | internal/domain/bepinex_merge.go:69-95 | section by section in order of first mention, below the header that is there or a new one |
| Merge.InsertedBelow | internal/domain/bepinex_merge.go:97-133 | where that is: below the first line that trims to the header and the last line after it, before the next header, that is not blank |
| Merge.MergeFile | internal/domain/bepinex_merge.go:19-67 | the merged text and the report of any parsed file and any override set |
| MergeLaws.RewriteAllReads | internal/domain/bepinex_merge.go:43-62 | rewriting lines in place updates the values with the applied overrides and changes no header |
| MergeLaws.InsertReads | internal/domain/bepinex_merge.go:97-133 | entries inserted below an existing header add exactly those settings |
| MergeLaws.AppendAllReads | internal/domain/bepinex_merge.go:69-95 | appending adds every pending override but those of sections with only padded headers, and declares exactly the new sections |
| MergeTheorems.MergeRefinesUpdate | internal/domain/bepinex_merge.go:19-133 | the merged file's settings are the generated ones updated with the overrides that are not dropped |
| MergeTheorems.EveryOverrideKept | internal/domain/bepinex_merge.go:97-108 | the merged file's settings are the generated ones updated with all the overrides if and only if none sits in a section with only padded headers |
| MergeTheorems.UnpaddedExactly | internal/domain/bepinex_merge.go:97-108 | every override set takes full effect on a file if and only if each of its named headers is also there unpadded |
| MergeTheorems.PaddedHeaderDrops | internal/domain/bepinex_merge.go:97-108 | below a header with spaces inside its brackets every override is lost, for any section name |
| MergeTheorems.MergeUpdates | internal/domain/bepinex_merge.go:19-133 | with unpadded headers, the settings updated with all overrides |
| MergeAgain.TextChangesWithSettings | internal/domain/bepinex_merge.go:43-66 | the output differs from the rendered input if and only if the settings do |
| MergeAgain.MergeAgainSettles | internal/infra/bepinex/merge.go:31-61 | a second merge gives the text with its line breaks normalised |
| MergeBreaks.MergedBreaks | internal/domain/bepinex_merge.go:43-133 | normalised so many times, the merged text holds a "\r\n" if and only if a generated line that ends in more carriage returns is neither rewritten nor the merged text's last line |
| MergeBreaks.MergeAgainExactly | internal/infra/bepinex/merge.go:31-61 | the second merge gives the same text if and only if there is no such line |
| MergeBreaks.PlainFileSettles | internal/infra/bepinex/merge.go:31-61 | a file without stray carriage returns merges to a fixed point |
| MergeBreaks.RestsAfter | internal/infra/bepinex/merge.go:31-61 | the text is at rest after the first merge and so many more if and only if no kept line above another ends in more carriage returns |
| MergeBreaks.LoneReturnBreaks | internal/infra/bepinex/merge.go:31-61 | a last line that is a header and n carriage returns takes exactly n more merges, for any n, any section and any overrides of it |
| MergeAgain.MergeInTurn | internal/domain/bepinex_merge.go:19-67 | merging two sets in turn updates with the first and then the second, each less the overrides the generated file's headers drop |
| MergeAgain.ReportPartitions | internal/domain/bepinex_merge.go:43-66 | applied, no-op, appended and stale entries are together exactly the override set |
| MergeAgain.ReportMeans | internal/domain/bepinex_merge.go:43-66 | which list an override is in, by what the file says about its key and section |
| MergeAgain.ChangedExactly | internal/domain/bepinex_merge.go:15-17 | Changed holds if and only if the text differs or an override was dropped; with unpadded headers, if and only if the text differs |
| MergeAgain.SecondReport | internal/domain/bepinex_merge.go:43-66 | at the second merge an override is a no-op if and only if it was not dropped; a dropped one is reported as appended every time |
| MergeFrame.MergeKeepsLines | internal/domain/bepinex_merge.go:59-133 | deleting the added lines gives the original lines in order, changed only where an override was applied |
| MergeFrame.LeftSideKept | internal/domain/bepinex_merge.go:43-60 | key and separator of a rewritten line are kept as written if and only if the line is not indented and only blanks precede its '=' |
| MergeDirs.MergeDir | internal/infra/bepinex/merge.go:19-63 | every file's result in order of the names, with the report of a merge that could not be written, and the files written, also when both directories are one |
| MergeDirs.WhatBecomes | internal/infra/bepinex/merge.go:31-61 | when a file is skipped, cannot be read, stays as it was, cannot be written or is changed |
| MergeDirs.SecondPassWrites | internal/infra/bepinex/merge.go:31-61 | a second pass over the directory just merged writes exactly the handled files in which a line that ends in a carriage return is kept above another |
| MergeDirs.SecondPassWritesNothing | internal/infra/bepinex/merge.go:31-61 | over files without stray carriage returns it writes nothing |
| Import.PlanImport | internal/domain/bepinex_import.go:73-130 | the preview of any paste against any generated file: plugin, whether it held a setting, and every setting judged, with its reason, and sorted |
| ImportLaws.JudgedByFields | internal/domain/bepinex_import.go:83-117 | not declared; the same as the default, or the value without one; refused; or to be applied |
| ImportLaws.ImportedByStatus | internal/domain/bepinex_import.go:62-71 | imported are the entries to apply and the undeclared, the last of a key winning |
| ImportLaws.PreviewOf | internal/domain/bepinex_import.go:73-130 | every setting of the paste judged once, in order of section and name, and parsed just when there is one |
| ImportLaws.ChoiceAccepted | internal/domain/bepinex.go:111-118 | a choice is accepted if and only if it is one of the acceptable values in any case |
| ImportLaws.ListAccepted | internal/domain/bepinex.go:119-137 | a list is accepted if and only if every part is blank or acceptable, and the first that is not is named |
| ImportLaws.NumberAccepted | internal/domain/bepinex.go:144-163 | a number must parse as its type and may not leave its range |
| ImportLaws.TextAccepted | internal/domain/bepinex.go:138-164 | a setting of any other type without range or choices accepts every text |
| ImportLaws.BlockRefuses | internal/domain/bepinex.go:106-165 | a number outside the range that the comments of a block print is refused |
| Import.PlannedOverrides | internal/domain/bepinex_import.go:62-71 | the set of the entries to apply and the unmatched ones, last one winning |
| Import.SortKeepsImport | internal/domain/bepinex_import.go:118-130 | sorting the preview keeps its entries and the set it imports |
| Import.ImportIsAccepted | internal/app/bepinex/service.go:150-182 | no imported value of a known setting is refused by Apply's validation |
| Import.ImportIsWellFormed | internal/domain/bepinex_import.go:73-130 | an imported override survives its encoding if and only if its section has a name |
| ConfigService.Service.ParsedFile | internal/app/bepinex/service.go:220-246 | what the cache serves for a digest was parsed from a text with that digest |
| ConfigService.Service.File | internal/app/bepinex/service.go:111-140 | the parsed config of the published digest with the stored overrides |
| ServiceLaws.ViewFromDisk | internal/app/bepinex/service.go:111-140 | without a cached copy a view shows the file on disk if and only if it is published, readable and has the announced digest |
| ServiceLaws.ViewFromCache | internal/app/bepinex/service.go:220-246 | a cached file is served for its digest wherever the disk has moved on |
| ConfigService.Service.Apply | internal/app/bepinex/service.go:150-182 | all changes or none; the stored text of the file is that of the edited set, other files keep theirs |
| ServiceLaws.EditLeaves | internal/app/bepinex/service.go:171-193 | key by key the value of its last change, nothing when that forgets it, and otherwise what was there; fails if and only if some change is not acceptable |
| ServiceLaws.EditRefused | internal/app/bepinex/service.go:150-182 | refused for the view's error, a digest that moved on, or an unacceptable change, in this order |
| ConfigService.Service.ApplyImport | internal/app/bepinex/service.go:254-287 | refused exactly when the paste is too large, the file cannot be viewed, the paste names another plugin or the snapshot moved, in this order and leaving everything; otherwise the stored set becomes the old one updated with the plan's overrides |
| ServiceLaws.ForeignPasteRefused | internal/domain/bepinex_import.go:132-140 | a paste is refused as another plugin's if and only if it and the file announce GUIDs that differ in more than case |
| ConfigService.ImportEdits | internal/app/bepinex/service.go:269-287 | the changes built from a plan pass every check and update the set with exactly the imported entries |
| ConfigService.WrittenReadsBack | internal/app/bepinex/service.go:205-218 | a stored set reads back if and only if it is well formed, and no other file's set changes |
| ConfigService.ImportReadsBack | internal/app/bepinex/service.go:269-287 | the old set updated with the import reads back if and only if every imported entry has a section name |
| CurseForge.Resolve | internal/infra/content/curseforge/client.go:308-366 | succeeds if and only if every mod the root reaches is installable, and then pins the newest file of each under its slug, once and nothing else; an error names a mod the root needs and what is wrong with it; terminates on cycles |
| Thunderstore.ResolveTree | internal/infra/content/thunderstore/client.go:110-153 | an error names a version the root leads to that is not published, and without such a version it succeeds; every package is handled once, no pack is pinned, packs are skipped only when asked for, and the pins are closed under their versions' dependencies; terminates on cycles |
| Thunderstore.PackNames | internal/infra/content/thunderstore/client.go:97-108 | a pack is any name that starts with "BepInExPack" in any case |
| Thunderstore.LineReads | internal/infra/content/thunderstore/client.go:97-108 | a pinned line reads as the reference it pins |
| Thunderstore.PinnedOnce | internal/infra/content/thunderstore/client.go:120-133 | no namespace/name is pinned twice when the root reads as itself, or nothing it leads to is the package its printed reference reads as |
| Thunderstore.PinnedOnceExactly | internal/infra/content/thunderstore/client.go:120-133 | where each package is asked for at one version, one is pinned twice if and only if something the root leads to is the package the root's printed reference reads as |
| Thunderstore.NothingMissing | internal/infra/content/thunderstore/client.go:120-153 | there, success means that nothing the root leads to is missing |
| Thunderstore.DashedReads | internal/infra/content/thunderstore/client.go:97-108 | a printed reference splits back if and only if its namespace and version hold no '-' |
| Thunderstore.DashedRootRepeats | internal/infra/content/thunderstore/client.go:120-133 | every root that does not read as itself and depends on its own printed reference is pinned twice |
| Thunderstore.DashedRootAlwaysRepeats | internal/infra/content/thunderstore/client.go:120-133 | every such root that reads as no pack has a catalogue of two packages that lacks nothing, and on which every outcome pins one package twice |
| Thunderstore.DashedNamespaceRepeats | internal/infra/content/thunderstore/client.go:120-133 | one of them, with root "a-b/c", on which every outcome pins one namespace/name twice |
| Modrinth.Traversal.Traverse | internal/infra/content/modrinth/client.go:300-338 | everything newly visited is needed, listed once and fully explored |
| Modrinth.ResolveRequiredDependencies | internal/infra/content/modrinth/client.go:293-344 | without repetition, exactly the projects reachable from the root but the root; by the catalogue's fields, each is the slug of a required dependency of the root or of a listed project, and every such slug is listed |
| Versions.ParseLeadingInt | internal/domain/mod.go:339-350 | the number a segment starts with, saturated at the greatest int, and the rest |
| VersionLaws.NumberReads | internal/domain/mod.go:339-350 | every number reads as it is spelled in base ten |
| VersionLaws.NumberOrder | internal/domain/mod.go:339-350 | of two runs of digits the greater is, leading zeros aside, the longer, or of equal length the later as text |
| VersionLaws.ClampedMeans | internal/domain/mod.go:348 | digits beyond the greatest int count as it |
| VersionLaws.SegmentReads | internal/domain/mod.go:339-350 | a segment, trimmed, is its leading digits and the rest |
| VersionLaws.WrittenApart | internal/domain/mod.go:272-280 | a version text is taken apart into the core, prerelease and build it was put together from |
| Versions.VersionNewer | internal/domain/mod.go:258-337 | the loops decide by the first segment that differs, then prerelease, then build |
| VersionLaws.NewerByCore | internal/domain/mod.go:282-302 | of two version texts the one with the greater digits in the first core segment that differs is newer |
| VersionLaws.NewerByPrerelease | internal/domain/mod.go:304-311 | with the same core, a release is above its prereleases, which compare as text, and one build alone decides nothing |
| VersionLaws.NewerByBuild | internal/domain/mod.go:313-334 | then builds of numbers decide as cores do, and as text when only zeros tell them apart |
| Versions.NewerIsAbove | internal/domain/mod.go:258-337 | on versions of numbers, newer is the order of their ranks |
| Versions.VersionOrder | internal/domain/mod.go:258-337 | irreflexive, asymmetric and transitive on versions of numbers; incomparable ones share core and prerelease |
| Versions.NewerAsymmetric | internal/domain/mod.go:258-337 | on all texts no version is newer than itself, and two are newer than each other only if one is an unpinned marker |
| Versions.MarkersAreMutual | internal/domain/mod.go:267-269 | the two markers are newer than each other |
| Versions.NewerIsCircular | internal/domain/mod.go:288-301 | three versions with text in a segment, each newer than the next |
| McVersions.CompareMCVersions | internal/domain/pack.go:86-104 | compares the leading numbers of two versions, missing ones as zero |
| VersionLaws.McReads | internal/domain/pack.go:145-159 | a Minecraft version text gives the numbers before the first part that is no int, up to a suffix |
| VersionLaws.McByDigits | internal/domain/pack.go:86-104 | two such texts compare by the digits of the first number that differs, missing ones as zero |
| McVersions.McOrder | internal/domain/pack.go:86-104 | a total preorder |
| McVersions.HighestMCVersion | internal/domain/pack.go:131-143 | the first of the greatest versions in the list, or "" when none is a version |
| ModRefs.EntryReads | internal/domain/mod.go:148-217 | parsing a printed reference gives it back if and only if it is printable |
| ModRefs.PinnedSplits | internal/domain/mod.go:154-160 | a pinned line splits at its last two slashes |
| ModRefs.ParseLength | internal/domain/mod.go:148-217 | printing what a line was read as is never longer than the line |
| ModRefs.KeysByLetters | internal/domain/mod.go:186-204 | two references are of one mod if and only if their names in full differ in case alone; that name is what the catalogue is asked for |
| ModRefs.DashedEntryReads | internal/domain/mod.go:172-183 | a Valheim entry's text after its second dash is its version if and only if it is three numbers between dots |
| ModRefs.ColonEntryReads | internal/domain/mod.go:163-165 | a Minecraft entry with a version after a colon is pinned to it |
| ModRefs.SlashEntryReads | internal/domain/mod.go:166-168 | and so is one with a version after its only slash |
| ModRefs.EntryOutsides | internal/domain/mod.go:148-152 | comments and blank lines are no entries; white space around an entry and one '?' do not count |
| ModLists.ModsFile.GetInstalledMods | internal/app/instances/manager.go:1070-1091 | the trimmed lines that are neither blank nor comments, less one '?' |
| ModLists.ModsFile.InstallMod | internal/app/instances/manager.go:1146-1253 | the file and the answer of an install with any dependencies and any catalogue, refusals leaving the file alone |
| ModLists.ModsFile.RemoveMod | internal/app/instances/manager.go:1493-1532 | the file without the mod's lines, and whether it had any |
| ModLists.ModsFile.ReplaceMods | internal/app/instances/manager.go:1259-1300 | the file of the trimmed non-blank entries, and whether that is a change |
| ModListLaws.InstalledRows | internal/app/instances/manager.go:1184-1245 | old lines keep their mods and order; every added line was asked for and is the only one of its mod |
| ModListLaws.OthersKept | internal/app/instances/manager.go:1208-1222 | of the old lines only the typed mod's may change, and it ends at the typed version |
| ModListLaws.InstallAddsNoDouble | internal/app/instances/manager.go:1184-1245 | read back from the file: no second line for a mod, everything asked for is there, the answer counts the added lines |
| ModListLaws.InstallAgain | internal/app/instances/manager.go:1184-1245 | repeating an install changes nothing, whatever the catalogue answers |
| ModListLaws.NewModIsPinned | internal/app/instances/manager.go:1221-1239 | a new mod is stored at the typed version, else at the catalogue's for its name in full, and refused when it has none |
| ModListLaws.InstallThenRemove | internal/app/instances/manager.go:1493-1532 | removing a newly installed mod leaves the old non-blank lines in order, and the lines of its dependencies |
| ModListLaws.InstallTwice | internal/app/instances/manager.go:1184-1245 | a second install of a new mod on its own changes nothing if and only if its line is found again or blank, and otherwise writes the line again |
| ModListLaws.PrintableIsStorable | internal/app/instances/manager.go:1184-1245 | a printable reference without a line break is found again |
| ModListLaws.SlashedNameDoubles | internal/app/instances/manager.go:1184-1245 | a Valheim name with a slash in it, typed with a version, gets a second line whatever the catalogue answers |
| ModListLaws.RemovedRows | internal/app/instances/manager.go:1502-1524 | a removal drops exactly the mod's lines |
| ModListLaws.ReplaceReadsBack | internal/app/instances/manager.go:1259-1300 | the replaced list reads back if and only if every entry is trimmed, non-empty, one line, no comment and without a final '?' |
| Updates.Matches | internal/domain/mod.go:363-379 | true if and only if the trimmed lists are equal as multisets |
| Updates.Checker.Rewrite | internal/app/modupdates/checker.go:510-553 | the new list, or the first target whose tree cannot be resolved |
| Updates.Checker.Apply | internal/app/modupdates/checker.go:472-566 | the file, the report, the restore point, the pending mark and the answer after any call |
| UpdateAnswers.AppliedAsAsked | internal/app/modupdates/checker.go:477-566 | when the list changes, exactly the reported updates asked for by key, or all without a key, are answered, in report order; refused for want of a choice just when there are updates and none was asked for |
| UpdateAnswers.UnaskedStays | internal/app/modupdates/checker.go:490-547 | a mod that was not asked for and is offered by no written update's tree keeps its last entry's reference |
| UpdateAnswers.WaitsForWritten | internal/app/modupdates/checker.go:430-440 | after an update every entry it wrote is waited for; an update that writes nothing leaves the mark alone |
| Updates.Checker.Pending | internal/app/modupdates/checker.go:398-430 | whether a written entry is still not reported within six minutes; a mark that is reported or too old is cleared |
| Updates.Checker.RestoreAvailable | internal/app/modupdates/checker.go:603-622 | the point if and only if the list is what the update wrote; a stale point is cleared |
| Updates.Checker.Undo | internal/app/modupdates/checker.go:571-599 | the state and the pending mark after going back, or after refusing |
| Updates.Checker.Forget | internal/app/modupdates/checker.go:450-466 | the report without the written updates |
| Reports.Compute | internal/app/modupdates/checker.go:251-345 | the report of a list against the catalogue's answers, its lists sorted by key; nothing for a vanilla world or one whose pack defines its mods |
| Reports.ReportAccounts | internal/app/modupdates/checker.go:313-340 | every mod is checked, missing or unreachable, once; updates are exactly the checked mods with a newer version |
| Reports.AskedByEntries | internal/app/modupdates/checker.go:263-272 | asked about is exactly what some entry reads as, on Valheim only with a namespace |
| Reports.PinnedIsReported | internal/app/modupdates/checker.go:313-340 | a pinned entry is reported from its version to the published one if and only if that is newer |
| Reports.UnpinnedIsReported | internal/app/modupdates/checker.go:322-334 | an unpinned entry is reported for any published version, but never on Valheim |
| Reports.UnansweredIsAccounted | internal/app/modupdates/checker.go:313-321 | an entry the catalogue does not publish is missing, and one it cannot answer for is unreachable |
| Reports.ReportedIsInstalled | internal/app/modupdates/checker.go:251-345 | a reported update is of an installed mod and to a newer version, whatever the order of the report |
| Reports.ForgottenExactly | internal/app/modupdates/checker.go:450-466 | an update stays in the report if and only if none of its mod was written |
| UpdateAnswers.ForgottenInOrder | internal/app/modupdates/checker.go:450-466 | the updates that stay keep their order in the report |
| UpdateLaws.Entered | internal/app/modupdates/checker.go:510-521 | one place per mod in order of first entries, holding the last entry's reference |
| UpdateLaws.OthersTakeTheBest | internal/app/modupdates/checker.go:523-543 | a mod that is no target ends as the best of what it was and everything offered |
| UpdateLaws.TargetTakesItsLatest | internal/app/modupdates/checker.go:523-547 | a target ends as the best of its latest version and what later targets' trees offer |
| UpdateOrder.BestIsNewest | internal/app/modupdates/checker.go:534-542 | on versions of numbers nothing offered is newer than the best, what was there goes only for something newer, and there is no circle |
| UpdateOrder.OneOfferedVersion | internal/domain/mod.go:258-337 | one offered version makes a circle if and only if it and the installed one are newer than each other, and then one is an unpinned marker |
| UpdateOrder.BackExactly | internal/app/modupdates/checker.go:534-542 | some offers of a pool leave an older reference if and only if its version lies on a circle of the pool's |
| UpdateOrder.SettlesExactly | internal/app/modupdates/checker.go:534-542 | no offers of a pool pass over or give up anything newer if and only if two steps up from any version they can reach are one |
| UpdateLaws.UpdateTransform | internal/app/modupdates/checker.go:510-553 | no duplicate mods, old mods first in their order, then exactly the mods offered with a version |
| UpdateOrder.OthersNeverOlder | internal/app/modupdates/checker.go:523-543 | a mod that is no target ends as the winner among its reference and the offers; without a circle it is not older, and when two steps up are one it keeps its reference or gets the newest |
| UpdateCircles.UpdateMovesBackExactly | internal/app/modupdates/checker.go:510-553 | some update with these entries on offer leaves an installed mod older if and only if its version lies on a circle of theirs |
| UpdateCircles.UpdateSettlesExactly | internal/app/modupdates/checker.go:510-553 | every such update leaves the mod at its reference or the newest offer if and only if two steps up are one |
| UpdateCircles.OldVersionReturns | internal/app/modupdates/checker.go:510-553 | an update whose two trees move a mod from 1.3 over 1a.5 to 1b.1, which 1.3 is newer than |
| UpdateOrder.TargetsEndAtLatest | internal/app/modupdates/checker.go:523-547 | a target ends as the winner among its latest version and what later trees offer, not older than the latest without a circle |
| UpdateCircles.TargetMovesBackExactly | internal/app/modupdates/checker.go:523-547 | some update leaves a target older than its latest version if and only if that lies on a circle of what later trees offer |
| UpdateLaws.WrittenReadsBack | internal/app/modupdates/checker.go:549-552 | printable references are read back from the new list, each under its own mod |
| UpdateLaws.TargetIsWritten | internal/app/modupdates/checker.go:523-552 | a target is written if and only if it was installed or a tree up to and including its first update's offers it |
| UpdateTheorems.AppliedListReads | internal/app/modupdates/checker.go:472-566 | from file to file: when what is installed, offered or repinned prints and parses back, after updates reported for a list the file's list has one readable entry per mod, old mods first, others at their best |
| UndoLaws.RestoreRoundTrip | internal/infra/store/restore.go:17-58 | a list survives its row if and only if no entry holds a line break and it is not one empty entry |
| UndoLaws.WrittenMatches | internal/app/modupdates/checker.go:603-622 | a list just written matches what is read back if and only if each entry reads as written, give or take white space |
| UndoLaws.UndoRestores | internal/app/modupdates/checker.go:571-599 | after an unedited update undo works exactly when the written entries read as written, and the old list reads back exactly when its entries do |
| UndoLaws.UndoRefusesEdits | internal/app/modupdates/checker.go:571-622 | undo refuses, and leaves the list alone, if and only if the multiset of entries differs |
| UndoLaws.PointIsLastChange | internal/app/modupdates/checker.go:545-622 | in every run a restore point holds the list before the last update that changed it, with no undo since |
| Instances.CalculateBudget | internal/domain/budget.go:26-54 | counts and sums the running instances of a list |
| Instances.SumsWithout | internal/domain/budget.go:37-44 | the sums do not depend on the order of the instances |
| InstanceFields.OneMoreCounts | internal/domain/budget.go:37-44 | a running instance adds its own memory request, its tier's only when it has no resources, and a stopped one adds nothing |
| InstanceFields.OneMoreUses | internal/domain/instance.go:111-126 | the same for the instance put in a slot of the repository |
| InstanceFields.TierRequests | internal/domain/resources.go:60-104 | the memory request of every game's tiers, an unknown tier counting as medium |
| Instances.InstanceManager.CreateInstance | internal/app/instances/manager.go:562-662 | the repository and the answer after any create |
| InstanceFields.CreatedAsAsked | internal/app/instances/manager.go:579-662 | a created instance is what was asked for, with defaults only for what was left open, beside the unchanged others |
| Instances.InstanceManager.StartInstance | internal/app/instances/manager.go:810-877 | the budget of the others decides; only the state changes |
| Instances.InstanceManager.StopInstance | internal/app/instances/manager.go:879-911 | the instance is recorded stopped |
| InstanceFields.StopFrees | internal/app/instances/manager.go:879-911 | a stopped world no longer counts in the sums, and nothing else changes |
| Instances.InstanceManager.DeleteInstance | internal/app/instances/manager.go:913-979 | a running instance is refused, another is removed |
| InstanceFields.DeleteFrees | internal/app/instances/manager.go:913-979 | deleted exactly when recorded, not running and no step fails; then its number is free and every other instance is as it was |
| Instances.InstanceManager.AdoptLegacyValheim | internal/app/instances/adoption.go:17-84 | a legacy deployment takes slot 1 when it is free |
| InstanceLaws.SlotIsFree | internal/app/instances/manager.go:589-595 | below the limit some slot is free |
| InstanceLaws.CreateTakesLeastSlot | internal/app/instances/manager.go:579-602 | an unnumbered create lacks a slot only at the limit, takes the least free one, and leaves the repository alone when refused |
| InstanceLaws.RunKeepsSlots | internal/app/instances/manager.go:584-602 | in every run, adoptions included, numbers are distinct and within 1 to the limit |
| InstanceFields.RunKeepsAddresses | internal/app/instances/manager.go:624-626 | in every run no two instances have one address, unless an adoption brought it |
| InstanceLaws.StartKeepsBudget | internal/app/instances/manager.go:825-867 | a start is refused if and only if running the instance would break the budget or a later step fails |
| InstanceFields.StartOverMemory | internal/app/instances/manager.go:825-850 | with a running place free, a start is refused for memory if and only if the world's own request, or its tier's without resources, and what the others use exceed the total |
| InstanceFields.SecondOfTwo | internal/app/instances/manager.go:825-850 | of two worlds with resources of their own the second starts beside the first if and only if their requests fit together |
| InstanceLaws.AdoptionKeepsBudget | internal/app/instances/adoption.go:48-66 | an adoption keeps the budget if and only if the deployment is stopped or would be let start |
| InstanceLaws.AdoptionBreaksBudget | internal/app/instances/adoption.go:48-66 | two running worlds at a limit of two and a running legacy deployment make three |
| InstanceLaws.RunKeepsBudget | internal/app/instances/manager.go:825-867 | in every run of stopped creates, starts, stops, deletes and stopped adoptions, running count and memory stay within the limits |
| Presence.Store.SetOnline | internal/infra/store/presence.go:3-44 | both tables after any call |
| Presence.Store.ClearPresence | internal/infra/store/presence.go:46-63 | both tables after any call, every player recomputed |
| Presence.Store.UpsertSeen | internal/infra/store/queries.go:11-46 | both tables after any call |
| Presence.Store.MinSince | internal/infra/store/presence.go:36-42 | the earliest time of a player's rows, or none without a row |
| Ingest.Workers.Consume | internal/app/ingest/ingest.go:116-155 | active set, tables and events after a stream of lines |
| PresenceFields.ConnectedLine | internal/app/ingest/ingest.go:127-142 | a join makes the player active and online, counts and records him once, and touches nobody else |
| PresenceFields.CharacterLine | internal/app/ingest/ingest.go:143-147 | a character name goes to the last player who joined on the stream, if any |
| PresenceFields.ClosedLine | internal/app/ingest/ingest.go:148-155 | a leave is recorded when he was active, and he stays online only through another instance's row |
| PresenceFields.ClearedInstance | internal/infra/store/presence.go:46-63 | clearing drops the instance's rows and recomputes who is online |
| Ingest.Workers.Run | internal/app/ingest/ingest.go:77-114 | a worker's whole life: clear, any number of streams, clear |
| PresenceLaws.OnlineAgreesExactly | internal/infra/store/presence.go:3-23 | flagging a player online keeps the tables in agreement if and only if the instance is positive or he has a row |
| PresenceLaws.RunAgrees | internal/app/ingest/ingest.go:116-155 | in every interleaving of workers a player is flagged online if and only if he has a row, since the earliest of them, and active sets are the rows |
| PresenceLaws.RunSessions | internal/app/ingest/ingest.go:132-139 | in every run a player's session counter grows by one per recorded join |
| PresenceLaws.RunTakesTurns | internal/app/ingest/ingest.go:132-151 | in every run a player's joins and leaves alternate since the worker began, ending with a join if and only if he is active |
| PresenceLaws.CountIsActive | internal/infra/store/presence.go:71-75 | the rows counted for a running instance are its active players |
| PresenceLaws.OnlineIsPresent | internal/infra/store/presence.go:65-69 | in every run the players counted online are exactly those with a row on some instance |
| Restarts.Queue.Request | internal/app/restarts/queue.go:84-96 | a second request keeps the time and takes the new reason |
| Restarts.Queue.All | internal/app/restarts/queue.go:108-120 | every entry once, the longest waiting first |
| Restarts.Queue.Settle | internal/app/restarts/queue.go:131-144 | drops exactly the entries a restart has overtaken |
| RestartLaws.SettleDropsTheOvertaken | internal/app/restarts/queue.go:131-144 | exactly the entries whose world was started after they were asked for go, the others unchanged |
| Restarts.Queue.Force | internal/app/restarts/queue.go:146-161 | restarts a world that resolves, pending or not, and drops its entry when that worked |
| RestartLaws.ForceDropsOne | internal/app/restarts/queue.go:146-161 | a forced restart that works drops the world's entry alone; one that fails drops none |
| Restarts.Queue.Tick | internal/app/restarts/queue.go:181-213 | the queue after a pass and the restarts it issued |
| RestartLaws.TickLeavesTheBlocked | internal/app/restarts/queue.go:181-213 | what stays after a pass, and which reason it is blocked by, from the world's start, players and failure |
| RestartLaws.TickRestartsTheIdle | internal/app/restarts/queue.go:181-213 | the restarts issued are one for each pending world that resolves, was not started since and is known empty, longest waiting first |
| RestartLaws.SinceIsFirstRequest | internal/app/restarts/queue.go:84-96 | in every run an entry's time is that of the request that queued it, without a gap since, and its reason the last request's |

## Left out

- HTTP, Kubernetes, Docker, git, RCON, web pages, YAML, JSON and SQL text: catalogues, directories and tables are finite maps, statements succeed, and a step that can fail outside is a parameter saying whether it does.
- Goroutines and cancellation: `tick` is one step on an unchanging outside, a cancelled stream is a shorter one, and an instance has one log worker at a time. A request that arrives while a tick restarts its world can be dropped by the code.
- Cluster hosts in mod lists and undo: the list is read from the state store it was written to.
- Text is characters, not bytes: lengths (the import limit) and positions count characters, and lower-casing is ASCII. White space is Go's Unicode white space.
- Warning texts of the config parser and reason texts of an import entry: the kind and what the text names are kept, its words are not.
- Import.ImportIsAccepted: parsing integers and decimals of a setting is a parameter (`Numbers`), the same one at both validations.
- Merge.MergeFile: takes files as ParseConfigFile yields them, as every caller does.
- Thunderstore.PinnedOnceExactly: when one package is asked for at several versions, which of them is met first depends on the order of the dependencies; there `PinnedOnce` gives one direction, and `RepeatsTheRoot` the exact condition on the pins.
- Thunderstore.ResolveTree: package URLs are not built, so a namespace or name with a slash that collides in a URL is not modelled.
- Updates.Checker.Apply: one instance; the report and a refresh's answer are parameters.
- Reports.Compute: the retry and the index lookup are not modelled; a lookup has one answer.
- ModLists.ModsFile.InstallMod: that the instance exists and is not vanilla is taken as given; the dependency resolver's answer and the catalogue are parameters.
- Instances.InstanceManager.CreateInstance: names, message of the day, player limit and world identifier are not modelled, and the address of a slot is a parameter.
- InstanceLaws.RunKeepsBudget: changing an instance's resources or tier, which the code does not check against the budget, is not an event; the runtime reports recorded states back.
- Presence.Store.SetOnline: each call has one time, and a presence row has no online flag because rows are only written online.
- Ingest.Workers.Consume: lines arrive classified by the expression they match; a recorded event also carries the worker's instance.
- Restarts.Queue.Tick: block reasons are constructors instead of words, and entries with the same time come in any order.
- Player counts: only which rows CountOnline and CountOnlineForInstance count is proved; counting them is left out.
- Health incidents, accounts and grants, backups, environment maps, templates, tiers' catalogue and search ranking: left out as mostly plumbing or easy members.
