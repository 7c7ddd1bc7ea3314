# Conan Exiles Save Manager — a Dafny model of its copy and selection core

The Conan Exiles Save Manager keeps named backups ("slots") of selected parts of the game's save
folder. The user ticks files and folders in a checkbox tree. The ticked relative paths form the
allowlist, stored in `config.json`. Every copy (backup, load, restore after playing) is a run of
the copy worker over that allowlist: it copies each listed path from one root to another, skips
paths the source lacks, and stops at the first copy error.

This project models that core in Dafny:

- `wrappers.dfy` (`Wrappers`): `Option`.
- `text.dfy` (`Text`): `str.strip()` on slot names and `str.rstrip('/')` on allowlist entries.
- `paths.dfy` (`Paths`): how `base / rel` turns a relative-path string into a path below a root.
- `filesystem.dfy` (`FileSystem`): a directory tree as a map from path to entry, with
  `shutil.copytree(..., dirs_exist_ok=True)`, `mkdir(parents=True)` and `shutil.copy2`, and the
  situations in which they raise.
- `copy_worker.dfy` (`CopyWorker`): `CopyWorker.run`, as a method with a loop and as a recursive
  reference definition (`Sync`), with the events it emits (`progress`, `error`, `finished`).
- `listing.dfy` (`Listing`): a folder listing and the `(not is_dir, name.lower())` stable sort.
- `check_tree.dfy` (`CheckTree`): `populate_tree` and `get_checked_paths`.
- `slots.dfy` (`Slots`): button enabling, the guards and effects of `backup_save`,
  `create_new_save`, `load_save`, `launch_game` and `restore_after_launch`, the play-mode dialog,
  slot metadata and the `load_config` fallback. A slot is a folder of its own: `metadata.json`
  sits at its top beside the copied files, so a listed path that reaches `metadata.json` (a game
  file of that name, or the entry ".") replaces the recorded mode, and loading such a slot copies
  its `metadata.json` into the game.

User input (dialog answers, the chosen mode, the confirmation), the state of `config.json`, the
JSON reader `json.load` (`Slots.Reader`), whether `mkdir` of a new slot folder raises
(`mkdirRaises`), the selection at the moment the launch worker finishes, and which copies meet an
I/O error (`fails`) are parameters. The file system is
a value: every handler returns the new window state and the events its copy emitted.

## Model

| member | source | states |
|---|---|---|
| CopyWorker.Run | main.py:38-61 | The loop's result equals the reference run `Sync`. Its events end with exactly one `finished`, carry progress counts within 1..len(paths) over len(paths), and an empty allowlist finishes successfully without touching the destination. |
| CopyWorker.SyncStep | main.py:42-57 | One turn of the loop: a missing path moves on with nothing emitted. A failing path emits its error and `finished(False)`. A copied path emits one progress event and continues from the new destination. |
| CopyWorker.RunShape | main.py:41-58 | What the worker returns ends with one `finished`, and its progress counts stay within 1..len(paths). |
| CopyWorker.CopyOne | main.py:42-56 | One path, resolved as `src / rel.rstrip('/')` below the root: reported missing exactly when nothing exists there. It fails exactly when the path exists and the copy raises. Otherwise the destination becomes the copytree/copy2 result. |
| CopyWorker.Resolve | main.py:42-43 | `base / rel.rstrip('/')`: trailing slashes are dropped and the rest becomes the path Paths.ToPath gives. |
| CopyWorker.Conflict | main.py:47-53 | The copy of an existing source path is modelled as raising: a folder copy when FileSystem.TreeConflict holds, a file copy when FileSystem.FileConflict holds. |
| FileSystem.Blocked | main.py:49-51 | A file stands at the path or at a folder above it, so creating the folders raises. |
| FileSystem.KindClash | main.py:49 | A file and a folder: copying one over the other is modelled as raising. |
| FileSystem.TreeConflict | main.py:49 | `copytree(..., dirs_exist_ok=True)` is modelled as raising when the folder cannot be created or an entry of the source subtree meets an entry of the other kind. |
| FileSystem.FileConflict | main.py:51-52 | Copying a file is modelled as raising when its parent folder cannot be created or a folder stands where the file goes. |
| CopyWorker.NoSource | main.py:44-46 | A source root that does not exist: every path is missing. |
| CopyWorker.SyncNoSource | main.py:41-58 | A run from a source root that does not exist skips every path, leaves the destination as it was and emits only `finished(True)`. |
| CopyWorker.Copy | main.py:47-52 | One copy keeps every destination entry, and an existing source entry at the path lands there unchanged. |
| CopyWorker.Sync | main.py:41-58 | The reference run over the allowlist always ends with a `finished` event. |
| CopyWorker.SyncShape | main.py:41-58 | Every run ends with one `finished` event. Every progress count lies between the paths already handled and the number of paths. |
| CopyWorker.StopsAtFailure | main.py:53-56 | At the first failing path the run emits that path's error, then `finished(False)`, and keeps the destination as the earlier paths left it. Later paths are never copied. |
| CopyWorker.SucceedsIffAllHandled | main.py:41-58 | `finished(True)` is emitted exactly when no path failed. The destination is then what all paths together produced. |
| CopyWorker.FirstFailure | main.py:53-56 | When not every path was handled, there is a first index whose copy failed after all earlier paths were handled. |
| CopyWorker.HandledStops | main.py:53-56 | Once a path fails, no later prefix of the allowlist counts as handled. |
| CopyWorker.SyncSplit | main.py:41-58 | A run over the allowlist is the events of the handled prefix followed by a run over the rest. |
| CopyWorker.HandledProgress | main.py:57 | Progress events of a handled prefix all carry the list's length as total. A count `d` appears exactly when path `d` was copied. |
| CopyWorker.ProgressIffCopied | main.py:44-57 | `progress(d)` is emitted exactly when path `d` was reached and copied. A skipped (missing) path emits none. |
| CopyWorker.ProgressWhenAllHandled | main.py:44-58 | In a run where no path failed, `progress(d)` is emitted exactly when path `d` was copied. |
| CopyWorker.ProgressWhenFailed | main.py:44-57 | In a run whose path `k` failed, `progress(d)` is emitted exactly when a path before `k` was copied. Nothing is reported for `k` or later paths. |
| CopyWorker.ProgressOnlyForCopied | main.py:44-57 | A progress event names a path whose source exists and whose copy met no I/O error. |
| CopyWorker.CompleteIffLastCopied | main.py:44-57 | The bar reaches 100% exactly when the last path is copied. A missing last path leaves it short although the run succeeds. |
| CopyWorker.SucceededIffNoError | main.py:53-58 | For a terminated event list, success holds exactly when no error event was emitted. |
| CopyWorker.ProgressAtMost | main.py:57 | No progress count exceeds the upper bound of the run. |
| CopyWorker.Outline | main.py:53-58 | The outline holds only non-progress events of the run, and every non-progress event of the run is in it. |
| CopyWorker.OutlineOne | main.py:53-58 | A single event is kept exactly when it is not a progress event. |
| CopyWorker.OutlineAppend | main.py:53-58 | The outline of two event lists joined is their outlines joined; with `OutlineOne` this fixes its order and multiplicity. |
| CopyWorker.OutlineKeepsLast | main.py:53-58 | Dropping progress events keeps the final `finished` event and the run's verdict. |
| CopyWorker.Renumber | main.py:57 | The destination and the error/finished events do not depend on the progress numbering. |
| CopyWorker.SkipAnywhere | main.py:44-46 | A path the step always reports missing can be removed from the list without changing the result or the outcome. |
| CopyWorker.SkipMissing | main.py:44-46 | An allowlist entry absent from the source changes neither the copied tree nor the error/finished events nor success. |
| CopyWorker.CopyFrame | main.py:47-52 | One copy keeps every destination entry. It changes only the source subtree at the path and the folders above it. Afterwards the copied subtree (or file) holds the source's content. |
| CopyWorker.SyncFrame | main.py:41-58 | Nothing else changes: a run keeps every destination entry and changes or creates only entries some existing listed path reaches. |
| CopyWorker.CopyWellFormed | main.py:47-52 | A copy that does not raise keeps a well-formed tree well formed. |
| CopyWorker.SyncWellFormed | main.py:41-58 | A whole run keeps a well-formed destination well formed. |
| CopyWorker.FileIsLeaf | main.py:47-52 | In a well-formed tree nothing lies below a file. |
| CopyWorker.CopyKeepsAgreement | main.py:47-52 | An entry that already agrees with the source still agrees after a copy. |
| CopyWorker.SyncKeepsAgreement | main.py:41-58 | An entry that already agrees with the source still agrees after a run. |
| CopyWorker.SyncCopiesContent | main.py:41-58 | After a successful run, every source entry at or below an existing listed path is in the destination with the source's content. |
| FileSystem.PrefixesMembers | main.py:51 | The candidates of `mkdir(parents=True)` are exactly the folders on the way to the path. |
| FileSystem.Exists | main.py:44 | `path.exists()`: the root always exists, any other path exactly when it has an entry. |
| FileSystem.IsDir | main.py:48 | `path.is_dir()` holds only of a path that exists. |
| FileSystem.MakeDirs | main.py:51 | `mkdir(parents=True, exist_ok=True)` keeps every entry and leaves a folder at the path. |
| FileSystem.CopyTree | main.py:49 | `copytree(..., dirs_exist_ok=True)` keeps every destination entry, leaves a folder at the path, and every source entry at or below the path lands with its content. |
| FileSystem.CopyFile | main.py:51-52 | `copy2` after `mkdir -p` of the parent keeps every destination entry, writes the source file at the path, and leaves a folder above it. |
| FileSystem.MakeDirsSpec | main.py:51 | `mkdir(parents=True, exist_ok=True)` adds exactly the folders on the way and keeps every other entry. |
| FileSystem.CopyTreeMerges | main.py:49 | `copytree(..., dirs_exist_ok=True)` merges: the source subtree lands in place and no destination entry disappears. Entries outside the subtree and its parents keep their contents. |
| FileSystem.CopyFileOverwrites | main.py:51-52 | `copy2` after `mkdir -p` writes the source file at the path and creates the folders above it. Every other entry is unchanged. |
| FileSystem.AncestorsAreDirs | main.py:48-52 | In a well-formed tree every folder above an entry exists and is a folder. |
| FileSystem.CopyTreeWellFormed | main.py:49 | A conflict-free directory copy keeps a well-formed tree well formed. |
| FileSystem.CopyFileWellFormed | main.py:51-52 | A conflict-free file copy keeps a well-formed tree well formed. |
| Text.TrimRight | main.py:43 | The result is the longest prefix not ending in a dropped character. Everything removed is dropped characters. |
| Text.TrimLeft | main.py:402-403 | The result is the longest suffix not starting with a dropped character. Everything removed is dropped characters. |
| Text.RStripSlash | main.py:42-43 | `rstrip('/')`: a prefix with no trailing '/', and only slashes were removed. |
| Text.RStripSlashAppend | main.py:43 | `rstrip('/')` removes only the trailing run of slashes: a string ending in another character followed by slashes comes back without the slashes. |
| Text.Strip | main.py:402-403 | `strip()`: the result neither starts nor ends with whitespace. |
| Text.IsSpace | main.py:402-403 | The characters `str.strip()` removes: those `str.isspace()` accepts (a definition, with no contract of its own). |
| Text.StripSpec | main.py:402-403 | The stripped name sits inside the input, and everything around it is whitespace. |
| Text.StripSlice | main.py:402-403 | The stripped name is a contiguous slice of the entered text. |
| Text.StripLeading | main.py:402-403 | Everything before the stripped name is whitespace. |
| Text.StripTrailing | main.py:402-403 | Everything after the stripped name is whitespace. |
| Text.StripEmptyIffBlank | main.py:402 | `name.strip()` is empty exactly when the entered text is all whitespace. |
| Text.StripIdempotent | main.py:403 | Stripping the stripped name again changes nothing. |
| Paths.Split | main.py:42-43 | Splitting at '/' yields at least one piece, and no piece contains '/'. |
| Paths.SplitJoinSlash | main.py:42-43 | Gluing the pieces back with '/' gives the original string. |
| Paths.JoinSlashSplit | main.py:42-43 | Pieces without '/' survive a join then a split. |
| Paths.SplitPlain | main.py:42-43 | A string without '/' splits to itself. |
| Paths.SplitCons | main.py:42-43 | Splitting `a/b` yields `a` then the pieces of `b`. |
| Paths.SplitSlashSuffix | main.py:42-43 | A trailing '/' adds one empty piece. |
| Paths.Clean | main.py:42-43 | `pathlib` keeps only non-empty components other than ".". |
| Paths.CleanAppend | main.py:42-43 | Cleaning distributes over concatenation. |
| Paths.CleanKeepsValid | main.py:42-43 | A path of `pathlib` components is already clean. |
| Paths.ToPath | main.py:42-43 | `base / s` always denotes a path of `pathlib` components: non-empty, without '/', never ".". A ".." component is kept (see Left out). |
| Paths.JoinRoundTrip | main.py:237-246 | An identifier written from `pathlib` components resolves back to the same path. |
| Paths.TrailingSlashIgnored | main.py:42-43 | A trailing '/' does not change the path `base / s` denotes. |
| Paths.PlainPath | main.py:404 | A single component denotes itself. |
| Paths.DotBefore | main.py:404 | A leading "./" does not change the path a component denotes. |
| Paths.DotAfter | main.py:404 | A trailing "/." does not change the path a component denotes. |
| Paths.TwoNames | main.py:404 | "a/b" denotes the path of a followed by b. |
| Paths.JoinSnoc | main.py:238 | Extending a path by a name extends its string by '/' and the name. |
| Paths.JoinStarts | main.py:238 | The string of a non-empty path starts with its first component, so never with '/'. |
| Listing.Fold | main.py:235 | The sort key's `name.lower()`, position by position: each ASCII capital A–Z becomes its small letter and every other character is kept (see Left out for other letters). |
| Listing.KeyOf | main.py:235 | The sort key `(not p.is_dir(), p.name.lower())` of a listing entry: whether it is a file, then its folded name. |
| Listing.StrLeRefl | main.py:235 | Python's string order is reflexive. |
| Listing.StrLeTotal | main.py:235 | Python's string order is total. |
| Listing.StrLeAntisym | main.py:235 | Python's string order is antisymmetric. |
| Listing.StrLeTrans | main.py:235 | Python's string order is transitive. |
| Listing.KeyLeRefl | main.py:235 | The tuple order on sort keys is reflexive. |
| Listing.KeyLeTotal | main.py:235 | The tuple order on sort keys is total. |
| Listing.KeyLeAntisym | main.py:235 | The tuple order on sort keys is antisymmetric. |
| Listing.KeyLeTrans | main.py:235 | The tuple order on sort keys is transitive. |
| Listing.Insert | main.py:235 | Inserting one entry adds exactly that entry. |
| Listing.InsertSorted | main.py:235 | Inserting into a sorted listing keeps it sorted. |
| Listing.ConsSorted | main.py:235 | An entry no greater than every entry of a sorted listing can go in front, and the listing stays sorted. |
| Listing.BoundKept | main.py:235 | The head of a sorted listing bounds any permutation of its tail plus an entry it does not exceed. |
| Listing.InsertSize | main.py:235 | Inserting one entry adds exactly that entry's size. |
| Listing.InsertWithKey | main.py:235 | Inserting puts the entry before every entry with its own key, and keeps the other entries of each key in order. |
| Listing.Sort | main.py:235 | `sorted` is a permutation of the listing, of the same length. |
| Listing.SortSorted | main.py:235 | The sorted listing is ordered by `(not is_dir, name.lower())`. |
| Listing.SortSize | main.py:235 | Sorting does not change the listing's size. |
| Listing.SortStable | main.py:235 | Entries whose keys tie keep their listing order. |
| Listing.FoldersFirst | main.py:235 | In the sorted listing no file comes before a folder. |
| Listing.SortKeepsValid | main.py:235 | Sorting a valid listing gives a valid listing. |
| Listing.ValidListingTail | main.py:236 | The first entry of a valid listing is valid and shares its name with no later entry. The rest is valid. |
| CheckTree.EntryId | main.py:237-246 | An entry's identifier is the folder's identifier, then its name, then '/' for a folder. |
| CheckTree.Populate | main.py:237-247 | The item for an entry holds the entry's identifier and is checked exactly when the allowlist holds it. A folder's item has one child per entry of the folder, a file's none. |
| CheckTree.PopulateAll | main.py:234-247 | One item per entry, in order, each holding that entry's identifier and checked exactly when the allowlist holds it. |
| CheckTree.AddItems | main.py:234-247 | `add_items` makes one item per entry, in the sorted order of the listing. |
| CheckTree.PopulateTree | main.py:230-252 | The invisible root holds no identifier and is unchecked. Without a save folder it holds only the placeholder. |
| CheckTree.Recurse | main.py:220-226 | `recurse` collects at most one identifier per item of the subtree, and never an empty one. |
| CheckTree.Own | main.py:221-224 | What `recurse` appends for the item itself: at most one identifier, only for a checked item, and never the empty one. |
| CheckTree.RecurseAll | main.py:225-226 | The walk over a list of items collects at most one identifier per item, and never an empty one. |
| CheckTree.GetCheckedPaths | main.py:218-228 | The allowlist read from the tree has at most one identifier per item and no empty identifier. |
| CheckTree.RecurseIsPreorder | main.py:218-228 | `recurse` visits the items in pre-order, each item before its children. |
| CheckTree.OwnAllAppend | main.py:218-228 | What the walk collects distributes over concatenation of items. |
| CheckTree.OwnAllMembers | main.py:220-224 | An identifier is collected exactly when some visited item contributes it. |
| CheckTree.CollectedIffChecked | main.py:218-228 | An identifier is collected exactly when some item of the tree is checked, holds it, and it is non-empty. |
| CheckTree.Selected | main.py:218-228 | The selection keeps exactly the non-empty identifiers in the allowlist. |
| CheckTree.DataAppend | main.py:218-228 | Item identifiers distribute over concatenation. |
| CheckTree.NodesAppend | main.py:218-228 | Pre-order distributes over concatenation. |
| CheckTree.OwnLabelled | main.py:218-228 | Over items checked exactly when their identifier is allowlisted, the walk collects the allowlisted identifiers in order. |
| CheckTree.PopulateLabels | main.py:236-247 | Every item built for an entry holds that entry's identifier, and is checked exactly when the allowlist holds it. |
| CheckTree.PopulateAllLabels | main.py:234-247 | Every item built for a listing holds that entry's identifier, and is checked exactly when the allowlist holds it. |
| CheckTree.CollectAfterPopulate | main.py:218-252 | Populating from an allowlist and collecting the checks gives the tree's identifiers that the allowlist holds, in tree order. |
| CheckTree.PlaceholderCollectsNothing | main.py:249-252 | Without a save folder nothing is collected. |
| CheckTree.SlashInLonger | main.py:238 | An identifier below a name and starting with a longer name has a '/' at the shorter name's end. |
| CheckTree.UnderOneName | main.py:237-246 | No identifier lies below two different valid names. |
| CheckTree.UnderFolder | main.py:238 | What starts with a folder's identifier lies below that folder's name. |
| CheckTree.IdsUnder | main.py:237-247 | Every identifier of an entry lies below its name. |
| CheckTree.IdsAllLonger | main.py:237-247 | Every identifier below a folder strictly extends the folder's identifier. |
| CheckTree.NotUnderOthers | main.py:236-247 | No identifier of a listing lies below a name none of its entries has. |
| CheckTree.IdsDistinct | main.py:237-247 | A valid entry gives no two items the same identifier. |
| CheckTree.IdsAllDistinct | main.py:234-247 | A valid listing gives no two items the same identifier. |
| CheckTree.SelectedDistinct | main.py:218-228 | Selecting from a duplicate-free list keeps it duplicate-free. |
| CheckTree.CollectedDistinct | main.py:218-252 | For a real save folder the collected allowlist has no duplicates. |
| CheckTree.PopulateAgrees | main.py:239-246 | An item depends on the allowlist only through which of its identifiers the allowlist holds. |
| CheckTree.PopulateAllAgrees | main.py:234-247 | A listing's items depend on the allowlist only through which of their identifiers it holds. |
| CheckTree.SaveThenReload | main.py:218-252 | Saving the checked items and populating again from the saved list rebuilds the same tree with the same checks. |
| CheckTree.IdResolves | main.py:237-246 | The identifier of an entry of the folder at `p` resolves to `p` followed by the entry's name, starts with no '/', and a folder's identifier is the prefix its children are listed under. |
| CheckTree.IdsResolve | main.py:236-247 | Every identifier of an entry's subtree resolves inside the save folder, at or below the entry, with no ".." component and no leading '/'. |
| CheckTree.IdsAllResolve | main.py:234-247 | Every identifier of a folder's listing resolves inside the save folder, at or below the folder. |
| CheckTree.CollectedStayBelow | main.py:218-252 | What `get_checked_paths` collects from a freshly populated tree never starts with '/' and never holds a ".." component. |
| Slots.GetSaveMode | main.py:521-530 | A slot whose `metadata.json` is absent, is a folder, does not parse, is not an object or has no `mode` reads as "Unknown". |
| Slots.MetaText | main.py:548-551 | The text `json.dump({"mode": mode}, f, indent=4)` writes. |
| Slots.MetaTextInjective | main.py:548-551 | Two modes are written as the same text only when they are the same mode. |
| Slots.SaveMetadata | main.py:546-553 | Writing `metadata.json` changes no other entry of the slot folder. It leaves a file holding the JSON text of `{"mode": mode}`, unless a folder of that name is in the way; then nothing changes. |
| Slots.MetadataRoundTrip | main.py:521-553 | With a reader that parses what `json.dump` wrote, reading back gives the mode written; a folder named `metadata.json` makes it "Unknown". |
| Slots.ChooseSaveMode | main.py:532-544 | No mode exactly when the dialog is cancelled. A chosen mode is never "Unknown". |
| Slots.ChosenModeIsKept | main.py:532-553 | A chosen mode written into a fresh slot folder reads back as that mode. Two choices give the same mode exactly when they are the same button. |
| Slots.LoadConfig | main.py:182-191 | The saved list when the file is readable; the empty list when it is absent or unreadable. |
| Slots.UpdateButtons | main.py:360-367 | Backup and create are enabled exactly when the allowlist is non-empty. Delete is enabled exactly when a slot is selected. Load and launch are enabled exactly when both hold. |
| Slots.HasCurrent | main.py:362 | `bool(self.current_save)`: a slot is selected and its name is not the empty string. |
| Slots.NewSlot | main.py:397-413 | A slot is started exactly when there is an allowlist, the name dialog is accepted with a non-blank name, the path the stripped name denotes does not exist, a mode is chosen and `mkdir` does not raise. `mkdir` raising is reported exactly when every earlier guard passed. Every path that does not start a slot changes nothing and copies nothing. |
| Slots.NewSlotCreates | main.py:440-456 | When every guard passes and `mkdir` succeeds, a slot is started: it is the folder the stripped name denotes, was absent before, and the reported mode is the one chosen. No other slot and nothing else in the window changes. |
| Slots.NewSlotRecordsMode | main.py:410-413 | A new slot always holds a `metadata.json`. Unless a listed game path reaches `metadata.json`, it is the file `save_metadata` wrote and reads back as the chosen mode. |
| Slots.CopyKeepsMode | main.py:410-413 | A copy from the game into a folder holding only fresh metadata keeps `metadata.json`; unless a listed path reaches it, it stays the file written and reads back as the mode. |
| Slots.NewSlotHoldsSelection | main.py:397-413 | When every guard passes, the new slot holds only `metadata.json` and entries the allowlist reaches. After a successful copy from a well-formed game folder it holds every game entry at or below a listed path with the game's content, so a listed game file `metadata.json` replaces the recorded one. |
| Slots.BackupSave | main.py:397-413 | A slot is started exactly when every guard passes and `mkdir` succeeds, under the folder the stripped name denotes, and is then present. |
| Slots.CreateNewSave | main.py:440-456 | The same guards, `mkdir` failure and effect as `backup_save`. |
| Slots.Taken | main.py:404 | `(saved_dir / name).exists()` looks up the path the name denotes: the save folder itself ("." or "./") is taken, and so is every slot under any spelling of its name. |
| Slots.SlotName | main.py:410 | The folder `saved_dir / name` denotes, relative to the save folder. |
| Slots.Present | main.py:404 | `exists()` below the save folder: the folder itself, a slot's entries, the names of other entries, and the parent. |
| Slots.TakenSpellings | main.py:404 | A plain name is taken exactly when it is a slot, another entry or "..", and denotes itself. A slot's name is taken also as "a/", "./a", "a/." and "a//", and the path of an entry inside a slot is taken as "a/b". |
| Slots.CreateTwice | main.py:445-449 | Creating the same name again is refused as taken and changes nothing. |
| Slots.LoadSave | main.py:416-424 | No selected slot means nothing is done. Without confirmation nothing is done. A confirmed load with a selection reports loading that slot. Loading never changes slots, the allowlist or the selection. |
| Slots.FromSlot | main.py:423-424 | A load copies from the selected slot's folder; when no folder of that name exists, every listed path is missing. |
| Slots.LoadMissingSlot | main.py:423-424 | Loading a selected name that has no slot folder leaves the game unchanged and reports only `finished(True)`: every listed path is skipped as missing. |
| Slots.LoadSaveCopies | main.py:416-424 | A confirmed load keeps every game entry and changes only entries the slot's listed paths reach. After a successful run from a well-formed slot the game holds every slot entry at or below a listed path with the slot's content. |
| Slots.RestoreAfterLaunch | main.py:435-437 | Restoring never changes the game, the allowlist or the selection, and changes no slot other than the one named. |
| Slots.SlotFiles | main.py:435-437 | The folder a restore copies into: the slot's files, or an empty folder when the slot folder does not exist yet, since `copytree` and `mkdir(parents=True)` create it. |
| Slots.RestoreCopies | main.py:435-437 | A restore keeps every entry of the slot, `metadata.json` included, and changes only entries the game's listed paths reach. After a successful run from a well-formed game folder the slot holds every game entry at or below a listed path with the game's content. |
| Slots.LaunchAsWrittenMissesLaunchedSlot | main.py:427-433 | As written, a slot selected before the launch worker finishes receives the restore, and the launched slot is left unchanged. |
| Slots.LaunchGameAsWritten | main.py:427-437 | As written: no selected slot means nothing is done. Otherwise the restore runs when the `steam` command returns (main.py:84-89), possibly at once, and the window's selection is whatever it is then. With no selection then, the restore raises and nothing is copied. With one, the game's files are restored into that slot. The game is never changed. |
| Slots.LaunchGame | main.py:427-437 | Corrected launch: no selected slot means nothing is done. Otherwise the restore goes into the slot that was selected at launch. The game, the allowlist, the selection and every other slot are unchanged, and no slot other than the launched one appears. |
| Slots.LaunchRestoresLaunchedSlot | main.py:427-437 | The corrected launch keeps every entry of the launched slot. After a successful run from a well-formed game folder, that slot holds every game entry at or below a listed path with the game's content. When the selection has not changed by the time the worker finishes, the code as written does the same. |
| Slots.ButtonsMatchGuards | main.py:360-367 | Backup and create are enabled exactly when their handlers pass the allowlist check. Load and launch are enabled only when their handlers pass the selection check. |
| Slots.NoConfigDisablesCopies | main.py:182-191 | Without a readable allowlist file no copying button is enabled. |

## Left out

- Qt widgets, signals, threads and dialogs are left out. Dialog answers are parameters, and a worker's signals are the list of events it returns.
- I/O errors (permissions, a full disk) are left out as causes. The `fails` predicate says which allowlist entries meet one. A failed copy is modelled as leaving the destination unchanged; a partial `copytree` is not modelled.
- CopyWorker.Run: progress carries the count done and the total instead of `int((i + 1) / total * 100)`, because the percentage is a function of those two numbers.
- The outer `try`/`except` of `run` (main.py:59-61) is not modelled. Only the per-path copy raises in the model.
- CopyWorker.Conflict, FileSystem.KindClash, FileSystem.TreeConflict, FileSystem.FileConflict: `copy2` of a file onto an existing folder is modelled as a copy error, while Python copies the file into that folder.
- Symbolic links, file metadata that `copy2` preserves, and timestamps are not modelled.
- Listing.Fold: `str.lower()` is modelled for the ASCII letters A–Z only. Other letters are kept as they are, so the order of names with non-ASCII capitals may differ, and a letter whose lower case is longer (such as 'İ') keeps its length.
- The game's save folder always has a root here. Whether it exists is the `Option` given to `PopulateTree`.
- `find_game_path`, `LaunchWorker` and starting the game through Steam: the model takes the game folder as given. `LaunchWorker` waits only for the `steam` command it starts (main.py:84-89), which may return at once while the game keeps running; the restore copies whatever state the game folder is in at that moment, which the model takes as given.
- Not modelled: `delete_save` and `DeleteWorker`, `change_save_mode`, `refresh_saves` (folder dates and sizes), the size summary in `save_config`, `on_save_selected`, theme switching and logging. They lie outside the copy and selection core.
- The file write in `save_config` is not modelled, and neither is its failure: the allowlist is what `get_checked_paths` returns. `save_metadata` fails in the model only when a folder named `metadata.json` is in the way; other write failures are not modelled.
- Paths.ToPath: an allowlist entry starting with '/' resolves below the root here, while `pathlib` makes `base / "/x"` the absolute path `/x`; a ".." component is kept as a name, while the operating system resolves it to the parent folder. The model's file systems hold nothing outside their root. Identifiers the tree writes never take these forms (CheckTree.CollectedStayBelow); only a hand-edited `config.json` can hold them.
- CopyWorker.CopyOne: for an entry starting with '/' or holding "..", the model looks for the resolved path below the source root, while the program copies from outside it; see Paths.ToPath.
- `json.load` is not modelled: it is the `Reader` parameter. That it reads back what `json.dump` wrote is the assumption `ReadsBack`, required by Slots.MetadataRoundTrip, Slots.ChosenModeIsKept and Slots.NewSlotRecordsMode.
- Slots.SaveMetadata: the bytes written are the JSON text one byte per character; the escaping `json.dump` applies to quotes, backslashes and non-ASCII characters is not modelled, since only the dialog's two plain-ASCII modes are ever written.
- Slots.LoadConfig: a readable `config.json` holding JSON that is not a list of strings is not modelled.
- Slots.Taken: names are compared exactly as POSIX does. On Windows `exists()` ignores case and trailing dots and spaces, so "base" is taken when "Base" exists, and the model would instead let NewSlot start a second slot. Reserved device names ("con") and characters Windows refuses are not modelled either; the `mkdirRaises` parameter of Slots.NewSlot covers the resulting failure. A name starting with '/' denotes an absolute path, whose existence the model does not know; it is looked up below the save folder instead. A ".." after the first component is looked up as a name, not resolved. Below an entry that is not a slot, only the entry's own name is known to exist.
- Slots.NewSlot: a name of several components whose path does not exist but whose parent folder does ("a/c" with "c" absent from slot "a") makes `mkdir` create a folder inside that folder, inside another slot for instance. The model instead records a new slot under the relative path "a/c", which Slots.Present then counts as existing. When the parent is missing, `mkdir` raises, which is the `mkdirRaises` case. This applies equally to Slots.NewSlotCreates, Slots.BackupSave and Slots.CreateNewSave.
- Paths.Split: '/' is the only separator. On Windows `pathlib` also splits at `\`, which is not modelled.
- Slots.RestoreAfterLaunch: a slot directory created only through `mkdir(parents=True)` of an empty path is not modelled; a missing slot appears once something is copied into it.
- CheckTree.SaveThenReload and CheckTree.CollectedDistinct require every name to be valid and sibling names to be distinct, which every real listing satisfies.

## Findings

| source | as written | input that shows it | evidently intended | confidence | as-written member | corrected member |
|---|---|---|---|---|---|---|
| main.py:432 | The lambda passed to `finished.connect` reads `self.current_save` when the launch worker finishes, that is when the `steam` command returns (main.py:84-89), not when the launch is started. | Launch slot "A", then select slot "B" in the table before the `steam` command returns: the game folder is copied into "B" and "A" keeps its old files. If the selected slot was deleted in between, `current_save` is `None` (main.py:488) and `saved_dir / None` raises. | Restore into the slot that was launched. | medium; not executed | Slots.LaunchGameAsWritten (shown by Slots.LaunchAsWrittenMissesLaunchedSlot) | Slots.LaunchGame (proved by Slots.LaunchRestoresLaunchedSlot) |
