/**
 * The save-slot actions of the main window: which buttons are enabled (main.py:360-367), creating
 * a slot by backup or as a new slot (main.py:397-413, 440-456), loading a slot into the game
 * (main.py:416-424), restoring a slot when the launch worker finishes, that is when the `steam`
 * command returns, possibly at once (main.py:84-89, 427-437), the play-mode dialog and metadata
 * (main.py:521-553) and the allowlist file (main.py:182-191).
 *
 * The save folder holds one directory per slot. A slot's files are a file system of their own,
 * with `metadata.json` among them at the top. Every copy is a run of the copy worker
 * (`CopyWorker.Sync`), with `fails` saying which paths meet an I/O error.
 */
module Slots {
  import opened Wrappers
  import opened Text
  import opened Paths
  import opened FileSystem
  import opened CopyWorker

  /** A JSON value as `json.load` returns it: a string, or anything else. */
  datatype Value = Str(s: string) | NonString

  /** What `json.load` makes of a file's bytes: an error, a value that is not an object, or an object. */
  datatype Json = Malformed | NotObject | Object(fields: map<string, Value>)

  /** The JSON reader, which the model does not define: it stands for `json.load`. */
  type Reader = seq<bv8> -> Json

  /** Where a slot keeps its play mode: `metadata.json` in the slot's own folder. */
  const MetaPath: Path := ["metadata.json"]

  /** The text `json.dump({"mode": mode}, f, indent=4)` writes for a mode of plain ASCII characters. */
  function MetaText(mode: string): string {
    "{\n    \"mode\": \"" + mode + "\"\n}"
  }

  /** Two modes are written as the same text only when they are the same mode. */
  lemma MetaTextInjective(a: string, b: string)
    requires MetaText(a) == MetaText(b)
    ensures a == b
  {
    var t := MetaText(a);
    assert a == t[15..|t| - 3];
    assert b == MetaText(b)[15..|MetaText(b)| - 3];
  }

  /** That text as the bytes of the file, one byte per character. */
  function MetaBytes(mode: string): (b: seq<bv8>)
    ensures |b| == |MetaText(mode)|
  {
    var t := MetaText(mode);
    seq(|t|, i requires 0 <= i < |t| => (t[i] as int % 256) as bv8)
  }

  /** The reader reads the metadata `save_metadata` writes for `mode` as the object `{"mode": mode}`. */
  predicate ReadsBack(read: Reader, mode: string) {
    read(MetaBytes(mode)) == Object(map["mode" := Str(mode)])
  }

  /** The slot's `metadata.json` is a file that reads as an object with a `"mode"` field. */
  predicate ModeRecorded(files: Fs, read: Reader) {
    && MetaPath in files
    && files[MetaPath].File?
    && read(files[MetaPath].content).Object?
    && "mode" in read(files[MetaPath].content).fields
  }

  /**
   * `get_save_mode`: the `"mode"` field of the slot's `metadata.json`, or `"Unknown"` when the
   * file is absent, is a folder, does not parse, is not an object or has no such field.
   */
  function GetSaveMode(files: Fs, read: Reader): (mode: Value)
    ensures !ModeRecorded(files, read) ==> mode == Str("Unknown")
  {
    if MetaPath in files && files[MetaPath].File? then
      match read(files[MetaPath].content)
      case Object(fields) => if "mode" in fields then fields["mode"] else Str("Unknown")
      case _ => Str("Unknown")
    else Str("Unknown")
  }

  /**
   * `save_metadata`: write `metadata.json` into the slot folder; when a folder of that name is
   * in the way the write fails and only the log records it.
   */
  function SaveMetadata(dir: Fs, mode: string): (r: Fs)
    ensures forall q | q != MetaPath :: (q in r <==> q in dir) && (q in dir ==> r[q] == dir[q])
    ensures MetaPath in r
    ensures MetaPath in dir && dir[MetaPath].Dir? ==> r == dir
    ensures !(MetaPath in dir && dir[MetaPath].Dir?) ==> r[MetaPath] == File(MetaBytes(mode))
  {
    if MetaPath in dir && dir[MetaPath].Dir? then dir else dir[MetaPath := File(MetaBytes(mode))]
  }

  /**
   * Reading back what `save_metadata` wrote gives the mode that was written, unless a folder
   * named `metadata.json` kept the file from being written.
   */
  lemma MetadataRoundTrip(dir: Fs, mode: string, read: Reader)
    requires ReadsBack(read, mode)
    ensures GetSaveMode(SaveMetadata(dir, mode), read) == (if MetaPath in dir && dir[MetaPath].Dir? then Str("Unknown") else Str(mode))
  {
  }

  /** The buttons of the play-mode dialog; closing it counts as `Cancel`. */
  datatype Choice = Solo | Online | Cancel

  /** `choose_save_mode`: the chosen mode's label, or none when the user cancels. */
  function ChooseSaveMode(c: Choice): (mode: Option<string>)
    ensures mode.None? <==> c == Cancel
    ensures mode.Some? ==> mode.value != "Unknown"
  {
    match c
    case Solo => Some("Solo Play")
    case Online => Some("Online Play")
    case Cancel => None
  }

  /**
   * A chosen mode written into a fresh slot folder reads back as that mode, and two choices give
   * two modes.
   */
  lemma ChosenModeIsKept(c: Choice, d: Choice, read: Reader)
    requires c != Cancel && d != Cancel
    requires ReadsBack(read, ChooseSaveMode(c).value)
    ensures GetSaveMode(SaveMetadata(map[], ChooseSaveMode(c).value), read) == Str(ChooseSaveMode(c).value)
    ensures ChooseSaveMode(c) == ChooseSaveMode(d) <==> c == d
  {
    MetadataRoundTrip(map[], ChooseSaveMode(c).value, read);
  }

  /** The state of the allowlist file. */
  datatype ConfigFile = NoConfig | Unreadable | Saved(paths: seq<string>)

  /** `load_config`: the saved list, or the empty list when the file is absent or unreadable. */
  function LoadConfig(f: ConfigFile): (paths: seq<string>)
    ensures f.Saved? ==> paths == f.paths
    ensures !f.Saved? ==> paths == []
  {
    match f
    case Saved(ps) => ps
    case _ => []
  }

  /**
   * What the window holds: the allowlist, the selected slot, the save folder's slot directories
   * (each a file system of its own, `metadata.json` included) and any other names in it, and the
   * game's save folder.
   */
  datatype App = App(config: seq<string>, current: Option<string>, slots: map<string, Fs>, others: set<string>, game: Fs)

  /** `bool(self.current_save)`: a slot is selected and its name is not empty. */
  predicate HasCurrent(current: Option<string>) {
    current.Some? && current.value != ""
  }

  datatype Buttons = Buttons(backup: bool, load: bool, launch: bool, create: bool, delete: bool)

  /** `update_buttons`: what needs an allowlist, what needs a selected slot, and what needs both. */
  function UpdateButtons(config: seq<string>, current: Option<string>): (b: Buttons)
    ensures b.backup == b.create
    ensures b.load == b.launch
    ensures b.load <==> b.backup && b.delete
    ensures b.backup <==> config != []
    ensures b.delete <==> HasCurrent(current)
    ensures b.load <==> config != [] && HasCurrent(current)
  {
    var hasConfig := config != [];
    var hasCurrent := HasCurrent(current);
    Buttons(hasConfig, hasConfig && hasCurrent, hasConfig && hasCurrent, hasConfig, hasCurrent)
  }

  /** What a handler did. */
  datatype Action =
    | NeedConfig
    | NeedSelection
    | Dismissed
    | NameTaken
    | ModeCancelled
    | MkdirRaised
    | Started(name: string, mode: string)
    | Loading(name: string)
    | Restoring(name: string)
    | RestoreRaised

  /** The window after a handler, what it did, and what the copy it started emitted. */
  datatype Reply = Reply(app: App, action: Action, events: seq<Event>)

  /**
   * The slot folder `self.saved_dir / name` denotes, written relative to the save folder: "a/",
   * "./a" and "a//" all denote the folder "a".
   */
  function SlotName(name: string): string {
    Join(ToPath(name))
  }

  /**
   * `exists()` for a path below the save folder: the save folder itself, an entry of a slot, the
   * name of another entry (whose contents the model does not know), or the parent "..". A slot
   * the model recorded under a longer relative path (see `NewSlot`) exists as well.
   */
  predicate Present(app: App, p: Path) {
    || p == []
    || Join(p) in app.slots
    || (p[0] in app.slots && Exists(app.slots[p[0]], p[1..]))
    || (|p| == 1 && (p[0] in app.others || p[0] == ".."))
  }

  /** `(self.saved_dir / name).exists()`: the path the name denotes is present. */
  predicate Taken(app: App, name: string)
    ensures SlotName(name) in app.slots ==> Taken(app, name)
    ensures ToPath(name) == [] ==> Taken(app, name)
  {
    Present(app, ToPath(name))
  }

  /**
   * A plain name is taken exactly when it is a slot, another entry or the parent folder; the
   * other spellings of a slot's name, and the path of an entry inside a slot, are taken too.
   */
  lemma TakenSpellings(app: App, a: string, b: string)
    requires Component(a) && Component(b)
    ensures SlotName(a) == a
    ensures Taken(app, a) <==> a in app.slots || a in app.others || a == ".."
    ensures a in app.slots ==>
      Taken(app, a + "/") && Taken(app, "./" + a) && Taken(app, a + "/.") && Taken(app, a + "//")
    ensures a in app.slots && [b] in app.slots[a] ==> Taken(app, a + "/" + b)
  {
    PlainPath(a);
    assert Join([a]) == a;
    assert [a][1..] == [];
    TrailingSlashIgnored(a);
    TrailingSlashIgnored(a + "/");
    assert a + "//" == (a + "/") + "/";
    DotBefore(a);
    DotAfter(a);
    TwoNames(a, b);
    assert [a, b][1..] == [b];
  }

  /** The destination a copy into the slot `name` starts from: its files, or nothing yet. */
  function SlotFiles(app: App, name: string): Fs {
    if name in app.slots then app.slots[name] else map[]
  }

  /**
   * The body shared by `backup_save` and `create_new_save`: refuse without an allowlist; ignore a
   * cancelled or blank name; refuse a name already present; stop when no mode is chosen; stop
   * when `mkdir` raises (`mkdirRaises`: the system refuses the name, or a parent folder the name
   * names is missing); otherwise write the metadata into the new slot directory and copy the
   * allowlist from the game into it.
   */
  function NewSlot(app: App, input: string, ok: bool, choice: Choice, mkdirRaises: bool, fails: string -> bool): (r: Reply)
    ensures r.action.Started? <==>
      app.config != [] && ok && Strip(input) != "" && !Taken(app, Strip(input)) && choice != Cancel && !mkdirRaises
    ensures r.action == MkdirRaised <==>
      app.config != [] && ok && Strip(input) != "" && !Taken(app, Strip(input)) && choice != Cancel && mkdirRaises
    ensures !r.action.Started? ==> r.app == app && r.events == []
  {
    if app.config == [] then Reply(app, NeedConfig, [])
    else if !(ok && Strip(input) != "") then Reply(app, Dismissed, [])
    else
      var name := Strip(input);
      if Taken(app, name) then Reply(app, NameTaken, [])
      else match ChooseSaveMode(choice)
        case None => Reply(app, ModeCancelled, [])
        case Some(mode) =>
          if mkdirRaises then Reply(app, MkdirRaised, [])
          else
            var slot := SlotName(name);
            var run := Sync(Body(app.game, fails), SaveMetadata(map[], mode), app.config, 0, |app.config|);
            Reply(app.(slots := app.slots[slot := run.fs]), Started(slot, mode), run.events)
  }

  /**
   * A slot that is started is the stripped name and is new; the other slots and the rest of the
   * window are unchanged.
   */
  lemma NewSlotCreates(app: App, input: string, ok: bool, choice: Choice, mkdirRaises: bool, fails: string -> bool)
    requires app.config != [] && ok && Strip(input) != "" && !Taken(app, Strip(input)) && choice != Cancel && !mkdirRaises
    ensures var r := NewSlot(app, input, ok, choice, mkdirRaises, fails);
      var name := r.action.name;
      && r.action.Started?
      && name == SlotName(Strip(input))
      && ToPath(name) == ToPath(Strip(input))
      && name !in app.slots
      && r.app == app.(slots := app.slots[name := r.app.slots[name]])
      && Some(r.action.mode) == ChooseSaveMode(choice)
  {
    var name := SlotName(Strip(input));
    JoinRoundTrip(ToPath(Strip(input)));
    var mode := ChooseSaveMode(choice).value;
    var run := Sync(Body(app.game, fails), SaveMetadata(map[], mode), app.config, 0, |app.config|);
    assert NewSlot(app, input, ok, choice, false, fails) == Reply(app.(slots := app.slots[name := run.fs]), Started(name, mode), run.events);
  }

  /**
   * A new slot always holds a `metadata.json`. Unless a listed path of the game reaches
   * `metadata.json` itself, it is the file `save_metadata` wrote, and it reads back as the chosen mode.
   */
  lemma NewSlotRecordsMode(app: App, input: string, ok: bool, choice: Choice, mkdirRaises: bool, fails: string -> bool, read: Reader)
    requires app.config != [] && ok && Strip(input) != "" && !Taken(app, Strip(input)) && choice != Cancel && !mkdirRaises
    requires ReadsBack(read, ChooseSaveMode(choice).value)
    ensures var files := NewSlot(app, input, ok, choice, mkdirRaises, fails).app.slots[SlotName(Strip(input))];
      var mode := ChooseSaveMode(choice).value;
      && MetaPath in files
      && (!TouchedBy(app.game, app.config, MetaPath) ==>
            files[MetaPath] == File(MetaBytes(mode)) && GetSaveMode(files, read) == Str(mode))
  {
    NewSlotRun(app, input, ok, choice, mkdirRaises, fails);
    CopyKeepsMode(app.game, fails, app.config, ChooseSaveMode(choice).value, read);
  }

  /** The files of a started slot are what one copy-worker run leaves in a folder holding only its metadata. */
  lemma NewSlotRun(app: App, input: string, ok: bool, choice: Choice, mkdirRaises: bool, fails: string -> bool)
    requires app.config != [] && ok && Strip(input) != "" && !Taken(app, Strip(input)) && choice != Cancel && !mkdirRaises
    ensures var dir := SaveMetadata(map[], ChooseSaveMode(choice).value);
      NewSlot(app, input, ok, choice, mkdirRaises, fails).app.slots[SlotName(Strip(input))]
        == Sync(Body(app.game, fails), dir, app.config, 0, |app.config|).fs
  {
  }

  /**
   * A copy from the game into a folder holding only the metadata of `mode` keeps `metadata.json`,
   * and keeps it as written, reading back as `mode`, unless a listed path reaches it.
   */
  lemma CopyKeepsMode(game: Fs, fails: string -> bool, config: seq<string>, mode: string, read: Reader)
    requires ReadsBack(read, mode)
    ensures var files := Sync(Body(game, fails), SaveMetadata(map[], mode), config, 0, |config|).fs;
      && MetaPath in files
      && (!TouchedBy(game, config, MetaPath) ==>
            files[MetaPath] == File(MetaBytes(mode)) && GetSaveMode(files, read) == Str(mode))
  {
    SyncFrame(game, fails, SaveMetadata(map[], mode), config, 0, |config|);
    MetadataRoundTrip(map[], mode, read);
  }

  /** `backup_save` (main.py:397-413). */
  function BackupSave(app: App, input: string, ok: bool, choice: Choice, mkdirRaises: bool, fails: string -> bool): (r: Reply)
    ensures r.action.Started? <==>
      app.config != [] && ok && Strip(input) != "" && !Taken(app, Strip(input)) && choice != Cancel && !mkdirRaises
    ensures r.action.Started? ==> r.action.name == SlotName(Strip(input)) && r.action.name in r.app.slots
  {
    NewSlot(app, input, ok, choice, mkdirRaises, fails)
  }

  /** `create_new_save` (main.py:440-456): the same steps as `backup_save`. */
  function CreateNewSave(app: App, input: string, ok: bool, choice: Choice, mkdirRaises: bool, fails: string -> bool): (r: Reply)
    ensures r.action.Started? <==>
      app.config != [] && ok && Strip(input) != "" && !Taken(app, Strip(input)) && choice != Cancel && !mkdirRaises
    ensures r.action.Started? ==> r.action.name == SlotName(Strip(input)) && r.action.name in r.app.slots
  {
    NewSlot(app, input, ok, choice, mkdirRaises, fails)
  }

  /**
   * A new slot holds its metadata and what one copy-worker run from the game leaves: nothing but
   * `metadata.json` and entries the allowlist's paths reach, and, when the run succeeds and the
   * game's folder is well formed, everything at or below each listed path that exists, with the
   * game's content. A game file named `metadata.json` that is listed replaces the recorded mode.
   */
  lemma NewSlotHoldsSelection(app: App, input: string, ok: bool, choice: Choice, mkdirRaises: bool, fails: string -> bool)
    requires WellFormed(app.game)
    requires app.config != [] && ok && Strip(input) != "" && !Taken(app, Strip(input)) && choice != Cancel && !mkdirRaises
    ensures var r := NewSlot(app, input, ok, choice, mkdirRaises, fails);
      var files := r.app.slots[SlotName(Strip(input))];
      && (forall q | q in files :: q == MetaPath || TouchedBy(app.game, app.config, q))
      && (Succeeded(r.events) ==>
            forall q | q in app.game && CoveredBy(app.game, app.config, q) :: q in files && files[q] == app.game[q])
  {
    var dir := SaveMetadata(map[], ChooseSaveMode(choice).value);
    SyncFrame(app.game, fails, dir, app.config, 0, |app.config|);
    SyncCopiesContent(app.game, fails, dir, app.config, 0, |app.config|);
  }

  /** Creating the same name twice: the second attempt creates nothing and changes nothing. */
  lemma CreateTwice(app: App, input: string, choice: Choice, ok2: bool, choice2: Choice, mkdirRaises2: bool, fails: string -> bool)
    requires app.config != [] && Strip(input) != "" && !Taken(app, Strip(input)) && choice != Cancel
    ensures var app2 := NewSlot(app, input, true, choice, false, fails).app;
      var r := NewSlot(app2, input, ok2, choice2, mkdirRaises2, fails);
      r.action == (if ok2 then NameTaken else Dismissed) && r.app == app2
  {
  }

  /**
   * The step of a copy from the slot `name`: the worker's step over the slot's files, or, when
   * no such slot directory exists, a step for which every path is missing.
   */
  function FromSlot(app: App, name: string, fails: string -> bool): Step {
    if name in app.slots then Body(app.slots[name], fails) else NoSource()
  }

  /**
   * `load_save`: refuse without a selected slot; do nothing unless the overwrite is confirmed;
   * otherwise copy the allowlist from the slot into the game. Only the game changes.
   */
  function LoadSave(app: App, confirmed: bool, fails: string -> bool): (r: Reply)
    ensures r.app.slots == app.slots && r.app.config == app.config && r.app.current == app.current
    ensures !HasCurrent(app.current) ==> r.action == NeedSelection && r.app == app
    ensures HasCurrent(app.current) && !confirmed ==> r.action == Dismissed && r.app == app
    ensures HasCurrent(app.current) && confirmed ==> r.action == Loading(app.current.value)
  {
    if !HasCurrent(app.current) then Reply(app, NeedSelection, [])
    else if !confirmed then Reply(app, Dismissed, [])
    else
      var name := app.current.value;
      var run := Sync(FromSlot(app, name, fails), app.game, app.config, 0, |app.config|);
      Reply(app.(game := run.fs), Loading(name), run.events)
  }

  /**
   * Loading a selected name that has no slot directory finds every listed path missing: the
   * game is left as it was and the run reports success.
   */
  lemma LoadMissingSlot(app: App, fails: string -> bool)
    requires HasCurrent(app.current) && app.current.value !in app.slots
    ensures var r := LoadSave(app, true, fails);
      r.app == app && r.events == [Finished(true)]
  {
    SyncNoSource(app.game, app.config, 0, |app.config|);
  }

  /**
   * A confirmed load keeps every entry of the game's folder, changes only entries the slot's
   * listed paths reach, and after a successful run from a well-formed slot holds every slot entry
   * at or below a listed path with the slot's content (the slot's own `metadata.json` too, when
   * a listed path reaches it).
   */
  lemma LoadSaveCopies(app: App, fails: string -> bool)
    requires HasCurrent(app.current)
    ensures var r := LoadSave(app, true, fails);
      var slot := SlotFiles(app, app.current.value);
      && r.action == Loading(app.current.value)
      && (forall q | q in app.game :: q in r.app.game)
      && (forall q | q in r.app.game && !TouchedBy(slot, app.config, q) :: q in app.game && r.app.game[q] == app.game[q])
      && (WellFormed(slot) && Succeeded(r.events) ==>
            forall q | q in slot && CoveredBy(slot, app.config, q) :: q in r.app.game && r.app.game[q] == slot[q])
  {
    if app.current.value in app.slots {
      var slot := app.slots[app.current.value];
      SyncFrame(slot, fails, app.game, app.config, 0, |app.config|);
      if WellFormed(slot) {
        SyncCopiesContent(slot, fails, app.game, app.config, 0, |app.config|);
      }
    } else {
      LoadMissingSlot(app, fails);
    }
  }

  /**
   * `restore_after_launch`: copy the allowlist from the game into the slot `name`. The game is
   * not touched; a slot directory that did not exist appears once something is copied into it.
   */
  function RestoreAfterLaunch(app: App, name: string, fails: string -> bool): (r: Reply)
    ensures r.app.game == app.game && r.app.config == app.config && r.app.current == app.current
    ensures r.app.others == app.others
    ensures forall n | n in app.slots && n != name :: n in r.app.slots && r.app.slots[n] == app.slots[n]
    ensures r.app.slots.Keys <= app.slots.Keys + {name}
  {
    var run := Sync(Body(app.game, fails), SlotFiles(app, name), app.config, 0, |app.config|);
    if name in app.slots || run.fs != map[] then
      Reply(app.(slots := app.slots[name := run.fs]), Restoring(name), run.events)
    else
      Reply(app, Restoring(name), run.events)
  }

  /**
   * A restore keeps every entry of the slot, `metadata.json` included, changes only entries the
   * game's listed paths reach, and after a successful run from a well-formed game folder holds
   * every game entry at or below a listed path with the game's content.
   */
  lemma RestoreCopies(app: App, name: string, fails: string -> bool)
    ensures var r := RestoreAfterLaunch(app, name, fails);
      var before := SlotFiles(app, name);
      var after := SlotFiles(r.app, name);
      && r.action == Restoring(name)
      && (forall q | q in before :: q in after)
      && (forall q | q in after && !TouchedBy(app.game, app.config, q) :: q in before && after[q] == before[q])
      && (WellFormed(app.game) && Succeeded(r.events) ==>
            forall q | q in app.game && CoveredBy(app.game, app.config, q) :: q in after && after[q] == app.game[q])
  {
    var before := SlotFiles(app, name);
    SyncFrame(app.game, fails, before, app.config, 0, |app.config|);
    if WellFormed(app.game) {
      SyncCopiesContent(app.game, fails, before, app.config, 0, |app.config|);
    }
  }

  /**
   * `launch_game` as written: the restore runs when the launch worker finishes, which is when the
   * `steam` command it started returns, and it reads `current_save` at that moment. By then the
   * user may have selected another slot (main.py:356) or deleted the selected one (main.py:488):
   * the restore goes to whatever is selected then, and raises when nothing is.
   */
  function LaunchGameAsWritten(app: App, selectedAtExit: Option<string>, fails: string -> bool): (r: Reply)
    ensures !HasCurrent(app.current) ==> r.action == NeedSelection && r.app == app
    ensures HasCurrent(app.current) ==> r.app.current == selectedAtExit && r.app.game == app.game
    ensures HasCurrent(app.current) && selectedAtExit.None? ==> r.action == RestoreRaised && r.app == app.(current := None)
    ensures HasCurrent(app.current) && selectedAtExit.Some? ==> r.action == Restoring(selectedAtExit.value)
  {
    if !HasCurrent(app.current) then Reply(app, NeedSelection, [])
    else match selectedAtExit
      case None => Reply(app.(current := None), RestoreRaised, [])
      case Some(n) => RestoreAfterLaunch(app.(current := selectedAtExit), n, fails)
  }

  /**
   * Selecting another slot before the launch worker finishes sends the restore to that slot:
   * the slot that was launched is left as it was, and the other one receives the game's files.
   */
  lemma LaunchAsWrittenMissesLaunchedSlot(app: App, other: string, fails: string -> bool)
    requires HasCurrent(app.current) && app.current.value in app.slots
    requires other != app.current.value
    ensures var r := LaunchGameAsWritten(app, Some(other), fails);
      && r.action == Restoring(other)
      && r.app.slots[app.current.value] == app.slots[app.current.value]
  {
  }

  /**
   * `launch_game` with the slot name taken when the launch is started: the restore goes into the
   * slot that was launched, whatever is selected when the launch worker finishes. Nothing else
   * in the window changes: not the game, not the selection, not the other slots.
   */
  function LaunchGame(app: App, fails: string -> bool): (r: Reply)
    ensures !HasCurrent(app.current) ==> r.action == NeedSelection && r.app == app
    ensures HasCurrent(app.current) ==> r.action == Restoring(app.current.value)
    ensures r.app.game == app.game && r.app.config == app.config && r.app.current == app.current
    ensures r.app.others == app.others
    ensures forall n | n in app.slots && Some(n) != app.current :: n in r.app.slots && r.app.slots[n] == app.slots[n]
    ensures forall n | n in r.app.slots && Some(n) != app.current :: n in app.slots
  {
    if !HasCurrent(app.current) then Reply(app, NeedSelection, [])
    else
      var name := app.current.value;
      RestoreAfterLaunch(app, name, fails)
  }

  /**
   * The corrected launch restores into the launched slot: the slot keeps every entry it had, and
   * after a successful run from a well-formed game folder holds every game entry at or below a
   * listed path with the game's content. With no selection change before the worker finishes,
   * the program as written does the same.
   */
  lemma LaunchRestoresLaunchedSlot(app: App, fails: string -> bool)
    requires HasCurrent(app.current)
    ensures var r := LaunchGame(app, fails);
      var before := SlotFiles(app, app.current.value);
      var after := SlotFiles(r.app, app.current.value);
      && (forall q | q in before :: q in after)
      && (WellFormed(app.game) && Succeeded(r.events) ==>
            forall q | q in app.game && CoveredBy(app.game, app.config, q) :: q in after && after[q] == app.game[q])
    ensures LaunchGameAsWritten(app, app.current, fails) == LaunchGame(app, fails)
  {
    RestoreCopies(app, app.current.value, fails);
  }

  /**
   * The enabled buttons agree with the handlers' own checks: backup and create are enabled
   * exactly when their handlers get past the allowlist check, and load and launch only when
   * their handlers get past the selection check.
   */
  lemma ButtonsMatchGuards(app: App, input: string, ok: bool, choice: Choice, mkdirRaises: bool, confirmed: bool, fails: string -> bool)
    ensures var b := UpdateButtons(app.config, app.current);
      && (b.backup <==> NewSlot(app, input, ok, choice, mkdirRaises, fails).action != NeedConfig)
      && (b.load ==> LoadSave(app, confirmed, fails).action != NeedSelection)
      && (b.launch ==> LaunchGame(app, fails).action != NeedSelection)
  {
  }

  /** Without an allowlist file, nothing that copies can be started. */
  lemma NoConfigDisablesCopies(f: ConfigFile, current: Option<string>)
    requires !f.Saved?
    ensures var b := UpdateButtons(LoadConfig(f), current);
      !b.backup && !b.create && !b.load && !b.launch
  {
  }
}
