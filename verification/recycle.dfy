/**
 * The recycle engine of the Go agent: moving a path into today's date
 * directory under the server directory, journaling it, and restoring
 * journaled entries. The worker pool is read as one sequential loop.
 *
 * Every effect on the disk is stated by a pure function over `Disk`
 * (`Move`, `UpdateJournals`, `Restore`, ...); the methods of `RecycleBin`
 * perform the same steps one at a time on its fields and are proved to end
 * in the state those functions give. Which system calls fail is an oracle:
 * a `MoveEnv` per moved path, an `AttemptEnv` per restore attempt.
 */
module Recycle {
  import opened Wrappers
  import Text
  import opened GoPath
  import opened FileSystem
  import opened Metadata

  /** The `metadata.json` files, by path; kept apart from the other files. */
  type Journals = map<Path, JournalDoc>

  datatype Disk = Disk(fs: Tree, journals: Journals)

  function MetadataFile(dateDir: Path): Path
  {
    Join(dateDir, "metadata.json")
  }

  function Lookup(journals: Journals, file: Path): Option<JournalDoc>
  {
    if file in journals then Some(journals[file]) else None
  }

  /** The recycle-bin name of a directory: `<base>_<HH:MM:SS>`. */
  function DirDestName(path: Path, clock: string): string
  {
    Base(path) + "_" + clock
  }

  /** The recycle-bin name of a file: `<base>_<HH:MM:SS><ext>`, so the extension appears twice. */
  function FileDestName(path: Path, clock: string): string
  {
    Base(path) + "_" + clock + Ext(path)
  }

  /** `writeMetadata` on the date directory's journal; its error is ignored by the callers. */
  function AppendEntry(journals: Journals, dateDir: Path, entry: FileMetadata, readOk: bool, writeOk: bool): Journals
  {
    var file := MetadataFile(dateDir);
    var out := JournalWrite(Lookup(journals, file), entry, readOk, writeOk);
    if out.file.Some? then journals[file := out.file.value] else journals
  }

  // ---------------------------------------------------------------------
  // Moving one path (moveFileToRecycleBin)
  // ---------------------------------------------------------------------

  /**
   * What the system does during one move. The source reads the clock three
   * times: for the date directory, for the `HH:MM:SS` suffix and for
   * `DeletedAt`; they are three independent readings here.
   */
  datatype MoveEnv = MoveEnv(
    date: string,
    clock: string,
    deletedAt: Instant,
    mkdirOk: bool,
    mime: Option<string>,
    renameOk: bool,
    readOk: bool,
    writeOk: bool,
    removeOk: bool,
    journalReadOk: bool,
    journalWriteOk: bool)

  /** Which log line the move ends with; `Moved` carries the entry it journals. */
  datatype MoveStatus =
    | NotFound
    | DirRenameFailed
    | DetectFailed
    | ReadFailed
    | WriteFailed
    | RemoveFailed
    | Moved(entry: FileMetadata)

  datatype MoveResult = MoveResult(disk: Disk, status: MoveStatus)

  /** The date directory a move with this environment uses. */
  function DateDir(serverDir: Path, env: MoveEnv): Path
  {
    Join(serverDir, env.date)
  }

  /** Where a move with this environment puts `path`. */
  function Destination(serverDir: Path, path: Path, node: Node, env: MoveEnv): Path
  {
    Join(DateDir(serverDir, env), if node.Dir? then DirDestName(path, env.clock) else FileDestName(path, env.clock))
  }

  /** The tree after moving a file's data to the bin, or the tree and status of the step that failed. */
  datatype Transfer = Transferred(fs: Tree) | TransferFailed(fs: Tree, status: MoveStatus)

  /**
   * Rename `path` to `dest`; if that fails, read it, write the copy with the
   * file's own mode, and remove the original. Each step's failure ends the
   * transfer with its own status.
   */
  function TransferFile(fs: Tree, path: Path, dest: Path, mode: nat, env: MoveEnv): Transfer
  {
    if env.renameOk then Transferred(Rename(fs, path, dest))
    else
      match ReadFile(fs, path, env.readOk)
      case None => TransferFailed(fs, ReadFailed)
      case Some(data) =>
        if !env.writeOk || (dest in fs && fs[dest].Dir?) then TransferFailed(fs, WriteFailed)
        else
          var fs2 := WriteFile(fs, dest, data, mode);
          if !env.removeOk then TransferFailed(fs2, RemoveFailed) else Transferred(Remove(fs2, path))
  }

  /** The tree once the date directory was (or failed to be) created. */
  function Prepared(fs: Tree, serverDir: Path, env: MoveEnv): Tree
  {
    if env.mkdirOk then MkdirAll(fs, DateDir(serverDir, env)) else fs
  }

  /** The entry journaled for a moved path: its size is 0 for a directory. */
  function EntryFor(path: Path, node: Node, dest: Path, fileType: string, env: MoveEnv): FileMetadata
  {
    FileMetadata(path, Base(path), Base(dest), if node.Dir? then 0 else |node.content|, env.deletedAt, fileType)
  }

  /** `moveFileToRecycleBin(file, serverDir, ...)`. */
  function Move(d: Disk, serverDir: Path, path: Path, env: MoveEnv): MoveResult
  {
    match Stat(d.fs, path)
    case None => MoveResult(d, NotFound)
    case Some(node) =>
      MoveTo(d, Prepared(d.fs, serverDir, env), DateDir(serverDir, env), path, node, Destination(serverDir, path, node, env), env)
  }

  /**
   * The rest of a move of `node`, found at `path`, once the tree is `fs1`
   * (the date directory `dateDir` prepared): a directory is renamed to
   * `dest`, a file needs its MIME type and is transferred; a completed move
   * appends its entry to the date directory's journal.
   */
  function MoveTo(d: Disk, fs1: Tree, dateDir: Path, path: Path, node: Node, dest: Path, env: MoveEnv): MoveResult
  {
    if node.Dir? then
      if !env.renameOk then MoveResult(Disk(fs1, d.journals), DirRenameFailed)
      else
        var entry := EntryFor(path, node, dest, "directory", env);
        MoveResult(Disk(Rename(fs1, path, dest), AppendEntry(d.journals, dateDir, entry, env.journalReadOk, env.journalWriteOk)), Moved(entry))
    else if env.mime.None? then MoveResult(Disk(fs1, d.journals), DetectFailed)
    else
      match TransferFile(fs1, path, dest, node.mode, env)
      case TransferFailed(fs2, status) => MoveResult(Disk(fs2, d.journals), status)
      case Transferred(fs2) =>
        var entry := EntryFor(path, node, dest, env.mime.value, env);
        MoveResult(Disk(fs2, AppendEntry(d.journals, dateDir, entry, env.journalReadOk, env.journalWriteOk)), Moved(entry))
  }

  /** The queue `recycleFiles` fills: every argument, trimmed, duplicates kept. */
  function Queue(files: seq<string>): (q: seq<Path>)
    ensures |q| == |files|
  {
    seq(|files|, i requires 0 <= i < |files| => Text.TrimSpace(files[i]))
  }

  /** What the workers take from the queue: all of it, unless no worker starts. */
  function Dispatched(files: seq<string>, numWorkers: int): seq<Path>
  {
    if numWorkers <= 0 then [] else Queue(files)
  }

  /** Moving the queued paths one after another; the `k`-th move sees `env(k)`. */
  function MoveAll(d: Disk, serverDir: Path, queue: seq<Path>, env: nat -> MoveEnv, k: nat): Disk
    decreases |queue|
  {
    if queue == [] then d
    else MoveAll(Move(d, serverDir, queue[0], env(k)).disk, serverDir, queue[1..], env, k + 1)
  }

  // ---------------------------------------------------------------------
  // Rewriting a journal (updateMetadata)
  // ---------------------------------------------------------------------

  /** What `updateMetadata`'s loop appends for one entry. */
  function Kept(meta: FileMetadata, target: FileMetadata, remove: bool): seq<FileMetadata>
  {
    if !SameEvent(meta, target) then [meta] else if remove then [] else [target]
  }

  /** `updatedMetadata` after the loop over `entries`. */
  function Updated(entries: seq<FileMetadata>, target: FileMetadata, remove: bool): seq<FileMetadata>
    decreases |entries|
  {
    if entries == [] then []
    else Updated(entries[..|entries| - 1], target, remove) + Kept(entries[|entries| - 1], target, remove)
  }

  /** `updateMetadata(dateDir, target, remove)` on the journals: nothing is written after a read or decode error. */
  function UpdateJournals(journals: Journals, dateDir: Path, target: FileMetadata, remove: bool, readOk: bool, writeOk: bool): Journals
  {
    var file := MetadataFile(dateDir);
    if file !in journals || !readOk then journals
    else
      match Decode(journals[file])
      case None => journals
      case Some(entries) =>
        if writeOk then journals[file := Encode(Updated(entries, target, remove))] else journals
  }

  /** The entries that do not belong to `target`'s event. */
  function OtherEvent(target: FileMetadata): FileMetadata -> bool
  {
    meta => !SameEvent(meta, target)
  }

  // ---------------------------------------------------------------------
  // Restoring (restoreFile)
  // ---------------------------------------------------------------------

  /** One path `filepath.Walk` visits, with whether its `FileInfo` is a directory. */
  datatype WalkItem = WalkItem(path: Path, isDir: bool)

  /** The directories the walk callback collects: every directory except the server directory. */
  function WalkDirs(serverDir: Path, items: seq<WalkItem>): (r: seq<Path>)
    ensures |r| <= |items|
    ensures forall j :: 0 <= j < |r| ==> r[j] != serverDir && WalkItem(r[j], true) in items
    ensures forall i :: 0 <= i < |items| && items[i].isDir && items[i].path != serverDir ==> items[i].path in r
    decreases |items|
  {
    if items == [] then []
    else
      var last := items[|items| - 1];
      WalkDirs(serverDir, items[..|items| - 1]) + (if last.isDir && last.path != serverDir then [last.path] else [])
  }

  /** `targetDirs`: one date directory, or every directory the walk found; `None` when the walk failed. */
  function TargetDirs(serverDir: Path, restoreDate: string, walk: Option<seq<WalkItem>>): Option<seq<Path>>
  {
    if restoreDate != "" then Some([Join(serverDir, restoreDate)])
    else if walk.None? then None
    else Some(WalkDirs(serverDir, walk.value))
  }

  /** What the system does during one restore attempt. */
  datatype AttemptEnv = AttemptEnv(
    renameOk: bool,
    readOk: bool,
    writeOk: bool,
    removeOk: bool,
    journalReadOk: bool,
    journalWriteOk: bool)

  /**
   * What the system does during one `restoreFile`: the walk (its visits in
   * order, or `None` when it reports an error), whether each date
   * directory's journal can be read, and the outcome of the `k`-th attempt.
   */
  datatype RestoreEnv = RestoreEnv(
    walk: Option<seq<WalkItem>>,
    journalReadable: Path -> bool,
    attempt: nat -> AttemptEnv)

  /** The tree after moving a recycled entry back, and whether that succeeded. */
  datatype Relocation = Relocation(fs: Tree, ok: bool)

  /**
   * Rename `current` back to `original`; if that fails, copy with mode
   * `os.ModePerm` and remove the recycle-bin copy. A failed removal leaves
   * both copies and counts as a failure.
   */
  function RelocateBack(fs: Tree, current: Path, original: Path, a: AttemptEnv): Relocation
  {
    if a.renameOk then Relocation(Rename(fs, current, original), true)
    else
      match ReadFile(fs, current, a.readOk)
      case None => Relocation(fs, false)
      case Some(data) =>
        if !a.writeOk || (original in fs && fs[original].Dir?) then Relocation(fs, false)
        else
          var fs2 := WriteFile(fs, original, data, ModePerm);
          if !a.removeOk then Relocation(fs2, false) else Relocation(Remove(fs2, current), true)
  }

  /**
   * Where a restore stands: the disk, how many attempts were made (to index
   * the oracle), the entries restored so far, and whether it has returned.
   */
  datatype Progress = Progress(disk: Disk, attempts: nat, restored: seq<FileMetadata>, stopped: bool)

  /** One pass of the loop over a journal's entries. */
  function RestoreEntry(p: Progress, dateDir: Path, meta: FileMetadata, singleFile: string, env: RestoreEnv): Progress
  {
    if singleFile != "" && meta.originalName != singleFile then p
    else
      var current := Join(dateDir, meta.currentName);
      if Stat(p.disk.fs, current).None? then p
      else
        var a := env.attempt(p.attempts);
        var rel := RelocateBack(p.disk.fs, current, meta.originalPath, a);
        if !rel.ok then Progress(Disk(rel.fs, p.disk.journals), p.attempts + 1, p.restored, false)
        else
          var journals := UpdateJournals(p.disk.journals, dateDir, meta, true, a.journalReadOk, a.journalWriteOk);
          Progress(Disk(rel.fs, journals), p.attempts + 1, p.restored + [meta], singleFile != "")
  }

  function RestoreEntries(p: Progress, dateDir: Path, entries: seq<FileMetadata>, singleFile: string, env: RestoreEnv): Progress
    decreases |entries|
  {
    if entries == [] || p.stopped then p
    else RestoreEntries(RestoreEntry(p, dateDir, entries[0], singleFile, env), dateDir, entries[1..], singleFile, env)
  }

  /** One date directory: skipped when its journal is missing, unreadable or undecodable. */
  function RestoreBucket(p: Progress, dateDir: Path, singleFile: string, env: RestoreEnv): Progress
  {
    var file := MetadataFile(dateDir);
    if p.stopped || file !in p.disk.journals || !env.journalReadable(dateDir) then p
    else
      match Decode(p.disk.journals[file])
      case None => p
      case Some(entries) => RestoreEntries(p, dateDir, entries, singleFile, env)
  }

  function RestoreDirs(p: Progress, dirs: seq<Path>, singleFile: string, env: RestoreEnv): Progress
    decreases |dirs|
  {
    if dirs == [] || p.stopped then p
    else RestoreDirs(RestoreBucket(p, dirs[0], singleFile, env), dirs[1..], singleFile, env)
  }

  /** `restoreFile(serverDir, restoreDate, singleFile)`. */
  function Restore(d: Disk, serverDir: Path, restoreDate: string, singleFile: string, env: RestoreEnv): Progress
  {
    var start := Progress(d, 0, [], false);
    match TargetDirs(serverDir, restoreDate, env.walk)
    case None => start
    case Some(dirs) => RestoreDirs(start, dirs, singleFile, env)
  }

  // ---------------------------------------------------------------------
  // The loops as methods
  // ---------------------------------------------------------------------

  /** The loop of `updateMetadata` that builds `updatedMetadata`. */
  method RebuildJournal(entries: seq<FileMetadata>, target: FileMetadata, remove: bool) returns (updated: seq<FileMetadata>)
    ensures updated == Updated(entries, target, remove)
  {
    updated := [];
    var i := 0;
    while i < |entries|
      invariant 0 <= i <= |entries|
      invariant updated == Updated(entries[..i], target, remove)
    {
      var meta := entries[i];
      if !SameEvent(meta, target) {
        updated := updated + [meta];
      } else if !remove {
        updated := updated + [target];
      }
      assert entries[..i + 1][..i] == entries[..i];
      i := i + 1;
    }
    assert entries[..i] == entries;
  }

  /** The walk and its callback, collecting `targetDirs`. */
  method CollectTargetDirs(serverDir: Path, restoreDate: string, walk: Option<seq<WalkItem>>) returns (dirs: Option<seq<Path>>)
    ensures dirs == TargetDirs(serverDir, restoreDate, walk)
  {
    if restoreDate != "" {
      return Some([Join(serverDir, restoreDate)]);
    }
    if walk.None? {
      return None;
    }
    var items := walk.value;
    var targetDirs: seq<Path> := [];
    var i := 0;
    while i < |items|
      invariant 0 <= i <= |items|
      invariant targetDirs == WalkDirs(serverDir, items[..i])
    {
      if items[i].isDir && items[i].path != serverDir {
        targetDirs := targetDirs + [items[i].path];
      }
      assert items[..i + 1][..i] == items[..i];
      i := i + 1;
    }
    assert items[..i] == items;
    return Some(targetDirs);
  }

  /** The host's staging area: its files and its journals, under `serverDir`. */
  class RecycleBin {
    const serverDir: Path
    var fs: Tree
    var journals: Journals

    function State(): Disk
      reads this
    {
      Disk(fs, journals)
    }

    constructor (serverDir: Path, d: Disk)
      ensures this.serverDir == serverDir && State() == d
    {
      this.serverDir := serverDir;
      fs := d.fs;
      journals := d.journals;
    }

    /** `writeMetadata(dateDir, entry)`. */
    method WriteMetadata(dateDir: Path, entry: FileMetadata, readOk: bool, writeOk: bool) returns (err: Option<JournalError>)
      modifies this
      ensures fs == old(fs)
      ensures journals == AppendEntry(old(journals), dateDir, entry, readOk, writeOk)
      ensures err == JournalWrite(Lookup(old(journals), MetadataFile(dateDir)), entry, readOk, writeOk).err
    {
      var metadataFile := MetadataFile(dateDir);
      var existing: seq<FileMetadata> := [];
      if metadataFile in journals {
        if !readOk {
          return Some(ReadError);
        }
        var decoded := Decode(journals[metadataFile]);
        if decoded.Some? {
          existing := decoded.value;
        }
      }
      existing := existing + [entry];
      if !writeOk {
        return Some(WriteError);
      }
      journals := journals[metadataFile := Encode(existing)];
      return None;
    }

    /** `updateMetadata(dateDir, target, remove)`. */
    method UpdateMetadata(dateDir: Path, target: FileMetadata, remove: bool, readOk: bool, writeOk: bool)
      modifies this
      ensures State() == Disk(old(fs), UpdateJournals(old(journals), dateDir, target, remove, readOk, writeOk))
    {
      var metadataFile := MetadataFile(dateDir);
      if metadataFile !in journals || !readOk {
        return;
      }
      var decoded := Decode(journals[metadataFile]);
      if decoded.None? {
        return;
      }
      var updated := RebuildJournal(decoded.value, target, remove);
      if writeOk {
        journals := journals[metadataFile := Encode(updated)];
      }
    }

    /** `moveFileToRecycleBin(file, serverDir, ...)`. */
    method MoveFileToRecycleBin(path: Path, env: MoveEnv) returns (status: MoveStatus)
      modifies this
      ensures MoveResult(State(), status) == Move(old(State()), serverDir, path, env)
    {
      if Stat(fs, path).None? {
        return NotFound;
      }
      var node := fs[path];
      var dateDir := Join(serverDir, env.date);
      if env.mkdirOk {
        fs := MkdirAll(fs, dateDir);
      }
      if node.Dir? {
        var destPath := Join(dateDir, DirDestName(path, env.clock));
        if !env.renameOk {
          return DirRenameFailed;
        }
        fs := Rename(fs, path, destPath);
        var entry := EntryFor(path, node, destPath, "directory", env);
        var _ := WriteMetadata(dateDir, entry, env.journalReadOk, env.journalWriteOk);
        return Moved(entry);
      }
      if env.mime.None? {
        return DetectFailed;
      }
      var destPath := Join(dateDir, FileDestName(path, env.clock));
      var failed := Transfer(path, destPath, node.mode, env);
      if failed.Some? {
        return failed.value;
      }
      var entry := EntryFor(path, node, destPath, env.mime.value, env);
      var _ := WriteMetadata(dateDir, entry, env.journalReadOk, env.journalWriteOk);
      return Moved(entry);
    }

    /** Lines 89-110 of `moveFileToRecycleBin`: rename, or copy then remove; the status of a failed step. */
    method Transfer(path: Path, dest: Path, mode: nat, env: MoveEnv) returns (failed: Option<MoveStatus>)
      modifies this
      ensures TransferFile(old(fs), path, dest, mode, env)
           == (if failed.None? then Transferred(fs) else TransferFailed(fs, failed.value))
      ensures journals == old(journals)
    {
      if env.renameOk {
        fs := Rename(fs, path, dest);
        return None;
      }
      var data := ReadFile(fs, path, env.readOk);
      if data.None? {
        return Some(ReadFailed);
      }
      if !env.writeOk || (dest in fs && fs[dest].Dir?) {
        return Some(WriteFailed);
      }
      fs := WriteFile(fs, dest, data.value, mode);
      if !env.removeOk {
        return Some(RemoveFailed);
      }
      fs := Remove(fs, path);
      return None;
    }

    /** `recycleFiles(files, serverDir, numWorkers, ...)`, its workers run one after another. */
    method RecycleFiles(files: seq<string>, numWorkers: int, env: nat -> MoveEnv)
      modifies this
      ensures State() == MoveAll(old(State()), serverDir, Dispatched(files, numWorkers), env, 0)
    {
      var queue: seq<Path> := [];
      for i := 0 to |files|
        invariant queue == Queue(files[..i])
      {
        queue := queue + [Text.TrimSpace(files[i])];
      }
      assert files[..|files|] == files;
      if numWorkers <= 0 {
        return;
      }
      var k := 0;
      while k < |queue|
        invariant 0 <= k <= |queue|
        invariant MoveAll(old(State()), serverDir, queue, env, 0) == MoveAll(State(), serverDir, queue[k..], env, k)
      {
        var _ := MoveFileToRecycleBin(queue[k], env(k));
        assert queue[k..][1..] == queue[k + 1..];
        k := k + 1;
      }
    }

    /** Lines 201-223 of `restoreFile`: rename back, or copy back and remove. */
    method MoveBack(current: Path, original: Path, a: AttemptEnv) returns (ok: bool)
      modifies this
      ensures Relocation(fs, ok) == RelocateBack(old(fs), current, original, a)
      ensures journals == old(journals)
    {
      if a.renameOk {
        fs := Rename(fs, current, original);
        return true;
      }
      var data := ReadFile(fs, current, a.readOk);
      if data.None? {
        return false;
      }
      if !a.writeOk || (original in fs && fs[original].Dir?) {
        return false;
      }
      fs := WriteFile(fs, original, data.value, ModePerm);
      if !a.removeOk {
        return false;
      }
      fs := Remove(fs, current);
      return true;
    }

    /** The loop of `restoreFile` over one journal's entries; `stopped` is its `return`. */
    method RestoreFromJournal(dateDir: Path, metadata: seq<FileMetadata>, singleFile: string, env: RestoreEnv,
                              attempts0: nat, ghost restored0: seq<FileMetadata>)
      returns (attempts: nat, ghost restored: seq<FileMetadata>, stopped: bool)
      modifies this
      ensures Progress(State(), attempts, restored, stopped)
           == RestoreEntries(Progress(old(State()), attempts0, restored0, false), dateDir, metadata, singleFile, env)
    {
      attempts, restored, stopped := attempts0, restored0, false;
      var j := 0;
      while j < |metadata|
        invariant 0 <= j <= |metadata|
        invariant RestoreEntries(Progress(old(State()), attempts0, restored0, false), dateDir, metadata, singleFile, env)
               == RestoreEntries(Progress(State(), attempts, restored, false), dateDir, metadata[j..], singleFile, env)
      {
        var meta := metadata[j];
        assert metadata[j..][1..] == metadata[j + 1..];
        ghost var before := Progress(State(), attempts, restored, false);
        j := j + 1;
        if singleFile != "" && meta.originalName != singleFile {
          continue;
        }
        var currentPath := Join(dateDir, meta.currentName);
        if Stat(fs, currentPath).None? {
          continue;
        }
        var a := env.attempt(attempts);
        attempts := attempts + 1;
        var ok := MoveBack(currentPath, meta.originalPath, a);
        if !ok {
          continue;
        }
        UpdateMetadata(dateDir, meta, true, a.journalReadOk, a.journalWriteOk);
        restored := restored + [meta];
        if singleFile != "" {
          assert RestoreEntry(before, dateDir, meta, singleFile, env) == Progress(State(), attempts, restored, true);
          return attempts, restored, true;
        }
      }
    }

    /** `restoreFile(serverDir, restoreDate, singleFile)`. */
    method RestoreFile(restoreDate: string, singleFile: string, env: RestoreEnv)
      modifies this
      ensures State() == Restore(old(State()), serverDir, restoreDate, singleFile, env).disk
    {
      var targets := CollectTargetDirs(serverDir, restoreDate, env.walk);
      if targets.None? {
        return;
      }
      var dirs := targets.value;
      var attempts: nat := 0;
      ghost var restored: seq<FileMetadata> := [];
      var i := 0;
      while i < |dirs|
        invariant 0 <= i <= |dirs|
        invariant Restore(old(State()), serverDir, restoreDate, singleFile, env)
               == RestoreDirs(Progress(State(), attempts, restored, false), dirs[i..], singleFile, env)
      {
        var dateDir := dirs[i];
        assert dirs[i..][1..] == dirs[i + 1..];
        i := i + 1;
        var metadataFile := MetadataFile(dateDir);
        if metadataFile !in journals || !env.journalReadable(dateDir) {
          continue;
        }
        var decoded := Decode(journals[metadataFile]);
        if decoded.None? {
          continue;
        }
        var stopped;
        attempts, restored, stopped := RestoreFromJournal(dateDir, decoded.value, singleFile, env, attempts, restored);
        if stopped {
          return;
        }
      }
    }
  }
}
