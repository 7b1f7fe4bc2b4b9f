/**
 * What the recycle engine guarantees, stated over the functions of module
 * `Recycle`: which outcomes touch the journal, that a move never loses the
 * data it moves, how journal rewrites filter, what a name-filtered restore
 * does, and that recycling then restoring a path gives it back.
 */
module RecycleLaws {
  import opened Wrappers
  import Text
  import opened GoPath
  import opened FileSystem
  import opened Metadata
  import opened Recycle

  // ---------------------------------------------------------------------
  // Dispatch
  // ---------------------------------------------------------------------

  /**
   * Every argument is queued once, trimmed and in order, whatever the number
   * of workers; the workers take the whole queue off, and with no worker
   * nothing is taken off it.
   */
  lemma DispatchedOnce(files: seq<string>, numWorkers: int)
    ensures |Queue(files)| == |files|
    ensures forall i :: 0 <= i < |files| ==> Queue(files)[i] == Text.TrimSpace(files[i])
    ensures numWorkers > 0 ==> Dispatched(files, numWorkers) == Queue(files)
    ensures numWorkers <= 0 ==> Dispatched(files, numWorkers) == []
  {
  }

  /** The arguments of two batches are queued as the first batch's queue followed by the second's. */
  lemma QueueAppend(a: seq<string>, b: seq<string>)
    ensures Queue(a + b) == Queue(a) + Queue(b)
  {
  }

  /** Draining a queue is draining its first part, then the rest, with the moves counted on. */
  lemma {:induction false} MoveAllAppend(d: Disk, serverDir: Path, q1: seq<Path>, q2: seq<Path>, env: nat -> MoveEnv, k: nat)
    ensures MoveAll(d, serverDir, q1 + q2, env, k) == MoveAll(MoveAll(d, serverDir, q1, env, k), serverDir, q2, env, k + |q1|)
    decreases |q1|
  {
    if q1 != [] {
      var d1 := Move(d, serverDir, q1[0], env(k)).disk;
      var q := q1 + q2;
      assert q[0] == q1[0] && q[1..] == q1[1..] + q2;
      assert MoveAll(d, serverDir, q, env, k) == MoveAll(d1, serverDir, q1[1..] + q2, env, k + 1);
      var m1 := MoveAll(d1, serverDir, q1[1..], env, k + 1);
      assert MoveAll(d, serverDir, q1, env, k) == m1;
      MoveAllAppend(d1, serverDir, q1[1..], q2, env, k + 1);
      assert k + 1 + |q1[1..]| == k + |q1|;
      assert MoveAll(d1, serverDir, q1[1..] + q2, env, k + 1) == MoveAll(m1, serverDir, q2, env, k + |q1|);
    } else {
      assert MoveAll(d, serverDir, q1, env, k) == d;
      assert q1 + q2 == q2;
    }
  }

  /** With no worker nothing is moved. */
  lemma NoWorkersNoChange(d: Disk, serverDir: Path, files: seq<string>, numWorkers: int, env: nat -> MoveEnv)
    requires numWorkers <= 0
    ensures MoveAll(d, serverDir, Dispatched(files, numWorkers), env, 0) == d
  {
  }

  // ---------------------------------------------------------------------
  // One move
  // ---------------------------------------------------------------------

  /** A path that cannot be stat'ed changes nothing: no date directory, no entry. */
  lemma MoveMissingNoChange(d: Disk, serverDir: Path, path: Path, env: MoveEnv)
    requires Stat(d.fs, path).None?
    ensures Move(d, serverDir, path, env) == MoveResult(d, NotFound)
  {
  }

  /** Whether `copy` holds what `node` held: the same kind, and for a file the same bytes. */
  predicate Holds(copy: Node, node: Node)
  {
    copy.Dir? == node.Dir? && (node.File? ==> copy.content == node.content)
  }

  /** With a clock reading free of '/', the destination is never the source itself. */
  lemma DestinationDiffers(serverDir: Path, path: Path, node: Node, env: MoveEnv)
    requires '/' !in env.clock
    ensures Destination(serverDir, path, node, env) != path
  {
    var name := if node.Dir? then DirDestName(path, env.clock) else FileDestName(path, env.clock);
    var dest := Destination(serverDir, path, node, env);
    assert dest == Join(DateDir(serverDir, env), name);
    if Base(path) != "/" {
      assert '/' !in name;
      BaseOfJoin(DateDir(serverDir, env), name);
      assert |name| > |Base(path)|;
      assert Base(dest) != Base(path);
    } else {
      assert '/' in Base(path);
      assert path != [] && path[|path| - 1] == '/';
      assert LastElement(path) == [];
      assert name == "/_" + env.clock;
      assert name[|name| - 1] != '/';
      assert dest[|dest| - 1] == name[|name| - 1];
    }
  }

  /**
   * The fallback transfer never loses the file: a failed read or write
   * changes nothing, a failed removal leaves the source and a copy, and a
   * completed transfer leaves the data at `dest`.
   */
  lemma TransferKeepsData(fs: Tree, path: Path, dest: Path, mode: nat, env: MoveEnv)
    requires path in fs && fs[path].File? && dest != path
    ensures var t := TransferFile(fs, path, dest, mode, env);
      t.Transferred? ==> dest in t.fs && Holds(t.fs[dest], fs[path])
    ensures var t := TransferFile(fs, path, dest, mode, env);
      t.TransferFailed? ==> path in t.fs && t.fs[path] == fs[path]
    ensures var t := TransferFile(fs, path, dest, mode, env);
      t.TransferFailed? ==> t.status.ReadFailed? || t.status.WriteFailed? || t.status.RemoveFailed?
    ensures var t := TransferFile(fs, path, dest, mode, env);
      t.TransferFailed? && !t.status.RemoveFailed? ==> t.fs == fs
    ensures var t := TransferFile(fs, path, dest, mode, env);
      t.TransferFailed? && t.status.RemoveFailed? ==> dest in t.fs && Holds(t.fs[dest], fs[path])
  {
  }

  /**
   * How a move of an existing node ends, whatever its destination: it fails
   * in one of the steps after `Stat` or completes; a failure other than a
   * failed removal leaves the prepared tree as it was.
   */
  lemma MoveToFailure(d: Disk, fs1: Tree, dateDir: Path, path: Path, node: Node, dest: Path, env: MoveEnv)
    ensures var r := MoveTo(d, fs1, dateDir, path, node, dest, env);
      r.status.Moved? || r.status.DirRenameFailed? || r.status.DetectFailed? ||
      r.status.ReadFailed? || r.status.WriteFailed? || r.status.RemoveFailed?
    ensures var r := MoveTo(d, fs1, dateDir, path, node, dest, env);
      !r.status.Moved? && !r.status.RemoveFailed? ==> r.disk.fs == fs1
    ensures var r := MoveTo(d, fs1, dateDir, path, node, dest, env);
      r.status.Moved? <==>
        ((node.Dir? && env.renameOk) ||
         (node.File? && env.mime.Some? && TransferFile(fs1, path, dest, node.mode, env).Transferred?))
  {
  }

  /** Only a completed move touches the journal, and it appends its entry to the date directory's. */
  lemma MoveToJournals(d: Disk, fs1: Tree, dateDir: Path, path: Path, node: Node, dest: Path, env: MoveEnv)
    ensures var r := MoveTo(d, fs1, dateDir, path, node, dest, env);
      !r.status.Moved? ==> r.disk.journals == d.journals
    ensures var r := MoveTo(d, fs1, dateDir, path, node, dest, env);
      r.status.Moved? ==> r.disk.journals == AppendEntry(d.journals, dateDir, r.status.entry, env.journalReadOk, env.journalWriteOk)
  {
  }

  /**
   * The entry a completed move journals names the original path, its base
   * name, the destination's base name, the size (0 for a directory) and the
   * type: "directory", or the file's MIME type.
   */
  lemma MoveToEntry(d: Disk, fs1: Tree, dateDir: Path, path: Path, node: Node, dest: Path, env: MoveEnv)
    ensures var r := MoveTo(d, fs1, dateDir, path, node, dest, env);
      r.status.Moved? && node.Dir? ==> r.status.entry == EntryFor(path, node, dest, "directory", env)
    ensures var r := MoveTo(d, fs1, dateDir, path, node, dest, env);
      r.status.Moved? && node.File? ==> env.mime.Some? && r.status.entry == EntryFor(path, node, dest, env.mime.value, env)
  {
  }

  /**
   * A move to a destination other than the source never loses the data:
   * after a failure the source still holds its node, after a completed move
   * the destination holds the same data (for a directory, everything below
   * it moved along), and after a failed removal both do.
   */
  lemma MoveToKeepsData(d: Disk, fs1: Tree, dateDir: Path, path: Path, node: Node, dest: Path, env: MoveEnv)
    requires path in fs1 && fs1[path] == node && dest != path
    ensures var r := MoveTo(d, fs1, dateDir, path, node, dest, env);
      (r.status.Moved? ==> dest in r.disk.fs && Holds(r.disk.fs[dest], node)) &&
      (r.status.Moved? && node.Dir? ==> SubtreeMoved(fs1, path, r.disk.fs, dest)) &&
      (!r.status.Moved? ==> path in r.disk.fs && r.disk.fs[path] == node) &&
      (r.status.RemoveFailed? ==> dest in r.disk.fs && Holds(r.disk.fs[dest], node))
  {
    if node.File? && env.mime.Some? {
      TransferKeepsData(fs1, path, dest, node.mode, env);
    }
  }

  /**
   * Safety of a move: when it fails the source still holds its node, and
   * when it succeeds the destination holds the same data, a directory with
   * every path below it; after a failed removal both copies exist.
   */
  lemma MoveKeepsData(d: Disk, serverDir: Path, path: Path, env: MoveEnv)
    requires Stat(d.fs, path).Some?
    requires '/' !in env.clock
    ensures var r := Move(d, serverDir, path, env);
      var node := d.fs[path];
      var dest := Destination(serverDir, path, node, env);
      (r.status.Moved? ==> dest in r.disk.fs && Holds(r.disk.fs[dest], node)) &&
      (r.status.Moved? && node.Dir? ==> SubtreeMoved(d.fs, path, r.disk.fs, dest)) &&
      (!r.status.Moved? ==> path in r.disk.fs && r.disk.fs[path] == node) &&
      (r.status.RemoveFailed? ==> dest in r.disk.fs && Holds(r.disk.fs[dest], node))
  {
    var node := d.fs[path];
    var dest := Destination(serverDir, path, node, env);
    var fs1 := Prepared(d.fs, serverDir, env);
    DestinationDiffers(serverDir, path, node, env);
    MoveToKeepsData(d, fs1, DateDir(serverDir, env), path, node, dest, env);
    var r := Move(d, serverDir, path, env);
    if r.status.Moved? && node.Dir? {
      forall p | p in d.fs && Within(p, path)
        ensures Rebase(p, path, dest) in r.disk.fs && r.disk.fs[Rebase(p, path, dest)] == d.fs[p]
      {
        assert p in fs1 && fs1[p] == d.fs[p];
      }
    }
  }

  /** Only a completed move writes the journal, and then only the date directory's, by appending. */
  lemma MoveJournalsOnlyOnSuccess(d: Disk, serverDir: Path, path: Path, env: MoveEnv)
    ensures var r := Move(d, serverDir, path, env);
      !r.status.Moved? ==> r.disk.journals == d.journals
    ensures var r := Move(d, serverDir, path, env);
      r.status.Moved? ==> r.disk.journals == AppendEntry(d.journals, DateDir(serverDir, env), r.status.entry, env.journalReadOk, env.journalWriteOk)
  {
    if Stat(d.fs, path).Some? {
      var node := d.fs[path];
      MoveToJournals(d, Prepared(d.fs, serverDir, env), DateDir(serverDir, env), path, node, Destination(serverDir, path, node, env), env);
    }
  }

  /** A move whose rename succeeds: the path goes to its destination and its entry is appended. */
  lemma MoveByRename(d: Disk, serverDir: Path, path: Path, env: MoveEnv)
    requires Stat(d.fs, path).Some?
    requires env.renameOk && (d.fs[path].File? ==> env.mime.Some?)
    ensures var node := d.fs[path];
      var dest := Destination(serverDir, path, node, env);
      var entry := EntryFor(path, node, dest, if node.Dir? then "directory" else env.mime.value, env);
      Move(d, serverDir, path, env) ==
        MoveResult(Disk(Rename(Prepared(d.fs, serverDir, env), path, dest),
                        AppendEntry(d.journals, DateDir(serverDir, env), entry, env.journalReadOk, env.journalWriteOk)),
                   Moved(entry))
  {
  }

  /** The name a path gets in the bin is the last element of its destination. */
  lemma DestinationName(serverDir: Path, path: Path, node: Node, env: MoveEnv)
    requires '/' !in env.clock && Base(path) != "/"
    ensures var name := if node.Dir? then DirDestName(path, env.clock) else FileDestName(path, env.clock);
      Base(Destination(serverDir, path, node, env)) == name &&
      Join(DateDir(serverDir, env), name) == Destination(serverDir, path, node, env)
  {
    var name := if node.Dir? then DirDestName(path, env.clock) else FileDestName(path, env.clock);
    assert '/' !in name;
    BaseOfJoin(DateDir(serverDir, env), name);
  }

  /** An unsuccessful move changes no path except by creating the date directory. */
  lemma FailedMoveOnlyCreatesDateDir(d: Disk, serverDir: Path, path: Path, env: MoveEnv)
    requires var r := Move(d, serverDir, path, env); !r.status.Moved? && !r.status.RemoveFailed?
    ensures var r := Move(d, serverDir, path, env);
      r.disk.fs.Keys <= d.fs.Keys + {DateDir(serverDir, env)} &&
      forall q :: q in d.fs ==> q in r.disk.fs && r.disk.fs[q] == d.fs[q]
  {
    if Stat(d.fs, path).Some? {
      var node := d.fs[path];
      MoveToFailure(d, Prepared(d.fs, serverDir, env), DateDir(serverDir, env), path, node, Destination(serverDir, path, node, env), env);
    }
  }

  /** The entry a completed move journals. */
  lemma MovedEntry(d: Disk, serverDir: Path, path: Path, env: MoveEnv)
    ensures Move(d, serverDir, path, env).status.Moved? ==> Stat(d.fs, path).Some?
    ensures Move(d, serverDir, path, env).status.Moved? ==>
      var node := d.fs[path];
      var e := Move(d, serverDir, path, env).status.entry;
      e.originalPath == path && e.originalName == Base(path) &&
      e.currentName == Base(Destination(serverDir, path, node, env)) &&
      e.deletedAt == env.deletedAt &&
      (node.Dir? ==> e.fileType == "directory" && e.fileSize == 0) &&
      (node.File? ==> env.mime == Some(e.fileType) && e.fileSize == |node.content|)
  {
    if Stat(d.fs, path).Some? {
      var node := d.fs[path];
      MoveToEntry(d, Prepared(d.fs, serverDir, env), DateDir(serverDir, env), path, node, Destination(serverDir, path, node, env), env);
    }
  }

  /**
   * When the base name and the clock reading hold no '/', the journaled name
   * is the destination name, so the entry leads restore back to the copy.
   */
  lemma MoveRecordsLocation(d: Disk, serverDir: Path, path: Path, env: MoveEnv)
    requires Move(d, serverDir, path, env).status.Moved?
    requires '/' !in env.clock && Base(path) != "/"
    ensures Stat(d.fs, path).Some?
    ensures var node := d.fs[path];
      var e := Move(d, serverDir, path, env).status.entry;
      e.currentName == (if node.Dir? then DirDestName(path, env.clock) else FileDestName(path, env.clock)) &&
      Join(DateDir(serverDir, env), e.currentName) == Destination(serverDir, path, node, env)
  {
    MovedEntry(d, serverDir, path, env);
    DestinationName(serverDir, path, d.fs[path], env);
  }

  /**
   * A file keeps its extension in the bin, after the clock reading: with
   * clock `10:00:00`, `a.txt` becomes `a.txt_10:00:00.txt`, and a directory
   * `logs` becomes `logs_10:00:00`.
   */
  lemma DestNameOfName(stem: string, ext: string, clock: string)
    requires '/' !in stem && '/' !in ext && '.' !in ext
    ensures DirDestName(stem + "." + ext, clock) == stem + "." + ext + "_" + clock
    ensures FileDestName(stem + "." + ext, clock) == DirDestName(stem + "." + ext, clock) + ("." + ext)
  {
    BaseOfName(stem + "." + ext);
    ExtOfName(stem, ext);
  }

  /**
   * The destination of a file depends only on its last element and the
   * clock: two files of the same name in different directories recycled
   * in the same second get the same destination.
   */
  lemma SameNameSameDestination(serverDir: Path, p1: Path, p2: Path, c1: Bytes, m1: nat, c2: Bytes, m2: nat, env: MoveEnv)
    requires p1 != [] && p1[|p1| - 1] != '/' && p2 != [] && p2[|p2| - 1] != '/'
    requires LastElement(p1) == LastElement(p2)
    ensures Destination(serverDir, p1, File(c1, m1), env) == Destination(serverDir, p2, File(c2, m2), env)
  {
  }

  /**
   * Such a collision loses data: after both renames the bin holds only the
   * second file, and the journal holds two entries naming the same copy.
   */
  lemma CollisionOverwrites(d: Disk, serverDir: Path, p1: Path, p2: Path, env: MoveEnv)
    requires Stat(d.fs, p1).Some? && d.fs[p1].File? && Stat(d.fs, p2).Some? && d.fs[p2].File?
    requires p1[|p1| - 1] != '/' && p2[|p2| - 1] != '/' && LastElement(p1) == LastElement(p2)
    requires env.renameOk && env.mime.Some? && env.journalReadOk && env.journalWriteOk
    requires MetadataFile(DateDir(serverDir, env)) !in d.journals
    requires !Within(p2, p1) && !Within(p2, Destination(serverDir, p1, d.fs[p1], env))
    ensures var r1 := Move(d, serverDir, p1, env);
      var r2 := Move(r1.disk, serverDir, p2, env);
      var dest := Destination(serverDir, p1, d.fs[p1], env);
      r1.status.Moved? && r2.status.Moved? &&
      dest in r2.disk.fs && r2.disk.fs[dest] == d.fs[p2] &&
      r1.status.entry.currentName == r2.status.entry.currentName &&
      r2.disk.journals[MetadataFile(DateDir(serverDir, env))] == Array([r1.status.entry, r2.status.entry])
  {
    var dateDir := DateDir(serverDir, env);
    var dest := Destination(serverDir, p1, d.fs[p1], env);
    MoveByRename(d, serverDir, p1, env);
    var r1 := Move(d, serverDir, p1, env);
    var fs1 := Prepared(d.fs, serverDir, env);
    assert r1.disk.fs == Rename(fs1, p1, dest);
    assert p2 in fs1 && fs1[p2] == d.fs[p2];
    assert p2 in r1.disk.fs && r1.disk.fs[p2] == d.fs[p2];
    SameNameSameDestination(serverDir, p1, p2, d.fs[p1].content, d.fs[p1].mode, d.fs[p2].content, d.fs[p2].mode, env);
    assert Destination(serverDir, p2, r1.disk.fs[p2], env) == dest;
    MoveByRename(r1.disk, serverDir, p2, env);
    var r2 := Move(r1.disk, serverDir, p2, env);
    var fs2 := Prepared(r1.disk.fs, serverDir, env);
    assert r2.disk.fs == Rename(fs2, p2, dest);
    assert fs2[p2] == d.fs[p2];
    AppendTwice(d.journals, dateDir, r1.status.entry, r2.status.entry, env.journalReadOk);
  }

  /** Two appends to a date directory without a journal leave a journal of exactly those two entries. */
  lemma AppendTwice(journals: Journals, dateDir: Path, e1: FileMetadata, e2: FileMetadata, readOk: bool)
    requires MetadataFile(dateDir) !in journals
    ensures AppendEntry(AppendEntry(journals, dateDir, e1, readOk, true), dateDir, e2, true, true)[MetadataFile(dateDir)]
         == Array([e1, e2])
  {
    assert [] + [e1] == [e1];
    assert [e1] + [e2] == [e1, e2];
  }

  // ---------------------------------------------------------------------
  // Journal rewrite
  // ---------------------------------------------------------------------

  /** With `remove`, the rewrite keeps exactly the entries of other events, in order. */
  lemma {:induction false} UpdatedRemoveFilters(entries: seq<FileMetadata>, target: FileMetadata)
    ensures Updated(entries, target, true) == Text.Filter(entries, OtherEvent(target))
    decreases |entries|
  {
    if entries != [] {
      UpdatedRemoveFilters(entries[..|entries| - 1], target);
    }
  }

  /** After removal no entry of the target's event is left and every other entry is. */
  lemma RemoveDropsOnlyTarget(entries: seq<FileMetadata>, target: FileMetadata)
    ensures var r := Updated(entries, target, true);
      |r| <= |entries| &&
      (forall i :: 0 <= i < |r| ==> r[i] in entries && !SameEvent(r[i], target)) &&
      (forall i :: 0 <= i < |entries| && !SameEvent(entries[i], target) ==> entries[i] in r)
  {
    UpdatedRemoveFilters(entries, target);
    var r := Updated(entries, target, true);
    forall i | 0 <= i < |r|
      ensures !SameEvent(r[i], target)
    {
      assert OtherEvent(target)(r[i]);
    }
    forall i | 0 <= i < |entries| && !SameEvent(entries[i], target)
      ensures entries[i] in r
    {
      assert OtherEvent(target)(entries[i]);
    }
  }

  /** Removing twice is removing once. */
  lemma RemoveIdempotent(entries: seq<FileMetadata>, target: FileMetadata)
    ensures Updated(Updated(entries, target, true), target, true) == Updated(entries, target, true)
  {
    UpdatedRemoveFilters(entries, target);
    UpdatedRemoveFilters(Updated(entries, target, true), target);
    Text.FilterIdempotent(entries, OtherEvent(target));
  }

  /** Without `remove`, every entry of the target's event is replaced by the target, in place. */
  lemma {:induction false} UpdatedReplaces(entries: seq<FileMetadata>, target: FileMetadata)
    ensures var r := Updated(entries, target, false);
      |r| == |entries| &&
      forall i :: 0 <= i < |entries| ==> r[i] == (if SameEvent(entries[i], target) then target else entries[i])
    decreases |entries|
  {
    if entries != [] {
      UpdatedReplaces(entries[..|entries| - 1], target);
    }
  }

  /** A missing, unreadable or undecodable journal is not rewritten; otherwise only its file changes. */
  lemma UpdateJournalsFrame(journals: Journals, dateDir: Path, target: FileMetadata, remove: bool, readOk: bool, writeOk: bool)
    ensures var file := MetadataFile(dateDir);
      var r := UpdateJournals(journals, dateDir, target, remove, readOk, writeOk);
      r.Keys == journals.Keys &&
      (forall f :: f in journals && f != file ==> r[f] == journals[f]) &&
      (file !in journals || !readOk || Decode(journals[file]).None? || !writeOk ==> r == journals)
  {
  }

  // ---------------------------------------------------------------------
  // Restore
  // ---------------------------------------------------------------------

  /** Which directories are examined: the one date directory, or every directory the walk found but the root. */
  lemma TargetDirsSelection(serverDir: Path, restoreDate: string, walk: Option<seq<WalkItem>>)
    ensures restoreDate != "" ==> TargetDirs(serverDir, restoreDate, walk) == Some([Join(serverDir, restoreDate)])
    ensures restoreDate == "" && walk.None? ==> TargetDirs(serverDir, restoreDate, walk).None?
    ensures restoreDate == "" && walk.Some? ==>
      var dirs := TargetDirs(serverDir, restoreDate, walk).value;
      (forall j :: 0 <= j < |dirs| ==> dirs[j] != serverDir && WalkItem(dirs[j], true) in walk.value) &&
      (forall item :: item in walk.value && item.isDir && item.path != serverDir ==> item.path in dirs)
  {
    if restoreDate == "" && walk.Some? {
      var items := walk.value;
      forall item | item in items && item.isDir && item.path != serverDir
        ensures item.path in WalkDirs(serverDir, items)
      {
        var i :| 0 <= i < |items| && items[i] == item;
      }
    }
  }

  /** A name-filter mismatch or a missing copy in the bin is skipped and changes nothing. */
  lemma RestoreEntrySkips(p: Progress, dateDir: Path, meta: FileMetadata, singleFile: string, env: RestoreEnv)
    requires (singleFile != "" && meta.originalName != singleFile) || Stat(p.disk.fs, Join(dateDir, meta.currentName)).None?
    ensures RestoreEntry(p, dateDir, meta, singleFile, env) == p
  {
  }

  /** A failed relocation keeps the entry and does not count as restored. */
  lemma RestoreEntryFailureKeepsEntry(p: Progress, dateDir: Path, meta: FileMetadata, singleFile: string, env: RestoreEnv)
    requires !(singleFile != "" && meta.originalName != singleFile)
    requires Stat(p.disk.fs, Join(dateDir, meta.currentName)).Some?
    requires !RelocateBack(p.disk.fs, Join(dateDir, meta.currentName), meta.originalPath, env.attempt(p.attempts)).ok
    ensures var q := RestoreEntry(p, dateDir, meta, singleFile, env);
      q.disk.journals == p.disk.journals && q.restored == p.restored && !q.stopped && q.attempts == p.attempts + 1
  {
  }

  /**
   * The restored entries so far agree with the name filter; with a filter,
   * at most one is restored and the restore has returned once it is.
   */
  predicate FilterRespected(p: Progress, singleFile: string)
  {
    (forall m :: m in p.restored ==> singleFile == "" || m.originalName == singleFile) &&
    (singleFile != "" ==> (p.restored == [] && !p.stopped) || (|p.restored| == 1 && p.stopped))
  }

  lemma RestoreEntryRespects(p: Progress, dateDir: Path, meta: FileMetadata, singleFile: string, env: RestoreEnv)
    requires FilterRespected(p, singleFile) && !p.stopped
    ensures FilterRespected(RestoreEntry(p, dateDir, meta, singleFile, env), singleFile)
  {
  }

  lemma {:induction false} RestoreEntriesRespect(p: Progress, dateDir: Path, entries: seq<FileMetadata>, singleFile: string, env: RestoreEnv)
    requires FilterRespected(p, singleFile)
    ensures FilterRespected(RestoreEntries(p, dateDir, entries, singleFile, env), singleFile)
    decreases |entries|
  {
    if entries != [] && !p.stopped {
      RestoreEntryRespects(p, dateDir, entries[0], singleFile, env);
      RestoreEntriesRespect(RestoreEntry(p, dateDir, entries[0], singleFile, env), dateDir, entries[1..], singleFile, env);
    }
  }

  lemma {:induction false} RestoreDirsRespect(p: Progress, dirs: seq<Path>, singleFile: string, env: RestoreEnv)
    requires FilterRespected(p, singleFile)
    ensures FilterRespected(RestoreDirs(p, dirs, singleFile, env), singleFile)
    decreases |dirs|
  {
    if dirs != [] && !p.stopped {
      var file := MetadataFile(dirs[0]);
      if file in p.disk.journals && env.journalReadable(dirs[0]) && Decode(p.disk.journals[file]).Some? {
        RestoreEntriesRespect(p, dirs[0], Decode(p.disk.journals[file]).value, singleFile, env);
      }
      RestoreDirsRespect(RestoreBucket(p, dirs[0], singleFile, env), dirs[1..], singleFile, env);
    }
  }

  /** With a name filter, at most one entry is restored, and it has that name. */
  lemma SingleFileRestoresAtMostOne(d: Disk, serverDir: Path, restoreDate: string, singleFile: string, env: RestoreEnv)
    requires singleFile != ""
    ensures var p := Restore(d, serverDir, restoreDate, singleFile, env);
      |p.restored| <= 1 && forall m :: m in p.restored ==> m.originalName == singleFile
  {
    var start := Progress(d, 0, [], false);
    var dirs := TargetDirs(serverDir, restoreDate, env.walk);
    if dirs.Some? {
      RestoreDirsRespect(start, dirs.value, singleFile, env);
    }
  }

  /**
   * One journal document after another: unchanged, or both decodable, with
   * no new entry, and every dropped entry of the same event as a restored one.
   */
  predicate DocAccounted(before: JournalDoc, after: JournalDoc, restored: seq<FileMetadata>)
  {
    after == before ||
    (Decode(before).Some? && Decode(after).Some? &&
     (forall e :: e in Decode(after).value ==> e in Decode(before).value) &&
     (forall e :: e in Decode(before).value && e !in Decode(after).value ==>
        exists m :: m in restored && SameEvent(e, m)))
  }

  /** Restore only drops entries, and only those of events it restored. */
  predicate JournalsAccounted(before: Journals, after: Journals, restored: seq<FileMetadata>)
  {
    after.Keys == before.Keys &&
    forall f :: f in before ==> DocAccounted(before[f], after[f], restored)
  }

  lemma AccountedTrans(a: Journals, b: Journals, c: Journals, r1: seq<FileMetadata>, r2: seq<FileMetadata>)
    requires JournalsAccounted(a, b, r1) && JournalsAccounted(b, c, r2) && r1 <= r2
    ensures JournalsAccounted(a, c, r2)
  {
    forall f | f in a
      ensures DocAccounted(a[f], c[f], r2)
    {
      if c[f] != a[f] {
        forall e | e in Decode(a[f]).value && e !in Decode(c[f]).value
          ensures exists m :: m in r2 && SameEvent(e, m)
        {
          if e !in Decode(b[f]).value {
            var m :| m in r1 && SameEvent(e, m);
            assert m in r2;
          }
        }
      }
    }
  }

  lemma UpdateAccounted(journals: Journals, dateDir: Path, meta: FileMetadata, readOk: bool, writeOk: bool, restored: seq<FileMetadata>)
    requires meta in restored
    ensures JournalsAccounted(journals, UpdateJournals(journals, dateDir, meta, true, readOk, writeOk), restored)
  {
    var file := MetadataFile(dateDir);
    var after := UpdateJournals(journals, dateDir, meta, true, readOk, writeOk);
    if file in journals && readOk && Decode(journals[file]).Some? && writeOk {
      var entries := Decode(journals[file]).value;
      RemoveDropsOnlyTarget(entries, meta);
      var kept := Updated(entries, meta, true);
      assert Decode(after[file]).value == kept;
      forall e | e in entries && e !in kept
        ensures exists m :: m in restored && SameEvent(e, m)
      {
        var i :| 0 <= i < |entries| && entries[i] == e;
        assert SameEvent(e, meta);
      }
    }
  }

  lemma RestoreEntryAccounted(p: Progress, dateDir: Path, meta: FileMetadata, singleFile: string, env: RestoreEnv)
    ensures var q := RestoreEntry(p, dateDir, meta, singleFile, env);
      p.restored <= q.restored && JournalsAccounted(p.disk.journals, q.disk.journals, q.restored)
  {
    var q := RestoreEntry(p, dateDir, meta, singleFile, env);
    if q.disk.journals != p.disk.journals {
      var a := env.attempt(p.attempts);
      UpdateAccounted(p.disk.journals, dateDir, meta, a.journalReadOk, a.journalWriteOk, q.restored);
    }
  }

  lemma {:induction false} RestoreEntriesAccounted(p: Progress, dateDir: Path, entries: seq<FileMetadata>, singleFile: string, env: RestoreEnv)
    ensures var q := RestoreEntries(p, dateDir, entries, singleFile, env);
      p.restored <= q.restored && JournalsAccounted(p.disk.journals, q.disk.journals, q.restored)
    decreases |entries|
  {
    if entries != [] && !p.stopped {
      var p1 := RestoreEntry(p, dateDir, entries[0], singleFile, env);
      RestoreEntryAccounted(p, dateDir, entries[0], singleFile, env);
      RestoreEntriesAccounted(p1, dateDir, entries[1..], singleFile, env);
      var q := RestoreEntries(p1, dateDir, entries[1..], singleFile, env);
      AccountedTrans(p.disk.journals, p1.disk.journals, q.disk.journals, p1.restored, q.restored);
    }
  }

  lemma {:induction false} RestoreDirsAccounted(p: Progress, dirs: seq<Path>, singleFile: string, env: RestoreEnv)
    ensures var q := RestoreDirs(p, dirs, singleFile, env);
      p.restored <= q.restored && JournalsAccounted(p.disk.journals, q.disk.journals, q.restored)
    decreases |dirs|
  {
    if dirs != [] && !p.stopped {
      var p1 := RestoreBucket(p, dirs[0], singleFile, env);
      var file := MetadataFile(dirs[0]);
      if file in p.disk.journals && env.journalReadable(dirs[0]) && Decode(p.disk.journals[file]).Some? {
        RestoreEntriesAccounted(p, dirs[0], Decode(p.disk.journals[file]).value, singleFile, env);
      }
      RestoreDirsAccounted(p1, dirs[1..], singleFile, env);
      var q := RestoreDirs(p1, dirs[1..], singleFile, env);
      AccountedTrans(p.disk.journals, p1.disk.journals, q.disk.journals, p1.restored, q.restored);
    }
  }

  /**
   * A restore never adds a journal entry, and every entry it drops belongs
   * to the event of an entry it restored.
   */
  lemma RestoreOnlyDropsRestored(d: Disk, serverDir: Path, restoreDate: string, singleFile: string, env: RestoreEnv)
    ensures var p := Restore(d, serverDir, restoreDate, singleFile, env);
      JournalsAccounted(d.journals, p.disk.journals, p.restored)
  {
    var dirs := TargetDirs(serverDir, restoreDate, env.walk);
    if dirs.Some? {
      RestoreDirsAccounted(Progress(d, 0, [], false), dirs.value, singleFile, env);
    }
  }

  // ---------------------------------------------------------------------
  // Recycling then restoring
  // ---------------------------------------------------------------------

  /** The first append to a date directory without a journal creates it with exactly that entry. */
  lemma AppendFresh(journals: Journals, dateDir: Path, e: FileMetadata, readOk: bool)
    requires MetadataFile(dateDir) !in journals
    ensures AppendEntry(journals, dateDir, e, readOk, true) == journals[MetadataFile(dateDir) := Array([e])]
  {
    assert [] + [e] == [e];
  }

  /** Removing the only entry of a journal leaves it empty, written as `null`. */
  lemma RemoveOnlyEntry(journals: Journals, dateDir: Path, entry: FileMetadata)
    requires MetadataFile(dateDir) in journals && journals[MetadataFile(dateDir)] == Array([entry])
    ensures UpdateJournals(journals, dateDir, entry, true, true, true) == journals[MetadataFile(dateDir) := Null]
  {
    assert [entry][..0] == [];
    assert Updated([entry], entry, true) == [];
  }

  /**
   * An entry that passes the name filter, whose copy is in the bin and whose
   * relocation back succeeds, by rename or by copy, is restored: it is
   * reported, the tree is the relocated one, the restore returns when a name
   * filter is set, and a journal that can be read, decoded and written keeps
   * every entry of other events and none of this entry's event.
   */
  lemma RestoreEntrySucceeds(p: Progress, dateDir: Path, meta: FileMetadata, singleFile: string, env: RestoreEnv)
    requires singleFile == "" || meta.originalName == singleFile
    requires Stat(p.disk.fs, Join(dateDir, meta.currentName)).Some?
    requires RelocateBack(p.disk.fs, Join(dateDir, meta.currentName), meta.originalPath, env.attempt(p.attempts)).ok
    ensures var a := env.attempt(p.attempts);
      var q := RestoreEntry(p, dateDir, meta, singleFile, env);
      q.restored == p.restored + [meta] && q.stopped == (singleFile != "") && q.attempts == p.attempts + 1 &&
      q.disk.fs == RelocateBack(p.disk.fs, Join(dateDir, meta.currentName), meta.originalPath, a).fs &&
      q.disk.journals == UpdateJournals(p.disk.journals, dateDir, meta, true, a.journalReadOk, a.journalWriteOk)
    ensures var a := env.attempt(p.attempts);
      var file := MetadataFile(dateDir);
      var q := RestoreEntry(p, dateDir, meta, singleFile, env);
      file in p.disk.journals && a.journalReadOk && a.journalWriteOk && Decode(p.disk.journals[file]).Some? ==>
        file in q.disk.journals && Decode(q.disk.journals[file]).Some? &&
        (forall e :: e in Decode(q.disk.journals[file]).value ==> !SameEvent(e, meta)) &&
        (forall e :: e in Decode(p.disk.journals[file]).value && !SameEvent(e, meta) ==> e in Decode(q.disk.journals[file]).value)
  {
    var a := env.attempt(p.attempts);
    var file := MetadataFile(dateDir);
    if file in p.disk.journals && a.journalReadOk && a.journalWriteOk && Decode(p.disk.journals[file]).Some? {
      var entries := Decode(p.disk.journals[file]).value;
      var kept := Updated(entries, meta, true);
      RemoveDropsOnlyTarget(entries, meta);
      var q := RestoreEntry(p, dateDir, meta, singleFile, env);
      assert q.disk.journals[file] == Encode(kept);
      assert Decode(q.disk.journals[file]) == Some(kept);
      forall e | e in kept ensures !SameEvent(e, meta) {
        var i :| 0 <= i < |kept| && kept[i] == e;
      }
      forall e | e in entries && !SameEvent(e, meta) ensures e in kept {
        var i :| 0 <= i < |entries| && entries[i] == e;
      }
    }
  }

  /** An entry whose copy is present and whose attempt renames it back is restored and dropped from the journal. */
  lemma RestoreEntryByRename(p: Progress, dateDir: Path, entry: FileMetadata, env: RestoreEnv)
    requires Stat(p.disk.fs, Join(dateDir, entry.currentName)).Some?
    requires var a := env.attempt(p.attempts); a.renameOk
    ensures var a := env.attempt(p.attempts);
      RestoreEntry(p, dateDir, entry, "", env)
        == Progress(Disk(Rename(p.disk.fs, Join(dateDir, entry.currentName), entry.originalPath),
                         UpdateJournals(p.disk.journals, dateDir, entry, true, a.journalReadOk, a.journalWriteOk)),
                    p.attempts + 1, p.restored + [entry], false)
  {
  }

  /**
   * Restoring a date directory whose journal holds one entry, whose copy is
   * present and whose first attempt succeeds: the copy is renamed back, the
   * journal is emptied (written as `null`) and the entry is reported.
   */
  lemma RestoreOnlyEntry(fs: Tree, journals: Journals, dateDir: Path, entry: FileMetadata, env: RestoreEnv)
    requires MetadataFile(dateDir) in journals && journals[MetadataFile(dateDir)] == Array([entry])
    requires env.journalReadable(dateDir)
    requires Stat(fs, Join(dateDir, entry.currentName)).Some?
    requires env.attempt(0).renameOk && env.attempt(0).journalReadOk && env.attempt(0).journalWriteOk
    ensures RestoreBucket(Progress(Disk(fs, journals), 0, [], false), dateDir, "", env)
         == Progress(Disk(Rename(fs, Join(dateDir, entry.currentName), entry.originalPath),
                          journals[MetadataFile(dateDir) := Null]), 1, [entry], false)
  {
    var start := Progress(Disk(fs, journals), 0, [], false);
    RestoreEntryByRename(start, dateDir, entry, env);
    RemoveOnlyEntry(journals, dateDir, entry);
    var next := RestoreEntry(start, dateDir, entry, "", env);
    assert [] + [entry] == [entry];
    assert RestoreBucket(start, dateDir, "", env) == RestoreEntries(start, dateDir, [entry], "", env);
    assert RestoreEntries(start, dateDir, [entry], "", env) == RestoreEntries(next, dateDir, [], "", env);
  }

  /** Restoring one date directory is restoring its bucket. */
  lemma RestoreOneDate(d: Disk, serverDir: Path, date: string, env: RestoreEnv)
    requires date != ""
    ensures Restore(d, serverDir, date, "", env)
         == RestoreBucket(Progress(d, 0, [], false), Join(serverDir, date), "", env)
  {
    var start := Progress(d, 0, [], false);
    var p := RestoreBucket(start, Join(serverDir, date), "", env);
    assert RestoreDirs(start, [Join(serverDir, date)], "", env) == RestoreDirs(p, [], "", env);
  }

  /**
   * Recycling by rename into a date directory without a journal: the path
   * is renamed to its destination, the new journal holds exactly its entry,
   * and that entry leads back from the destination to the path.
   */
  lemma MoveIntoFreshDate(d: Disk, serverDir: Path, path: Path, env: MoveEnv)
    requires Stat(d.fs, path).Some?
    requires '/' !in env.clock && Base(path) != "/"
    requires env.renameOk && (d.fs[path].File? ==> env.mime.Some?) && env.journalWriteOk
    requires MetadataFile(DateDir(serverDir, env)) !in d.journals
    ensures var r := Move(d, serverDir, path, env);
      var dest := Destination(serverDir, path, d.fs[path], env);
      r.status.Moved? &&
      r.disk == Disk(Rename(Prepared(d.fs, serverDir, env), path, dest),
                     d.journals[MetadataFile(DateDir(serverDir, env)) := Array([r.status.entry])]) &&
      r.status.entry.originalPath == path &&
      Join(DateDir(serverDir, env), r.status.entry.currentName) == dest
  {
    var node := d.fs[path];
    var dest := Destination(serverDir, path, node, env);
    var entry := EntryFor(path, node, dest, if node.Dir? then "directory" else env.mime.value, env);
    MoveByRename(d, serverDir, path, env);
    AppendFresh(d.journals, DateDir(serverDir, env), entry, env.journalReadOk);
    MoveRecordsLocation(d, serverDir, path, env);
  }

  /**
   * Restoring the date of a single recycled entry whose copy sits at `dest`
   * renames it back and empties the journal.
   */
  lemma RestoreAfterMove(fs1: Tree, journals: Journals, serverDir: Path, date: string, path: Path, dest: Path,
                         entry: FileMetadata, env: RestoreEnv)
    requires date != "" && path in fs1
    requires entry.originalPath == path && Join(Join(serverDir, date), entry.currentName) == dest
    requires var file := MetadataFile(Join(serverDir, date)); file in journals && journals[file] == Array([entry])
    requires env.journalReadable(Join(serverDir, date))
    requires env.attempt(0).renameOk && env.attempt(0).journalReadOk && env.attempt(0).journalWriteOk
    ensures Restore(Disk(Rename(fs1, path, dest), journals), serverDir, date, "", env)
         == Progress(Disk(Rename(Rename(fs1, path, dest), dest, path), journals[MetadataFile(Join(serverDir, date)) := Null]),
                     1, [entry], false)
  {
    var d1 := Disk(Rename(fs1, path, dest), journals);
    assert dest in d1.fs;
    RestoreOneDate(d1, serverDir, date, env);
    RestoreOnlyEntry(d1.fs, journals, Join(serverDir, date), entry, env);
  }

  /** Emptying a journal just created forgets the entry it held. */
  lemma JournalEmptiedAgain(journals: Journals, file: Path, entry: FileMetadata)
    ensures journals[file := Array([entry])][file := Null] == journals[file := Null]
  {
  }

  /**
   * Recycling a path by rename into a date directory without a journal, then
   * restoring that date, gives the path back: every path outside the copy
   * holds what it held before the move (the date directory aside), the
   * restore reports the moved entry, and the journal is left empty.
   */
  lemma RecycleThenRestore(d: Disk, serverDir: Path, path: Path, env: MoveEnv, renv: RestoreEnv)
    requires Stat(d.fs, path).Some?
    requires '/' !in env.clock && Base(path) != "/" && env.date != ""
    requires env.renameOk && (d.fs[path].File? ==> env.mime.Some?) && env.journalWriteOk
    requires MetadataFile(DateDir(serverDir, env)) !in d.journals
    requires var dest := Destination(serverDir, path, d.fs[path], env);
      !Within(path, dest) && !Within(dest, path)
    requires renv.journalReadable(DateDir(serverDir, env))
    requires renv.attempt(0).renameOk && renv.attempt(0).journalReadOk && renv.attempt(0).journalWriteOk
    ensures var r := Move(d, serverDir, path, env);
      var p := Restore(r.disk, serverDir, env.date, "", renv);
      var dest := Destination(serverDir, path, d.fs[path], env);
      r.status.Moved? && p.restored == [r.status.entry] &&
      (forall q :: q in d.fs && !Within(q, dest) ==> q in p.disk.fs && p.disk.fs[q] == d.fs[q]) &&
      p.disk.journals == d.journals[MetadataFile(DateDir(serverDir, env)) := Null]
  {
    var dest := Destination(serverDir, path, d.fs[path], env);
    var fs1 := Prepared(d.fs, serverDir, env);
    MoveIntoFreshDate(d, serverDir, path, env);
    var r := Move(d, serverDir, path, env);
    RestoreAfterMove(fs1, r.disk.journals, serverDir, env.date, path, dest, r.status.entry, renv);
    RenameBackFrame(fs1, path, dest);
    JournalEmptiedAgain(d.journals, MetadataFile(DateDir(serverDir, env)), r.status.entry);
  }

  /**
   * When renaming fails both ways and the copies succeed, a file comes back
   * with its content but with mode `os.ModePerm` instead of its own: the
   * tree differs from the original only in that mode.
   */
  lemma CopyRoundTripResetsMode(fs: Tree, path: Path, dest: Path, env: MoveEnv, a: AttemptEnv)
    requires path in fs && fs[path].File? && dest !in fs && path != dest
    requires !env.renameOk && env.readOk && env.writeOk && env.removeOk
    requires !a.renameOk && a.readOk && a.writeOk && a.removeOk
    ensures var t := TransferFile(fs, path, dest, fs[path].mode, env);
      t.Transferred? &&
      var back := RelocateBack(t.fs, dest, path, a);
      back.ok && back.fs == fs[path := File(fs[path].content, ModePerm)]
  {
    var node := fs[path];
    var fs2 := Remove(WriteFile(fs, dest, node.content, node.mode), path);
    assert TransferFile(fs, path, dest, node.mode, env) == Transferred(fs2);
    assert dest in fs2 && fs2[dest] == File(node.content, node.mode) && path !in fs2;
    var fs3 := Remove(WriteFile(fs2, path, node.content, ModePerm), dest);
    assert RelocateBack(fs2, dest, path, a) == Relocation(fs3, true);
    assert fs3 == fs[path := File(node.content, ModePerm)];
  }
}
