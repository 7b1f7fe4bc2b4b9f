/**
 * The older recycler of the repository's top-level `main.go`: the `-f`
 * argument is split on commas and each trimmed element is moved by a single
 * rename into `<serverDir>/<date>/<name>_<HH:MM:SS><ext>`; there is no copy
 * fallback and no journal. The worker pool is read as one sequential loop.
 */
module Legacy {
  import Text
  import opened GoPath
  import opened FileSystem
  import Recycle
  import RecycleLaws

  /**
   * What the system does during one move: the date and `HH:MM:SS` readings
   * of one `time.Now()`, and whether `MkdirAll` and `Rename` succeed.
   */
  datatype LegacyEnv = LegacyEnv(date: string, clock: string, mkdirOk: bool, renameOk: bool)

  /** Which log line the move ends with. */
  datatype LegacyStatus = Skipped | MkdirFailed | RenameFailed | Recycled(dest: Path)

  datatype LegacyResult = LegacyResult(fs: Tree, status: LegacyStatus)

  function LegacyDateDir(serverDir: Path, env: LegacyEnv): Path
  {
    Join(serverDir, env.date)
  }

  /** `<date>/<Name>_<HH:MM:SS><Ext>`, the same for files and directories. */
  function LegacyDestination(serverDir: Path, path: Path, env: LegacyEnv): Path
  {
    Join(LegacyDateDir(serverDir, env), Base(path) + "_" + env.clock + Ext(path))
  }

  /** `moveFileToRecycleBin(file, serverDir)` of `main.go`. */
  function LegacyMove(fs: Tree, serverDir: Path, path: Path, env: LegacyEnv): LegacyResult
  {
    if Stat(fs, path).None? then LegacyResult(fs, Skipped)
    else if !env.mkdirOk then LegacyResult(fs, MkdirFailed)
    else
      var fs1 := MkdirAll(fs, LegacyDateDir(serverDir, env));
      var dest := LegacyDestination(serverDir, path, env);
      if !env.renameOk then LegacyResult(fs1, RenameFailed)
      else LegacyResult(Rename(fs1, path, dest), Recycled(dest))
  }

  /**
   * The paths `main` hands to the workers: none for an empty `-f` (it
   * returns first) or when no worker starts, otherwise every
   * comma-separated element, trimmed.
   */
  function LegacyDispatched(filesFlag: string, numWorkers: int): seq<Path>
  {
    if filesFlag == "" then [] else Recycle.Dispatched(Text.Split(filesFlag, ','), numWorkers)
  }

  /** Moving the queued paths one after another; the `k`-th move sees `env(k)`. */
  function LegacyMoveAll(fs: Tree, serverDir: Path, queue: seq<Path>, env: nat -> LegacyEnv, k: nat): Tree
    decreases |queue|
  {
    if queue == [] then fs
    else LegacyMoveAll(LegacyMove(fs, serverDir, queue[0], env(k)).fs, serverDir, queue[1..], env, k + 1)
  }

  class LegacyRecycler {
    const serverDir: Path
    var fs: Tree

    constructor (serverDir: Path, fs: Tree)
      ensures this.serverDir == serverDir && this.fs == fs
    {
      this.serverDir := serverDir;
      this.fs := fs;
    }

    /** `moveFileToRecycleBin(file, serverDir)`. */
    method MoveFileToRecycleBin(path: Path, env: LegacyEnv) returns (status: LegacyStatus)
      modifies this
      ensures LegacyResult(fs, status) == LegacyMove(old(fs), serverDir, path, env)
    {
      if Stat(fs, path).None? {
        return Skipped;
      }
      var dateDir := Join(serverDir, env.date);
      if !env.mkdirOk {
        return MkdirFailed;
      }
      fs := MkdirAll(fs, dateDir);
      var destPath := Join(dateDir, Base(path) + "_" + env.clock + Ext(path));
      if !env.renameOk {
        return RenameFailed;
      }
      fs := Rename(fs, path, destPath);
      return Recycled(destPath);
    }

    /** The part of `main` after setup: fill the queue, then let the workers drain it. */
    method Run(filesFlag: string, numWorkers: int, env: nat -> LegacyEnv)
      modifies this
      ensures fs == LegacyMoveAll(old(fs), serverDir, LegacyDispatched(filesFlag, numWorkers), env, 0)
    {
      if filesFlag == "" {
        return;
      }
      var fileSlice := Text.Split(filesFlag, ',');
      var queue: seq<Path> := [];
      for i := 0 to |fileSlice|
        invariant queue == Recycle.Queue(fileSlice[..i])
      {
        queue := queue + [Text.TrimSpace(fileSlice[i])];
      }
      assert fileSlice[..|fileSlice|] == fileSlice;
      if numWorkers <= 0 {
        return;
      }
      var k := 0;
      while k < |queue|
        invariant 0 <= k <= |queue|
        invariant LegacyMoveAll(old(fs), serverDir, queue, env, 0) == LegacyMoveAll(fs, serverDir, queue[k..], env, k)
      {
        var _ := MoveFileToRecycleBin(queue[k], env(k));
        assert queue[k..][1..] == queue[k + 1..];
        k := k + 1;
      }
    }
  }

  /**
   * Every comma-separated element is handed over once, trimmed and in order,
   * and together the elements are the whole argument; nothing is handed over
   * for an empty argument or without workers.
   */
  lemma LegacyDispatchedOnce(filesFlag: string, numWorkers: int)
    ensures filesFlag == "" || numWorkers <= 0 ==> LegacyDispatched(filesFlag, numWorkers) == []
    ensures filesFlag != "" && numWorkers > 0 ==>
      var parts := Text.Split(filesFlag, ',');
      |LegacyDispatched(filesFlag, numWorkers)| == |parts| &&
      (forall i :: 0 <= i < |parts| ==> LegacyDispatched(filesFlag, numWorkers)[i] == Text.TrimSpace(parts[i])) &&
      Text.Join(parts, ',') == filesFlag
  {
    Text.JoinSplit(filesFlag, ',');
  }

  /** A path that cannot be stat'ed, or a date directory that cannot be created, changes nothing. */
  lemma LegacySkipNoChange(fs: Tree, serverDir: Path, path: Path, env: LegacyEnv)
    ensures Stat(fs, path).None? ==> LegacyMove(fs, serverDir, path, env) == LegacyResult(fs, Skipped)
    ensures Stat(fs, path).Some? && !env.mkdirOk ==> LegacyMove(fs, serverDir, path, env) == LegacyResult(fs, MkdirFailed)
  {
  }

  /** The path is recycled exactly when it exists and both the date directory and the rename succeed. */
  lemma LegacyRecycledIff(fs: Tree, serverDir: Path, path: Path, env: LegacyEnv)
    ensures LegacyMove(fs, serverDir, path, env).status.Recycled? <==> Stat(fs, path).Some? && env.mkdirOk && env.renameOk
  {
  }

  /** A recycled path is renamed into the date directory, under a name built from the same clock reading. */
  lemma LegacyRecycledByRename(fs: Tree, serverDir: Path, path: Path, env: LegacyEnv)
    requires Stat(fs, path).Some? && env.mkdirOk && env.renameOk
    ensures var r := LegacyMove(fs, serverDir, path, env);
      r.status == Recycled(Join(Join(serverDir, env.date), Base(path) + "_" + env.clock + Ext(path))) &&
      r.fs == Rename(MkdirAll(fs, Join(serverDir, env.date)), path, r.status.dest)
  {
  }

  /** Without a successful rename every existing path keeps its node, the source included; at most the date directory appears. */
  lemma LegacyFailureKeepsSource(fs: Tree, serverDir: Path, path: Path, env: LegacyEnv)
    requires !LegacyMove(fs, serverDir, path, env).status.Recycled?
    ensures var r := LegacyMove(fs, serverDir, path, env);
      r.fs.Keys <= fs.Keys + {Join(serverDir, env.date)} &&
      forall q :: q in fs ==> q in r.fs && r.fs[q] == fs[q]
  {
  }

  /**
   * On a file whose rename succeeds the older recycler and the engine move
   * the same way: same destination, same tree; the older one writes no
   * journal entry.
   */
  lemma LegacyAgreesOnFiles(d: Recycle.Disk, serverDir: Path, path: Path, env: LegacyEnv, menv: Recycle.MoveEnv)
    requires Stat(d.fs, path).Some? && d.fs[path].File?
    requires menv.date == env.date && menv.clock == env.clock
    requires env.mkdirOk && menv.mkdirOk && env.renameOk && menv.renameOk && menv.mime.Some?
    ensures LegacyDestination(serverDir, path, env) == Recycle.Destination(serverDir, path, d.fs[path], menv)
    ensures LegacyMove(d.fs, serverDir, path, env).fs == Recycle.Move(d, serverDir, path, menv).disk.fs
  {
    RecycleLaws.MoveByRename(d, serverDir, path, menv);
  }

  /**
   * A directory, which the engine names without extension, keeps the
   * extension of its name here: `logs.d` becomes `logs.d_<HH:MM:SS>.d`,
   * where the engine, with the same clock readings, gives `logs.d_<HH:MM:SS>`.
   */
  lemma LegacyDirectoryName(serverDir: Path, stem: string, ext: string, env: LegacyEnv, menv: Recycle.MoveEnv)
    requires '/' !in stem && '/' !in ext && '.' !in ext && ext != []
    requires menv.date == env.date && menv.clock == env.clock
    ensures LegacyDestination(serverDir, stem + "." + ext, env)
         == Join(Join(serverDir, env.date), stem + "." + ext + "_" + env.clock + "." + ext)
    ensures LegacyDestination(serverDir, stem + "." + ext, env) != Recycle.Destination(serverDir, stem + "." + ext, Dir, menv)
  {
    var name := stem + "." + ext;
    var engine := name + "_" + env.clock;
    NameOfStemExt(stem, ext);
    LegacyDestinationOf(serverDir, name, name, "." + ext, env);
    EngineDirDestinationOf(serverDir, name, name, menv);
    AppendDotExt(engine, ext);
    var dateDir := Join(serverDir, env.date);
    assert |Join(dateDir, engine + ("." + ext))| > |Join(dateDir, engine)|;
  }

  lemma AppendDotExt(s: string, ext: string)
    ensures s + ("." + ext) == s + "." + ext
  {
  }

  /** The legacy destination in terms of the path's base and extension. */
  lemma LegacyDestinationOf(serverDir: Path, path: Path, base: string, ext: string, env: LegacyEnv)
    requires Base(path) == base && Ext(path) == ext
    ensures LegacyDestination(serverDir, path, env) == Join(Join(serverDir, env.date), base + "_" + env.clock + ext)
  {
  }

  /** The engine's destination of a directory in terms of the path's base. */
  lemma EngineDirDestinationOf(serverDir: Path, path: Path, base: string, menv: Recycle.MoveEnv)
    requires Base(path) == base
    ensures Recycle.Destination(serverDir, path, Dir, menv) == Join(Join(serverDir, menv.date), base + "_" + menv.clock)
  {
  }

  /** `stem.ext` is its own last element and has the extension `.ext`. */
  lemma NameOfStemExt(stem: string, ext: string)
    requires '/' !in stem && '/' !in ext && '.' !in ext
    ensures Base(stem + "." + ext) == stem + "." + ext
    ensures Ext(stem + "." + ext) == "." + ext
  {
    var name := stem + "." + ext;
    assert '/' !in name by {
      forall j | 0 <= j < |name| ensures name[j] != '/' {
        if j < |stem| {
          assert name[j] == stem[j];
        } else if j > |stem| {
          assert name[j] == ext[j - |stem| - 1];
        }
      }
    }
    BaseOfName(name);
    ExtOfName(stem, ext);
  }
}
