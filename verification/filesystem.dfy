/**
 * An abstract Unix filesystem: a finite map from path to node. A directory's
 * entries are the paths below it, so renaming a directory re-keys its whole
 * subtree. Which system calls succeed is decided by the caller (an oracle);
 * this module says what a successful call does.
 */
module FileSystem {
  import opened Wrappers

  type Path = string
  type Bytes = seq<bv8>

  /** Go's `os.ModePerm` (0o777). */
  const ModePerm: nat := 511

  datatype Node = File(content: Bytes, mode: nat) | Dir

  type Tree = map<Path, Node>

  /** `os.Stat`: the node at `p`; the empty path never exists. */
  function Stat(fs: Tree, p: Path): Option<Node>
  {
    if p != "" && p in fs then Some(fs[p]) else None
  }

  /** `p` is `root` or lies below it. */
  predicate Within(p: Path, root: Path)
    ensures Within(p, root) ==> |root| <= |p| && p == root + p[|root|..]
  {
    p == root || (|p| > |root| && p[..|root|] == root && p[|root|] == '/')
  }

  /** The path that `p`, below `src`, has once `src` is renamed to `dst`. */
  function Rebase(p: Path, src: Path, dst: Path): (q: Path)
    requires Within(p, src)
    ensures Within(q, dst) && q[|dst|..] == p[|src|..]
  {
    dst + p[|src|..]
  }

  /** Every path at or below `src` in `fs` sits, with its node, at the matching path below `dst` in `r`. */
  predicate SubtreeMoved(fs: Tree, src: Path, r: Tree, dst: Path)
  {
    forall p :: p in fs && Within(p, src) ==> Rebase(p, src, dst) in r && r[Rebase(p, src, dst)] == fs[p]
  }

  /**
   * A successful `os.Rename(src, dst)`: `src` and everything below it move
   * below `dst`, replacing whatever was at or below `dst` (POSIX rename
   * replaces its target); every other path keeps its node.
   */
  function Rename(fs: Tree, src: Path, dst: Path): (r: Tree)
    ensures src in fs ==> dst in r && r[dst] == fs[src]
    ensures SubtreeMoved(fs, src, r, dst)
    ensures src != dst && !Within(src, dst) ==> src !in r
    ensures forall p :: !Within(p, src) && !Within(p, dst) ==>
              (p in r <==> p in fs) && (p in fs ==> r[p] == fs[p])
  {
    var moved := map p | p in fs && Within(p, src) :: Rebase(p, src, dst) := fs[p];
    assert src in fs ==> Rebase(src, src, dst) == dst;
    (map p | p in fs && !Within(p, src) && !Within(p, dst) :: fs[p]) + moved
  }

  /** Renaming there and back restores every path outside the temporary location. */
  lemma RenameBack(fs: Tree, a: Path, b: Path, p: Path)
    requires !Within(a, b) && !Within(b, a) && !Within(p, b)
    ensures p in Rename(Rename(fs, a, b), b, a) <==> p in fs
    ensures p in fs ==> Rename(Rename(fs, a, b), b, a)[p] == fs[p]
  {
    if Within(p, a) {
      var q := Rebase(p, a, b);
      assert Rebase(q, b, a) == p;
      if p in fs {
        assert q in Rename(fs, a, b);
      }
    }
  }

  /** Renaming there and back leaves every path outside the temporary location as it was. */
  lemma RenameBackFrame(fs: Tree, a: Path, b: Path)
    requires !Within(a, b) && !Within(b, a)
    ensures var r := Rename(Rename(fs, a, b), b, a);
      forall p :: p in fs && !Within(p, b) ==> p in r && r[p] == fs[p]
  {
    forall p | p in fs && !Within(p, b)
      ensures p in Rename(Rename(fs, a, b), b, a) && Rename(Rename(fs, a, b), b, a)[p] == fs[p]
    {
      RenameBack(fs, a, b, p);
    }
  }

  /**
   * A successful `os.WriteFile(p, data, perm)`: `p` holds `data`; an existing
   * file keeps its mode, a new one gets `perm` (the umask is not modelled).
   */
  function WriteFile(fs: Tree, p: Path, data: Bytes, perm: nat): (r: Tree)
    ensures p in r && r[p].File? && r[p].content == data
    ensures r.Keys == fs.Keys + {p}
    ensures forall q :: q in fs && q != p ==> r[q] == fs[q]
  {
    fs[p := File(data, if p in fs && fs[p].File? then fs[p].mode else perm)]
  }

  /** `os.ReadFile`: fails on a missing path, on a directory, or when the oracle says so. */
  function ReadFile(fs: Tree, p: Path, ok: bool): Option<Bytes>
  {
    if ok && p in fs && fs[p].File? then Some(fs[p].content) else None
  }

  /** A successful `os.Remove` of a file. */
  function Remove(fs: Tree, p: Path): Tree
  {
    fs - {p}
  }

  /** A successful `os.MkdirAll(p)`: a directory at `p` unless something is there already. */
  function MkdirAll(fs: Tree, p: Path): (r: Tree)
    ensures p in r && r.Keys == fs.Keys + {p}
    ensures forall q :: q in fs ==> r[q] == fs[q]
  {
    if p in fs then fs else fs[p := Dir]
  }
}
