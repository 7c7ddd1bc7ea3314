/**
 * A directory tree below one root, as a finite map from path to entry. The root itself
 * (the empty path) is implicit and always a directory. `shutil.copytree(..., dirs_exist_ok=True)`
 * and `mkdir(parents=True)` followed by `shutil.copy2` become map operations.
 */
module FileSystem {
  import opened Paths

  datatype Entry = File(content: seq<bv8>) | Dir

  type Fs = map<Path, Entry>

  function Parent(p: Path): Path
    requires p != []
  {
    p[..|p| - 1]
  }

  /** `path.exists()` */
  predicate Exists(fs: Fs, p: Path) {
    p == [] || p in fs
  }

  /** `path.is_dir()` */
  predicate IsDir(fs: Fs, p: Path)
    ensures IsDir(fs, p) ==> Exists(fs, p)
  {
    p == [] || (p in fs && fs[p].Dir?)
  }

  /** What every real directory tree satisfies: each entry sits inside a directory. */
  ghost predicate WellFormed(fs: Fs) {
    forall p | p in fs :: p != [] && IsDir(fs, Parent(p))
  }

  /** `q` is `p` or one of the directories above it, the root excluded. */
  predicate OnPathTo(q: Path, p: Path) {
    q != [] && q <= p
  }

  /** The paths `mkdir -p p` may have to create. */
  function Prefixes(p: Path): set<Path> {
    set k | 1 <= k <= |p| :: p[..k]
  }

  /** `(root / p).mkdir(parents=True, exist_ok=True)` when nothing blocks it. */
  function MakeDirs(fs: Fs, p: Path): (r: Fs)
    ensures forall q | q in fs :: q in r
    ensures IsDir(r, p)
  {
    assert p != [] ==> p[..|p|] == p && p in Prefixes(p);
    fs + map q | q in Prefixes(p) :: Dir
  }

  /** The entries at or below `p`. */
  function Subtree(fs: Fs, p: Path): Fs {
    map q | q in fs && p <= q :: fs[q]
  }

  /** Some directory on the way to `p`, or `p` itself, is a file: `mkdir -p p` raises. */
  predicate Blocked(fs: Fs, p: Path) {
    exists q | q in fs :: OnPathTo(q, p) && fs[q].File?
  }

  /** The two entries are of different kinds, so one cannot be copied over the other. */
  predicate KindClash(a: Entry, b: Entry) {
    a.File? != b.File?
  }

  /**
   * Copying the directory `p` of `src` into `dst` raises: a file stands where a directory must be
   * created, or an entry of the source subtree meets an entry of the other kind in `dst`.
   */
  predicate TreeConflict(src: Fs, dst: Fs, p: Path) {
    || Blocked(dst, p)
    || exists q | q in src :: p <= q && q in dst && KindClash(src[q], dst[q])
  }

  /** Copying the file `p` raises: its parent cannot be created, or `p` is a directory in `dst`. */
  predicate FileConflict(dst: Fs, p: Path)
    requires p != []
  {
    Blocked(dst, Parent(p)) || (p in dst && dst[p].Dir?)
  }

  /** `shutil.copytree(src/p, dst/p, dirs_exist_ok=True)` */
  function CopyTree(src: Fs, dst: Fs, p: Path): (r: Fs)
    requires IsDir(src, p)
    ensures forall q | q in dst :: q in r
    ensures IsDir(r, p)
    ensures forall q | q in src && p <= q :: q in r && r[q] == src[q]
  {
    MakeDirs(dst, p) + Subtree(src, p)
  }

  /** `dst.parent.mkdir(parents=True, exist_ok=True)` followed by `shutil.copy2(src/p, dst/p)` */
  function CopyFile(src: Fs, dst: Fs, p: Path): (r: Fs)
    requires p != [] && p in src && src[p].File?
    ensures forall q | q in dst :: q in r
    ensures p in r && r[p] == src[p]
    ensures IsDir(r, Parent(p))
  {
    MakeDirs(dst, Parent(p))[p := src[p]]
  }

  lemma PrefixesMembers(p: Path)
    ensures forall q :: q in Prefixes(p) <==> OnPathTo(q, p)
  {
    assert forall q | OnPathTo(q, p) :: q == p[..|q|];
  }

  /** `mkdir -p` adds exactly the directories on the way to `p` and keeps every other entry. */
  lemma MakeDirsSpec(fs: Fs, p: Path)
    ensures forall q :: q in MakeDirs(fs, p) <==> q in fs || OnPathTo(q, p)
    ensures forall q | OnPathTo(q, p) :: MakeDirs(fs, p)[q] == Dir
    ensures forall q | q in fs && !OnPathTo(q, p) :: MakeDirs(fs, p)[q] == fs[q]
  {
    PrefixesMembers(p);
  }

  /**
   * The directory copy is a merge: the source subtree lands at the same place, the directories
   * leading to it exist, no destination entry disappears, and every destination entry outside
   * the copied subtree and the directories above it keeps its contents.
   */
  lemma CopyTreeMerges(src: Fs, dst: Fs, p: Path)
    requires IsDir(src, p)
    ensures var r := CopyTree(src, dst, p);
      && (forall q | q in src && p <= q :: q in r && r[q] == src[q])
      && (forall q | OnPathTo(q, p) :: q in r && r[q] == Dir)
      && (forall q | q in dst :: q in r)
      && (forall q | q in dst && !(q in src && p <= q) && !OnPathTo(q, p) :: r[q] == dst[q])
      && (forall q | q in r :: q in dst || (q in src && p <= q) || OnPathTo(q, p))
  {
    MakeDirsSpec(dst, p);
    forall q | OnPathTo(q, p) && q in src && p <= q
      ensures q == p && src[q] == Dir
    {
      assert |q| == |p|;
      assert q == p[..|q|];
    }
  }

  /**
   * The file copy writes the source file at `p` over whatever file was there, makes the
   * directories above it exist, and leaves every other destination entry as it was.
   */
  lemma CopyFileOverwrites(src: Fs, dst: Fs, p: Path)
    requires p != [] && p in src && src[p].File?
    ensures var r := CopyFile(src, dst, p);
      && p in r && r[p] == src[p]
      && (forall q | OnPathTo(q, Parent(p)) :: q in r && r[q] == Dir)
      && (forall q | q in dst :: q in r)
      && (forall q | q in dst && q != p && !OnPathTo(q, Parent(p)) :: r[q] == dst[q])
      && (forall q | q in r :: q in dst || q == p || OnPathTo(q, Parent(p)))
  {
    MakeDirsSpec(dst, Parent(p));
  }

  /** In a well-formed tree every directory above an entry exists and is a directory. */
  lemma {:induction false} AncestorsAreDirs(fs: Fs, p: Path, q: Path)
    requires WellFormed(fs)
    requires p in fs
    requires OnPathTo(q, p) && q != p
    ensures q in fs && fs[q] == Dir
    decreases |p|
  {
    var pp := Parent(p);
    assert IsDir(fs, pp);
    assert pp != [] by {
      assert |q| <= |pp|;
    }
    if q != pp {
      assert q <= pp by {
        assert pp == p[..|p| - 1];
        assert |q| < |p|;
      }
      AncestorsAreDirs(fs, pp, q);
    }
  }

  /** A conflict-free directory copy keeps a well-formed destination well-formed. */
  lemma CopyTreeWellFormed(src: Fs, dst: Fs, p: Path)
    requires WellFormed(src) && WellFormed(dst)
    requires IsDir(src, p)
    requires !TreeConflict(src, dst, p)
    ensures WellFormed(CopyTree(src, dst, p))
  {
    var r := CopyTree(src, dst, p);
    CopyTreeMerges(src, dst, p);
    forall k | k in r
      ensures k != [] && IsDir(r, Parent(k))
    {
      if k in src && p <= k {
        assert k != [];
        if p != k {
          assert p <= Parent(k);
          assert IsDir(src, Parent(k));
        } else if Parent(k) != [] {
          assert OnPathTo(Parent(k), p);
        }
      } else if OnPathTo(k, p) {
        if Parent(k) != [] {
          assert OnPathTo(Parent(k), p);
        }
      } else {
        assert k in dst;
        var pk := Parent(k);
        assert IsDir(dst, pk);
        if pk != [] && pk in src && p <= pk {
          assert !KindClash(src[pk], dst[pk]);
        }
      }
    }
  }

  /** A conflict-free file copy keeps a well-formed destination well-formed. */
  lemma CopyFileWellFormed(src: Fs, dst: Fs, p: Path)
    requires WellFormed(dst)
    requires p in src && src[p].File? && p != []
    requires !FileConflict(dst, p)
    ensures WellFormed(CopyFile(src, dst, p))
  {
    var r := CopyFile(src, dst, p);
    CopyFileOverwrites(src, dst, p);
    forall k | k in r
      ensures k != [] && IsDir(r, Parent(k))
    {
      if k == p {
        if Parent(k) != [] {
          assert OnPathTo(Parent(k), Parent(p));
        }
      } else if OnPathTo(k, Parent(p)) {
        if Parent(k) != [] {
          assert OnPathTo(Parent(k), Parent(p));
        }
      } else {
        assert k in dst;
        var pk := Parent(k);
        assert IsDir(dst, pk);
        if pk == p {
          assert false;
        }
      }
    }
  }
}
