/**
 * The working directory as a map from resolved paths to entries, and the
 * `FileUtils` and `Dir` calls of the build pipeline as functions on it.
 * A call that raises gives `Err` with the exception's errno.
 */
module FileTree {

  import opened Wrappers
  import opened Paths

  type Path = seq<string>

  datatype Node = File(content: string) | Dir

  type Tree = map<Path, Node>

  datatype FsError =
    | NoEntry        // Errno::ENOENT, or ENOTDIR for a file in the middle of a path
    | Exists         // Errno::EEXIST
    | IsDirectory    // Errno::EISDIR
    | NotDirectory   // Errno::ENOTDIR
    | NotEmpty       // Errno::ENOTEMPTY
    | SameEntry      // ArgumentError: source and destination are the same entry, or one holds the other
    | DirectoryMove  // `mv` of a whole directory, which this model refuses

  function Parent(p: Path): Path
    requires |p| >= 1
  {
    p[..|p| - 1]
  }

  predicate IsDir(t: Tree, p: Path) {
    p in t && t[p].Dir?
  }

  predicate IsFile(t: Tree, p: Path) {
    p in t && t[p].File?
  }

  /** Every entry has a non-empty path of valid names and, below the top level, sits in a directory. */
  ghost predicate WellFormed(t: Tree) {
    forall p :: p in t ==> p != [] && ValidPath(p) && (|p| > 1 ==> IsDir(t, Parent(p)))
  }

  /** The entries directly inside `d`. */
  function Children(t: Tree, d: Path): set<Path> {
    set p | p in t && |p| == |d| + 1 && d <= p
  }

  /** Every proper ancestor of an entry is a directory. */
  lemma {:induction false} AncestorsAreDirs(t: Tree, p: Path, k: int)
    requires WellFormed(t) && p in t && 1 <= k < |p|
    ensures IsDir(t, p[..k])
    decreases |p| - k
  {
    if k < |p| - 1 {
      AncestorsAreDirs(t, p, k + 1);
      assert Parent(p[..k + 1]) == p[..k];
    } else {
      assert Parent(p) == p[..k];
    }
  }

  lemma PrefixIsTake(a: Path, b: Path)
    requires a <= b
    ensures b[..|a|] == a
  {
  }

  lemma StrictPrefixLonger(a: Path, b: Path)
    requires a <= b && a != b
    ensures |a| < |b|
  {
  }

  lemma ParentOfChild(d: Path, c: Path)
    requires |c| == |d| + 1 && d <= c
    ensures Parent(c) == d
  {
  }

  /** A file has nothing inside it. */
  lemma FileHasNoChildren(t: Tree, f: Path)
    requires WellFormed(t) && IsFile(t, f)
    ensures Children(t, f) == {}
  {
    forall c | c in t && |c| == |f| + 1 ensures !(f <= c) {
      if f <= c {
        ParentOfChild(f, c);
        assert false;
      }
    }
  }

  /** Where `cp_r` and `mv` put `src`: inside `dst` when that is a directory, else at `dst`. */
  function Target(t: Tree, src: Path, dst: Path): Path {
    if IsDir(t, dst) && src != [] then dst + [src[|src| - 1]] else dst
  }

  /**
   * `FileUtils.mkdir_p(p)`: creates every missing directory on the way to `p`.
   * A file on that way makes the `mkdir` of its path fail; nothing is created then.
   */
  function MkdirP(t: Tree, p: Path): Result<Tree, FsError> {
    if exists k :: 1 <= k <= |p| && IsFile(t, p[..k]) then Err(Exists)
    else Ok(t + map q | q in Prefixes(p) && q !in t :: Dir)
  }

  /** The non-empty prefixes of `p`: the paths `mkdir_p` walks through. */
  function Prefixes(p: Path): (r: set<Path>)
    ensures forall k :: 1 <= k <= |p| ==> p[..k] in r
    ensures forall q :: q in r ==> 1 <= |q| <= |p| && q == p[..|q|]
  {
    var r := set j | 1 <= j <= |p| :: p[..j];
    assert forall k :: 1 <= k <= |p| ==> p[..k] in r by {
      forall k | 1 <= k <= |p| ensures p[..k] in r {
        var j := k;
        assert p[..j] in r;
      }
    }
    r
  }

  /** `mkdir_p` fails only on a file in the way; otherwise `p` and all its ancestors are directories and nothing else changes. */
  lemma MkdirPSpec(t: Tree, p: Path)
    requires WellFormed(t) && ValidPath(p)
    ensures MkdirP(t, p).Ok? <==> forall k :: 1 <= k <= |p| ==> !IsFile(t, p[..k])
    ensures MkdirP(t, p).Ok? ==>
      var t' := MkdirP(t, p).value;
      && WellFormed(t')
      && (forall k :: 1 <= k <= |p| ==> IsDir(t', p[..k]))
      && (forall q :: q in t ==> q in t' && t'[q] == t[q])
      && (forall q :: q in t' && q !in t ==> q <= p)
  {
    if MkdirP(t, p).Ok? {
      var t' := MkdirP(t, p).value;
      forall q | q in t' ensures q != [] && ValidPath(q) && (|q| > 1 ==> IsDir(t', Parent(q))) {
        if q !in t {
          var k := |q|;
          assert q == p[..k];
          if k > 1 {
            assert Parent(q) == p[..k - 1];
          }
        }
      }
    }
  }

  /**
   * `FileUtils.mv(src, dst)`: renames a file to the target; an existing file
   * there is replaced, an existing directory there is an error.
   */
  function Mv(t: Tree, src: Path, dst: Path): (r: Result<Tree, FsError>)
    ensures r.Ok? ==> src in t && src !in r.value && Target(t, src, dst) in r.value && r.value[Target(t, src, dst)] == t[src]
    ensures r.Ok? ==> r.value.Keys == t.Keys - {src} + {Target(t, src, dst)}
    ensures r.Ok? ==> forall q :: q in t && q != src && q != Target(t, src, dst) ==> r.value[q] == t[q]
  {
    if src !in t then Err(NoEntry)
    else
      var target := Target(t, src, dst);
      if target == src then Err(SameEntry)
      else if IsDir(t, target) then Err(Exists)
      else if t[src].Dir? then Err(DirectoryMove)
      else if target == [] || (|target| > 1 && !IsDir(t, Parent(target))) then Err(NoEntry)
      else Ok((t - {src})[target := t[src]])
  }

  /** A successful move keeps the tree well formed: the target sits in a directory and the moved file had no children. */
  lemma MvWellFormed(t: Tree, src: Path, dst: Path)
    requires WellFormed(t) && ValidPath(dst) && Mv(t, src, dst).Ok?
    ensures WellFormed(Mv(t, src, dst).value)
  {
    var target := Target(t, src, dst);
    var t' := Mv(t, src, dst).value;
    FileHasNoChildren(t, src);
    forall q | q in t' ensures q != [] && ValidPath(q) && (|q| > 1 ==> IsDir(t', Parent(q))) {
      if q != target && |q| > 1 {
        assert Parent(q) != src by {
          if Parent(q) == src { assert false; }
        }
      }
    }
  }

  /** The subtree of `src` with `src` replaced by `target` at the head of every path. */
  function Rebased(t: Tree, src: Path, target: Path): Tree {
    RebaseInjective(src, target);
    map q | q in t && src <= q :: target + q[|src|..] := t[q]
  }

  lemma RebaseInjective(src: Path, target: Path)
    ensures forall q, q' :: src <= q && src <= q' && target + q[|src|..] == target + q'[|src|..] ==> q == q'
  {
    forall q, q' | src <= q && src <= q' && target + q[|src|..] == target + q'[|src|..] ensures q == q' {
      assert q[|src|..] == (target + q[|src|..])[|target|..];
      assert q'[|src|..] == (target + q'[|src|..])[|target|..];
      assert q == src + q[|src|..];
      assert q' == src + q'[|src|..];
    }
  }

  /**
   * `FileUtils.cp_r(src, dst, remove_destination: true)`: copies the entry and
   * everything below it to the target, merging into directories that exist
   * there and replacing files; a file copied onto a directory is an error.
   */
  function CpR(t: Tree, src: Path, dst: Path): Result<Tree, FsError> {
    if src !in t then Err(NoEntry)
    else
      var target := Target(t, src, dst);
      if src <= target then Err(SameEntry)
      else if target == [] || (|target| > 1 && !IsDir(t, Parent(target))) then Err(NoEntry)
      else if exists q :: q in t && src <= q && t[q].File? && IsDir(t, target + q[|src|..]) then Err(IsDirectory)
      else Ok(t + Rebased(t, src, target))
  }

  /**
   * `FileUtils.cp_r(src, dst + '/', …)`: a destination written with a
   * trailing slash must be a directory when it exists. A directory copied
   * there with `dst` a file fails in `mkdir`; a file copied there fails to
   * open. Otherwise it is `cp_r` to `dst`.
   */
  function CpRToDir(t: Tree, src: Path, dst: Path): Result<Tree, FsError> {
    if src !in t then Err(NoEntry)
    else if IsFile(t, dst) then Err(if t[src].Dir? then Exists else NotDirectory)
    else if t[src].File? && dst !in t then Err(IsDirectory)
    else CpR(t, src, dst)
  }

  /** After a successful copy to `dst/`, `dst` is a directory: it was one, or the copied directory now sits there. */
  lemma CpRToDirMakesDir(t: Tree, src: Path, dst: Path)
    requires CpRToDir(t, src, dst).Ok?
    ensures IsDir(CpRToDir(t, src, dst).value, dst)
    ensures CpRToDir(t, src, dst) == CpR(t, src, dst)
  {
    var target := Target(t, src, dst);
    CpROk(t, src, dst);
    var image := Rebased(t, src, target);
    if IsDir(t, dst) {
      assert dst !in image by {
        if dst in image { RebasedOrigin(t, src, target, dst); }
      }
    } else {
      RebasedAt(t, src, target, src);
      assert target + src[|src|..] == dst;
    }
  }

  lemma RebasedAt(t: Tree, src: Path, target: Path, q: Path)
    requires q in t && src <= q
    ensures target + q[|src|..] in Rebased(t, src, target)
    ensures Rebased(t, src, target)[target + q[|src|..]] == t[q]
  {
    RebaseInjective(src, target);
  }

  lemma RebasedOrigin(t: Tree, src: Path, target: Path, r: Path)
    requires r in Rebased(t, src, target)
    ensures target <= r && src + r[|target|..] in t
    ensures Rebased(t, src, target)[r] == t[src + r[|target|..]]
  {
    RebaseInjective(src, target);
    var q :| q in t && src <= q && r == target + q[|src|..];
    assert q == src + q[|src|..];
    assert r[|target|..] == q[|src|..];
  }

  /** A successful copy keeps the tree well formed. */
  lemma CpRWellFormed(t: Tree, src: Path, dst: Path)
    requires WellFormed(t) && ValidPath(dst) && CpR(t, src, dst).Ok?
    ensures WellFormed(CpR(t, src, dst).value)
  {
    var target := Target(t, src, dst);
    CpROk(t, src, dst);
    assert ValidPath(target);
    var image := Rebased(t, src, target);
    forall q | q in t + image ensures q != [] && ValidPath(q) && (|q| > 1 ==> IsDir(t + image, Parent(q))) {
      if q in image {
        ImageEntryPlaced(t, src, target, q);
      } else {
        OutsideEntryPlaced(t, src, target, q);
      }
    }
  }

  /** What a successful `cp_r` has checked, and what it returns. */
  lemma CpROk(t: Tree, src: Path, dst: Path)
    requires CpR(t, src, dst).Ok?
    ensures var target := Target(t, src, dst);
      && src in t && target != [] && !(src <= target)
      && (|target| > 1 ==> IsDir(t, Parent(target)))
      && (forall o :: o in t && src <= o && t[o].File? ==> !IsDir(t, target + o[|src|..]))
      && CpR(t, src, dst).value == t + Rebased(t, src, target)
  {
  }

  /** A copied entry has a valid path and sits in a copied directory or in the target's parent. */
  lemma ImageEntryPlaced(t: Tree, src: Path, target: Path, q: Path)
    requires WellFormed(t) && src in t && ValidPath(target) && target != []
    requires |target| > 1 ==> IsDir(t, Parent(target))
    requires q in Rebased(t, src, target)
    ensures q != [] && ValidPath(q)
    ensures |q| > 1 ==> IsDir(t + Rebased(t, src, target), Parent(q))
  {
    RebasedOrigin(t, src, target, q);
    var o := src + q[|target|..];
    ImageEntryValid(t, src, target, o);
    if |q| > |target| {
      ImageEntryBelow(t, src, target, o);
    } else if |q| > 1 {
      assert q == target;
      ImageEntryTop(t, src, target);
    }
  }

  lemma ImageEntryValid(t: Tree, src: Path, target: Path, o: Path)
    requires WellFormed(t) && ValidPath(target) && o in t && src <= o
    ensures ValidPath(target + o[|src|..])
  {
    var q := target + o[|src|..];
    forall i | 0 <= i < |q| ensures ValidName(q[i]) {
      if i >= |target| {
        assert q[i] == o[|src| + i - |target|];
      }
    }
  }

  lemma ImageEntryBelow(t: Tree, src: Path, target: Path, o: Path)
    requires WellFormed(t) && src in t && o in t && src <= o && |o| > |src|
    ensures IsDir(t + Rebased(t, src, target), Parent(target + o[|src|..]))
  {
    assert Parent(target + o[|src|..]) == target + Parent(o)[|src|..];
    AncestorsAreDirs(t, o, |o| - 1);
    RebasedAt(t, src, target, Parent(o));
  }

  lemma ImageEntryTop(t: Tree, src: Path, target: Path)
    requires |target| > 1 && IsDir(t, Parent(target))
    ensures IsDir(t + Rebased(t, src, target), Parent(target))
  {
    assert Parent(target) !in Rebased(t, src, target) by {
      if Parent(target) in Rebased(t, src, target) { RebasedOrigin(t, src, target, Parent(target)); }
    }
  }

  /** An entry that was not overwritten still sits in a directory: a copied file never lands on a directory. */
  lemma OutsideEntryPlaced(t: Tree, src: Path, target: Path, q: Path)
    requires WellFormed(t) && q in t && q !in Rebased(t, src, target)
    requires forall o :: o in t && src <= o && t[o].File? ==> !IsDir(t, target + o[|src|..])
    ensures q != [] && ValidPath(q)
    ensures |q| > 1 ==> IsDir(t + Rebased(t, src, target), Parent(q))
  {
    if |q| > 1 && Parent(q) in Rebased(t, src, target) {
      RebasedOrigin(t, src, target, Parent(q));
      var o := src + Parent(q)[|target|..];
      assert Parent(q) == target + o[|src|..];
    }
  }

  /** Copying a file onto a place that is not a directory replaces exactly that entry. */
  lemma CpRFile(t: Tree, src: Path, dst: Path)
    requires WellFormed(t) && IsFile(t, src) && !IsDir(t, dst) && dst != []
    requires !(src <= dst)
    requires |dst| > 1 ==> IsDir(t, Parent(dst))
    ensures CpR(t, src, dst) == Ok(t[dst := t[src]])
  {
    FileHasNoChildren(t, src);
    var image := Rebased(t, src, dst);
    forall q | q in t && src <= q ensures q == src {
      if q != src {
        AncestorsAreDirs(t, q, |src|);
        PrefixIsTake(src, q);
        assert false;
      }
    }
    assert image.Keys == {dst} by {
      forall r | r in image ensures r == dst {
        RebasedOrigin(t, src, dst, r);
      }
      RebasedAt(t, src, dst, src);
    }
    RebasedAt(t, src, dst, src);
    assert image == map[dst := t[src]];
    assert Target(t, src, dst) == dst;
    assert !exists q :: q in t && src <= q && t[q].File? && IsDir(t, dst + q[|src|..]) by {
      forall q | q in t && src <= q ensures !IsDir(t, dst + q[|src|..]) {
        assert q == src;
        assert dst + q[|src|..] == dst;
      }
    }
    assert t + image == t[dst := t[src]];
  }

  /**
   * Copying again right after a copy changes nothing, when the target was
   * a directory or the source a file (so the second call picks the same
   * target) and source and target trees are apart.
   */
  lemma CpRIdempotent(t: Tree, src: Path, dst: Path)
    requires WellFormed(t) && CpR(t, src, dst).Ok?
    requires IsDir(t, dst) || IsFile(t, src)
    requires !(Target(t, src, dst) <= src)
    ensures CpR(CpR(t, src, dst).value, src, dst) == CpR(t, src, dst)
  {
    var target := Target(t, src, dst);
    CpROk(t, src, dst);
    var image := Rebased(t, src, target);
    var t1 := t + image;
    SameTargetAfterCopy(t, src, dst);
    SourceUntouched(t, src, target);
    RebasedSame(t, t1, src, target);
    NoConflictAfterCopy(t, src, target);
    if |target| > 1 {
      ImageEntryTop(t, src, target);
    }
    CpRChecked(t1, src, dst);
    ImageAlreadyThere(t, src, target);
  }

  /** The second copy picks the same target as the first. */
  lemma SameTargetAfterCopy(t: Tree, src: Path, dst: Path)
    requires src in t && (IsDir(t, dst) || IsFile(t, src))
    requires !(Target(t, src, dst) <= src) && !(src <= Target(t, src, dst))
    ensures Target(t + Rebased(t, src, Target(t, src, dst)), src, dst) == Target(t, src, dst)
  {
    var target := Target(t, src, dst);
    var image := Rebased(t, src, target);
    if IsDir(t, dst) {
      assert dst !in image by {
        if dst in image { RebasedOrigin(t, src, target, dst); }
      }
    } else {
      RebasedAt(t, src, target, src);
      assert target + src[|src|..] == target;
      assert (t + image)[target] == t[src];
    }
  }

  /** After the copy, every copied file sits on a copied file, never on a directory. */
  lemma NoConflictAfterCopy(t: Tree, src: Path, target: Path)
    requires !(target <= src) && !(src <= target)
    ensures var t1 := t + Rebased(t, src, target);
      forall o :: o in t1 && src <= o && t1[o].File? ==> !IsDir(t1, target + o[|src|..])
  {
    SourceUntouched(t, src, target);
    var t1 := t + Rebased(t, src, target);
    forall o | o in t1 && src <= o && t1[o].File? ensures !IsDir(t1, target + o[|src|..]) {
      RebasedAt(t, src, target, o);
    }
  }

  /** `cp_r` succeeds when each of its checks passes. */
  lemma CpRChecked(t: Tree, src: Path, dst: Path)
    requires src in t
    requires var target := Target(t, src, dst);
      && !(src <= target) && target != [] && (|target| > 1 ==> IsDir(t, Parent(target)))
      && (forall o :: o in t && src <= o && t[o].File? ==> !IsDir(t, target + o[|src|..]))
    ensures CpR(t, src, dst) == Ok(t + Rebased(t, src, Target(t, src, dst)))
  {
  }

  /** Copying onto a copy rewrites every entry with the value it already has. */
  lemma ImageAlreadyThere(t: Tree, src: Path, target: Path)
    ensures (t + Rebased(t, src, target)) + Rebased(t, src, target) == t + Rebased(t, src, target)
  {
  }

  /** The copy leaves the source subtree alone when the target is not inside it. */
  lemma SourceUntouched(t: Tree, src: Path, target: Path)
    requires !(target <= src) && !(src <= target)
    ensures forall q :: src <= q ==> (q in t + Rebased(t, src, target) <==> q in t)
    ensures forall q :: src <= q && q in t ==> (t + Rebased(t, src, target))[q] == t[q]
  {
    forall q | src <= q && q in Rebased(t, src, target) ensures false {
      RebasedOrigin(t, src, target, q);
      PrefixesCompare(src, target, q);
    }
  }

  /** Two prefixes of one path are prefixes of each other. */
  lemma PrefixesCompare(a: Path, b: Path, q: Path)
    requires a <= q && b <= q
    ensures a <= b || b <= a
  {
    if |a| <= |b| {
      assert a == q[..|a|] == b[..|a|];
    } else {
      assert b == q[..|b|] == a[..|b|];
    }
  }

  /** Trees that agree on the source subtree give the same image. */
  lemma RebasedSame(t: Tree, t1: Tree, src: Path, target: Path)
    requires forall q :: src <= q ==> (q in t1 <==> q in t)
    requires forall q :: src <= q && q in t ==> t1[q] == t[q]
    ensures Rebased(t1, src, target) == Rebased(t, src, target)
  {
    RebaseInjective(src, target);
  }

  /** `Dir.rmdir(p)`: removes an empty directory. */
  function Rmdir(t: Tree, p: Path): (r: Result<Tree, FsError>)
    ensures r.Ok? <==> IsDir(t, p) && Children(t, p) == {}
    ensures r.Ok? ==> r.value.Keys == t.Keys - {p} && forall q :: q in r.value ==> r.value[q] == t[q]
  {
    if p !in t then Err(NoEntry)
    else if t[p].File? then Err(NotDirectory)
    else if Children(t, p) != {} then Err(NotEmpty)
    else Ok(t - {p})
  }

  lemma RmdirWellFormed(t: Tree, p: Path)
    requires WellFormed(t) && Rmdir(t, p).Ok?
    ensures WellFormed(Rmdir(t, p).value)
  {
    var t' := Rmdir(t, p).value;
    forall q | q in t' && |q| > 1 ensures IsDir(t', Parent(q)) {
      if Parent(q) == p { assert false; }
    }
  }
}
