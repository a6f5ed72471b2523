/**
 * What copyDirectory does to the tree, as functions: the library calls it
 * makes for one walked item (`Files.createDirectories` on the destination's
 * parent, then `Files.copy` with `REPLACE_EXISTING`), the fold of those over
 * the walk, and the whole operation with its two escaping failures.
 * `locked` is the set of paths that cannot be listed, read, created,
 * replaced or deleted (a save the game holds open, a path without
 * permission); whether such a path exists and what kind it is can be seen.
 */
module CopySpec {
  import opened Paths
  import opened FileTree

  /** The tree after a filesystem operation, and whether the operation succeeded (`false` where Java throws an IOException). */
  datatype Attempt = Attempt(tree: Tree, ok: bool)

  /** `createDirectories` may pass through `q`: it is a directory already, or it is missing and can be made. */
  ghost predicate Creatable(t: Tree, locked: set<Path>, q: Path) {
    if q in t then t[q] == Dir else q !in locked
  }

  /**
   * `Files.createDirectories(p)`: makes every missing ancestor of `p` and `p`
   * itself, from the top down. It stops at the first segment that exists as
   * something other than a directory or cannot be made; the directories made
   * before that stay.
   */
  function MkDirs(t: Tree, locked: set<Path>, p: Path): (r: Attempt)
    decreases |p|
    ensures forall q | q in t :: q in r.tree && r.tree[q] == t[q]
    ensures forall q | q in r.tree && q !in t :: q <= p && r.tree[q] == Dir && q !in locked
    ensures r.ok <==> forall i | 0 < i <= |p| :: Creatable(t, locked, p[..i])
    ensures r.ok ==> forall i | 0 < i <= |p| :: IsDir(r.tree, p[..i])
    ensures WellFormed(t) ==> WellFormed(r.tree)
  {
    if p == [] then Attempt(t, true)
    else
      var made := MkDirs(t, locked, Parent(p));
      var t1 := made.tree;
      assert forall i | 0 < i < |p| :: p[..i] == Parent(p)[..i];
      assert p[..|p|] == p;
      if !made.ok then made
      else if p in t1 then Attempt(t1, t1[p] == Dir)
      else if p in locked then Attempt(t1, false)
      else Attempt(t1[p := Dir], true)
  }

  /**
   * `Files.copy(src, dst, REPLACE_EXISTING)`: copying a file onto itself does
   * nothing; otherwise an existing destination is replaced unless it is a
   * directory that still has entries, and the destination's parent must be a
   * directory. A copied directory arrives empty.
   */
  function ReplaceCopy(t: Tree, locked: set<Path>, src: Path, dst: Path): (r: Attempt)
    ensures r.ok ==> src in t && dst in r.tree && r.tree[dst] == t[src]
    ensures !r.ok ==> r.tree == t
    ensures forall q | q in t :: q in r.tree
    ensures forall q | q in t && q != dst :: r.tree[q] == t[q]
    ensures r.tree.Keys <= t.Keys + {dst}
    ensures src !in t || src in locked ==> !r.ok
    ensures src != dst && (dst in locked || NonEmptyDir(t, dst)) ==> !r.ok
    ensures src in t && src !in locked && dst !in locked && !NonEmptyDir(t, dst) && dst != [] && IsDir(t, Parent(dst)) ==> r.ok
    ensures WellFormed(t) ==> WellFormed(r.tree)
  {
    if src !in t || src in locked then Attempt(t, false)
    else if src == dst then Attempt(t, true)
    else if dst == [] || dst in locked || NonEmptyDir(t, dst) then Attempt(t, false)
    else if !(Parent(dst) in t && t[Parent(dst)] == Dir) then Attempt(t, false)
    else Attempt(t[dst := t[src]], true)
  }

  /**
   * One item of the walk (lines 99-108): create the destination's parent,
   * then copy the item over whatever is there.
   */
  function CopyItem(t: Tree, locked: set<Path>, src: Path, dst: Path): (r: Attempt)
    requires dst != []
    ensures r.ok ==> forall i | 0 < i < |dst| :: IsDir(r.tree, dst[..i])
    ensures r.ok && src in t ==> dst in r.tree && r.tree[dst] == t[src]
    ensures forall q | q in t :: q in r.tree
    ensures forall q | q in t && q != dst :: r.tree[q] == t[q]
    ensures !r.ok ==> forall q | q in t :: r.tree[q] == t[q]
    ensures forall q | q in r.tree && q !in t :: q <= dst
    ensures forall q | q in r.tree && q !in t && q != dst :: r.tree[q] == Dir
    ensures src in locked || (src != dst && dst in locked) ==> !r.ok
    ensures src != dst && NonEmptyDir(t, dst) ==> !r.ok
    ensures WellFormed(t) ==> WellFormed(r.tree)
  {
    var made := MkDirs(t, locked, Parent(dst));
    var t1 := made.tree;
    if !made.ok then made
    else
      assert |Parent(dst)| == |dst| - 1;
      assert forall i | 0 < i < |dst| :: dst[..i] == Parent(dst)[..i];
      assert Parent(dst) != [] ==> Parent(dst)[..|Parent(dst)|] == Parent(dst);
      assert NonEmptyDir(t, dst) ==> NonEmptyDir(t1, dst);
      ReplaceCopy(t1, locked, src, dst)
  }

  /**
   * The success direction of one item: with the source readable, the
   * destination neither locked nor a directory that still has entries, and
   * every ancestor of the destination a directory or makeable, the item is
   * copied, whatever the destination held before.
   */
  lemma CopyItemSucceeds(t: Tree, locked: set<Path>, src: Path, dst: Path)
    requires WellFormed(t) && dst != [] && src != dst
    requires src in t && src !in locked && dst !in locked && !NonEmptyDir(t, dst)
    requires forall i | 0 < i < |dst| :: Creatable(t, locked, dst[..i])
    ensures CopyItem(t, locked, src, dst).ok
  {
    var pd := Parent(dst);
    assert forall i | 0 < i <= |pd| :: pd[..i] == dst[..i];
    var made := MkDirs(t, locked, pd);
    var t1 := made.tree;
    assert IsDir(t1, pd) by {
      if pd != [] {
        assert pd[..|pd|] == pd;
      }
    }
    assert forall q | q in t1 && q !in t :: q <= pd;
  }

  /** The tree after the walk, and the walked items whose copy threw (in walk order). */
  datatype Walked = Walked(tree: Tree, failed: seq<Path>)

  /**
   * The body of the `forEach` at lines 94-113 for one walked item `src`:
   * the root is skipped, any other item is copied to its rebased place, and
   * an item whose copy throws is recorded while the walk goes on.
   */
  function WalkStep(before: Walked, locked: set<Path>, root: Path, dir: Path, src: Path): (r: Walked)
    requires root <= src
    ensures forall q | q in before.tree :: q in r.tree
    ensures forall q | q in before.tree && !(dir <= q) :: r.tree[q] == before.tree[q]
    ensures forall q | q in r.tree && q !in before.tree :: q <= dir || dir <= q
    ensures r.failed == before.failed || (src != root && r.failed == before.failed + [src])
    ensures src == root ==> r == before
    ensures src != root && r.failed == before.failed ==> Rebase(src, root, dir) in r.tree
    ensures src != root && r.failed == before.failed && src in before.tree ==>
      r.tree[Rebase(src, root, dir)] == before.tree[src]
    ensures src != root && src in locked ==> r.failed == before.failed + [src]
    ensures WellFormed(before.tree) ==> WellFormed(r.tree)
  {
    if src == root then before
    else
      var dst := Rebase(src, root, dir);
      var item := CopyItem(before.tree, locked, src, dst);
      assert forall q | q in item.tree && q !in before.tree :: q <= dir || dir <= q by {
        forall q | q in item.tree && q !in before.tree ensures q <= dir || dir <= q {
          PrefixesComparable(q, dir, dst);
        }
      }
      Walked(item.tree, if item.ok then before.failed else before.failed + [src])
  }

  /** The walk of copyDirectory (lines 93-114): `WalkStep` over every item `Files.walk` produces, in order. */
  function CopyWalk(t: Tree, locked: set<Path>, root: Path, dir: Path, walk: seq<Path>): (r: Walked)
    requires forall i | 0 <= i < |walk| :: root <= walk[i]
    decreases |walk|
    ensures forall q | q in t :: q in r.tree
    ensures forall q | q in t && !(dir <= q) :: r.tree[q] == t[q]
    ensures forall q | q in r.tree && q !in t :: q <= dir || dir <= q
    ensures forall f | f in r.failed :: f in walk && f != root
    ensures WellFormed(t) ==> WellFormed(r.tree)
  {
    if walk == [] then Walked(t, [])
    else WalkStep(CopyWalk(t, locked, root, dir, walk[..|walk| - 1]), locked, root, dir, walk[|walk| - 1])
  }

  datatype CopyError = DestinationNotCreated | SourceNotWalkable

  /** How copyDirectory ends: normally, with the items whose copy was caught, or with an IOException. */
  datatype CopyOutcome = Completed(failed: seq<Path>) | Failed(error: CopyError)

  datatype Copied = Copied(tree: Tree, outcome: CopyOutcome)

  /**
   * copyDirectory(folderName, dest, target) (lines 81-115), with `walk` the
   * sequence `Files.walk(target/folderName)` produces. `Files.walk` throws
   * before the first item when the walk root is missing or is a directory it
   * cannot open.
   */
  function CopyDirectoryResult(t: Tree, locked: set<Path>, folderName: Name, dest: Path, target: Path,
                               walk: seq<Path>): (r: Copied)
    requires forall i | 0 <= i < |walk| :: Join(target, folderName) <= walk[i]
    ensures r.outcome == Failed(DestinationNotCreated) <==> dest !in t && !MkDirs(t, locked, dest).ok
    ensures r.outcome == Failed(SourceNotWalkable) ==>
      var root := Join(target, folderName); root !in t || (root in locked && t[root] == Dir)
    ensures var root := Join(target, folderName);
      && (dest in t || MkDirs(t, locked, dest).ok)
      && ((root !in t && !(root <= dest)) || (root in t && root in locked && t[root] == Dir))
      ==> r.outcome == Failed(SourceNotWalkable)
    ensures r.outcome.Failed? ==> forall q | q in r.tree && q !in t :: q <= dest
    ensures forall q | q in r.tree && q !in t :: q <= Join(dest, folderName) || Join(dest, folderName) <= q
    ensures r.outcome.Completed? ==> dest in r.tree || dest == []
    ensures r.outcome.Completed? ==> forall f | f in r.outcome.failed :: f in walk && f != Join(target, folderName)
    ensures forall q | q in t :: q in r.tree
    ensures forall q | q in t && !(Join(dest, folderName) <= q) :: r.tree[q] == t[q]
    ensures WellFormed(t) ==> WellFormed(r.tree)
  {
    var dir := Join(dest, folderName);
    var root := Join(target, folderName);
    var made := if dest in t then Attempt(t, true) else MkDirs(t, locked, dest);
    assert dest != [] && made.ok ==> dest[..|dest|] == dest;
    if !made.ok then Copied(made.tree, Failed(DestinationNotCreated))
    else if root !in made.tree || (root in locked && made.tree[root] == Dir) then
      Copied(made.tree, Failed(SourceNotWalkable))
    else
      var walked := CopyWalk(made.tree, locked, root, dir, walk);
      Copied(walked.tree, Completed(walked.failed))
  }

  /**
   * The walk keeps going after a failure: every walked item other than the
   * root either is reported as failed or has landed, at its rebased place,
   * as exactly what the source held. A locked item is always reported.
   * (Destination and source trees must not overlap; the walk never visits a
   * path twice.)
   */
  lemma {:induction false} CopyWalkLands(t: Tree, locked: set<Path>, root: Path, dir: Path, walk: seq<Path>)
    requires forall i | 0 <= i < |walk| :: root <= walk[i] && walk[i] in t
    requires forall i, j | 0 <= i < j < |walk| :: walk[i] != walk[j]
    requires !(root <= dir) && !(dir <= root)
    ensures AllLanded(t, locked, root, dir, walk, CopyWalk(t, locked, root, dir, walk))
    decreases |walk|
  {
    if walk != [] {
      var n := |walk| - 1;
      var prefix := walk[..n];
      CopyWalkLands(t, locked, root, dir, prefix);
      LandsStep(t, locked, root, dir, prefix, walk[n], CopyWalk(t, locked, root, dir, prefix));
      assert prefix + [walk[n]] == walk;
    }
  }

  /**
   * The same for the whole operation: when copyDirectory completes, every
   * walked item other than the walk root is reported or sits at its place
   * below `dest\folderName` as the source held it, and a locked item is
   * always reported.
   */
  lemma CopyDirectoryLands(t: Tree, locked: set<Path>, folderName: Name, dest: Path, target: Path, walk: seq<Path>)
    requires forall i | 0 <= i < |walk| :: Join(target, folderName) <= walk[i] && walk[i] in t
    requires forall i, j | 0 <= i < j < |walk| :: walk[i] != walk[j]
    requires !(Join(target, folderName) <= Join(dest, folderName)) && !(Join(dest, folderName) <= Join(target, folderName))
    ensures var r := CopyDirectoryResult(t, locked, folderName, dest, target, walk);
      r.outcome.Completed? ==>
        AllLanded(t, locked, Join(target, folderName), Join(dest, folderName), walk, Walked(r.tree, r.outcome.failed))
  {
    var root, dir := Join(target, folderName), Join(dest, folderName);
    var made := if dest in t then Attempt(t, true) else MkDirs(t, locked, dest);
    if made.ok && !(root !in made.tree || (root in locked && made.tree[root] == Dir)) {
      CopyWalkLands(made.tree, locked, root, dir, walk);
    }
  }

  /** Every walked item other than the root is reported as failed or sits at its rebased place as the source held it; a locked item is reported. */
  ghost predicate AllLanded(t: Tree, locked: set<Path>, root: Path, dir: Path, walk: seq<Path>, r: Walked)
    requires forall i | 0 <= i < |walk| :: root <= walk[i] && walk[i] in t
  {
    forall i | 0 <= i < |walk| && walk[i] != root ::
      && (walk[i] !in r.failed ==> Rebase(walk[i], root, dir) in r.tree && r.tree[Rebase(walk[i], root, dir)] == t[walk[i]])
      && (walk[i] in locked ==> walk[i] in r.failed)
  }

  lemma LandsStep(t: Tree, locked: set<Path>, root: Path, dir: Path, prefix: seq<Path>, x: Path, before: Walked)
    requires forall i | 0 <= i < |prefix| :: root <= prefix[i] && prefix[i] in t
    requires root <= x && x in t && x !in prefix
    requires !(root <= dir) && !(dir <= root)
    requires forall q | q in t && !(dir <= q) :: q in before.tree && before.tree[q] == t[q]
    requires AllLanded(t, locked, root, dir, prefix, before)
    ensures AllLanded(t, locked, root, dir, prefix + [x], WalkStep(before, locked, root, dir, x))
  {
    var walk := prefix + [x];
    var r := WalkStep(before, locked, root, dir, x);
    assert forall i | 0 <= i < |prefix| :: walk[i] == prefix[i];
    if x != root {
      var dx := Rebase(x, root, dir);
      assert !(dir <= x) by {
        if dir <= x {
          PrefixesComparable(dir, root, x);
        }
      }
      var item := CopyItem(before.tree, locked, x, dx);
      assert r == Walked(item.tree, if item.ok then before.failed else before.failed + [x]);
      forall i | 0 <= i < |prefix| && prefix[i] != root && prefix[i] !in r.failed
        ensures Rebase(prefix[i], root, dir) in r.tree && r.tree[Rebase(prefix[i], root, dir)] == t[prefix[i]]
      {
        RebaseInjective(prefix[i], x, root, dir);
      }
    }
  }

  /** The items a run over an already mirrored tree reports: those whose copy is a directory that still has entries. */
  function NonEmptyDirItems(t: Tree, root: Path, dir: Path, walk: seq<Path>): seq<Path>
    requires forall i | 0 <= i < |walk| :: root <= walk[i]
    decreases |walk|
  {
    if walk == [] then []
    else
      var x := walk[|walk| - 1];
      NonEmptyDirItems(t, root, dir, walk[..|walk| - 1])
        + if x != root && NonEmptyDir(t, Rebase(x, root, dir)) then [x] else []
  }

  /** `createDirectories` on a path that is already there changes nothing and succeeds. */
  lemma MkDirsExisting(t: Tree, locked: set<Path>, p: Path)
    requires WellFormed(t) && IsDir(t, p)
    ensures MkDirs(t, locked, p) == Attempt(t, true)
  {
  }

  /** Copying an item onto an identical copy of itself changes nothing; only a non-empty directory copy is refused. */
  lemma CopyItemOntoCopy(t: Tree, locked: set<Path>, src: Path, dst: Path)
    requires WellFormed(t) && dst != [] && src != dst
    requires src in t && dst in t && t[dst] == t[src]
    requires src !in locked && dst !in locked
    ensures CopyItem(t, locked, src, dst) == Attempt(t, !NonEmptyDir(t, dst))
  {
    AncestorIsDir(t, Parent(dst), dst);
    MkDirsExisting(t, locked, Parent(dst));
    if !NonEmptyDir(t, dst) {
      assert t[dst := t[src]] == t;
    }
  }

  /**
   * Running the copy again over a destination that already mirrors the
   * source changes nothing, and the second run reports exactly the
   * directories whose copy has entries: `Files.copy` cannot replace them.
   */
  lemma {:induction false} CopyWalkRerun(t: Tree, locked: set<Path>, root: Path, dir: Path, walk: seq<Path>)
    requires WellFormed(t)
    requires !(root <= dir) && !(dir <= root)
    requires forall i | 0 <= i < |walk| :: root <= walk[i] && walk[i] in t && walk[i] !in locked
    requires forall i | 0 <= i < |walk| && walk[i] != root ::
      var d := Rebase(walk[i], root, dir); d in t && t[d] == t[walk[i]] && d !in locked
    ensures CopyWalk(t, locked, root, dir, walk) == Walked(t, NonEmptyDirItems(t, root, dir, walk))
    decreases |walk|
  {
    if walk != [] {
      var n := |walk| - 1;
      CopyWalkRerun(t, locked, root, dir, walk[..n]);
      RerunStep(t, locked, root, dir, NonEmptyDirItems(t, root, dir, walk[..n]), walk[n]);
    }
  }

  /** One item of such a rerun: the tree stays, and the item is reported exactly when its copy is a non-empty directory. */
  lemma RerunStep(t: Tree, locked: set<Path>, root: Path, dir: Path, failed: seq<Path>, x: Path)
    requires WellFormed(t)
    requires !(root <= dir) && !(dir <= root)
    requires root <= x && x in t && x !in locked
    requires x != root ==> var d := Rebase(x, root, dir); d in t && t[d] == t[x] && d !in locked
    ensures WalkStep(Walked(t, failed), locked, root, dir, x)
      == Walked(t, failed + if x != root && NonEmptyDir(t, Rebase(x, root, dir)) then [x] else [])
  {
    if x != root {
      var dx := Rebase(x, root, dir);
      assert x != dx by {
        if x == dx {
          PrefixesComparable(dir, root, x);
        }
      }
      CopyItemOntoCopy(t, locked, x, dx);
    }
  }

  /**
   * A first copy into a fresh destination: a well-formed tree, nothing
   * locked, the destination `dir` holding nothing yet and its parent a
   * directory, and a walk that visits entries of the source once each,
   * ancestors before descendants, as `Files.walk` does.
   */
  ghost predicate FreshCopy(t: Tree, root: Path, dir: Path, walk: seq<Path>) {
    && WellFormed(t)
    && dir != [] && IsDir(t, Parent(dir)) && (dir in t ==> t[dir] == Dir)
    && (forall q | q in t :: !(dir < q))
    && !(root <= dir) && !(dir <= root)
    && Preorder(t, root, walk)
  }

  /** The walk visits entries of the source below `root` once each, ancestors before descendants. */
  ghost predicate Preorder(t: Tree, root: Path, walk: seq<Path>) {
    && (forall i | 0 <= i < |walk| :: root <= walk[i] && walk[i] in t)
    && (forall i, j | 0 <= i < j < |walk| :: walk[i] != walk[j])
    && (forall i, j | 0 <= i < |walk| && 0 <= j < |walk| && walk[i] < walk[j] :: i < j)
  }

  /**
   * The tree after the first `n` items of such a copy: nothing failed,
   * nothing outside `dir` changed, `dir` is a directory if it exists, every
   * entry below `dir` is a copy of the source entry it came from, and no
   * later item's destination is touched yet.
   */
  ghost predicate FreshState(t: Tree, root: Path, dir: Path, walk: seq<Path>, n: nat, r: Walked)
    requires FreshCopy(t, root, dir, walk)
  {
    && r.failed == []
    && WellFormed(r.tree)
    && (forall q | q in t && !(dir <= q) :: q in r.tree && r.tree[q] == t[q])
    && (forall q | q in r.tree && !(dir <= q) :: q in t)
    && (dir in r.tree ==> r.tree[dir] == Dir)
    && (forall q | q in r.tree && dir < q :: Origin(q, dir, root) in t && r.tree[q] == t[Origin(q, dir, root)])
    && (forall j, q | n <= j < |walk| && walk[j] != root && q in r.tree :: !(Rebase(walk[j], root, dir) <= q))
  }

  /** In such a copy, the next item's copy succeeds, and all it adds besides the item are directories above it. */
  lemma FreshItem(t: Tree, root: Path, dir: Path, walk: seq<Path>, n: nat, before: Walked)
    requires FreshCopy(t, root, dir, walk) && n < |walk| && walk[n] != root
    requires FreshState(t, root, dir, walk, n, before)
    ensures var dx := Rebase(walk[n], root, dir);
      && dx !in before.tree
      && CopyItem(before.tree, {}, walk[n], dx).ok
  {
    var u, x := before.tree, walk[n];
    var dx := Rebase(x, root, dir);
    var pd := Parent(dx);
    assert dx !in u;
    FreshCreatable(t, root, dir, walk, n, before);
    var made := MkDirs(u, {}, pd);
    assert pd[..|pd|] == pd;
    assert IsDir(made.tree, pd);
    assert !(dir <= x) by {
      if dir <= x {
        PrefixesComparable(dir, root, x);
      }
    }
  }

  /** Every directory on the way to the next item's place is there already or can be made. */
  lemma FreshCreatable(t: Tree, root: Path, dir: Path, walk: seq<Path>, n: nat, before: Walked)
    requires FreshCopy(t, root, dir, walk) && n < |walk| && walk[n] != root
    requires FreshState(t, root, dir, walk, n, before)
    ensures var pd := Parent(Rebase(walk[n], root, dir));
      forall i | 0 < i <= |pd| :: Creatable(before.tree, {}, pd[..i])
  {
    var u, x := before.tree, walk[n];
    var dx := Rebase(x, root, dir);
    var pd := Parent(dx);
    assert dir <= pd;
    forall i | 0 < i <= |pd| ensures Creatable(u, {}, pd[..i]) {
      var q := pd[..i];
      assert q <= dx && |q| < |dx|;
      if q in u {
        PrefixesComparable(q, dir, dx);
        if q < dir {
          assert q <= Parent(dir);
          if q != Parent(dir) {
            AncestorIsDir(t, q, Parent(dir));
          }
        } else if dir < q {
          var o := Origin(q, dir, root);
          RebasePrefix(o, x, root, dir);
          assert o < x;
          AncestorIsDir(t, o, x);
          assert u[q] == t[o];
        } else {
          assert q == dir;
        }
      }
    }
  }

  /** One more item of such a copy keeps the state. */
  lemma FreshStep(t: Tree, root: Path, dir: Path, walk: seq<Path>, n: nat, before: Walked)
    requires FreshCopy(t, root, dir, walk) && n < |walk|
    requires FreshState(t, root, dir, walk, n, before)
    ensures FreshState(t, root, dir, walk, n + 1, WalkStep(before, {}, root, dir, walk[n]))
  {
    var x := walk[n];
    if x != root {
      var dx := Rebase(x, root, dir);
      FreshItem(t, root, dir, walk, n, before);
      var item := CopyItem(before.tree, {}, x, dx);
      assert WalkStep(before, {}, root, dir, x) == Walked(item.tree, []);
      assert !(dir <= x) by {
        if dir <= x {
          PrefixesComparable(dir, root, x);
        }
      }
      FreshStepOutside(t, root, dir, walk, n, before);
      FreshStepBelow(t, root, dir, walk, n, before);
      FreshStepAhead(t, root, dir, walk, n, before);
    }
  }

  /** The item's copy adds nothing outside `dir` that the source tree lacks. */
  lemma FreshStepOutside(t: Tree, root: Path, dir: Path, walk: seq<Path>, n: nat, before: Walked)
    requires FreshCopy(t, root, dir, walk) && n < |walk| && walk[n] != root
    requires FreshState(t, root, dir, walk, n, before)
    ensures var u2 := CopyItem(before.tree, {}, walk[n], Rebase(walk[n], root, dir)).tree;
      forall q | q in u2 && !(dir <= q) :: q in t
  {
    var dx := Rebase(walk[n], root, dir);
    var u2 := CopyItem(before.tree, {}, walk[n], dx).tree;
    forall q | q in u2 && !(dir <= q) ensures q in t {
      if q !in before.tree {
        PrefixesComparable(q, dir, dx);
        if q != Parent(dir) {
          AncestorIsDir(t, q, Parent(dir));
        }
      }
    }
  }

  /** After the item's copy, every entry below `dir` is still a copy of its source entry. */
  lemma FreshStepBelow(t: Tree, root: Path, dir: Path, walk: seq<Path>, n: nat, before: Walked)
    requires FreshCopy(t, root, dir, walk) && n < |walk| && walk[n] != root
    requires FreshState(t, root, dir, walk, n, before)
    requires CopyItem(before.tree, {}, walk[n], Rebase(walk[n], root, dir)).ok
    ensures var u2 := CopyItem(before.tree, {}, walk[n], Rebase(walk[n], root, dir)).tree;
      forall q | q in u2 && dir < q :: Origin(q, dir, root) in t && u2[q] == t[Origin(q, dir, root)]
  {
    var x := walk[n];
    var dx := Rebase(x, root, dir);
    var u2 := CopyItem(before.tree, {}, x, dx).tree;
    assert !(dir <= x) by {
      if dir <= x {
        PrefixesComparable(dir, root, x);
      }
    }
    forall q | q in u2 && dir < q ensures Origin(q, dir, root) in t && u2[q] == t[Origin(q, dir, root)] {
      if q == dx {
        OriginRebase(x, root, dir);
      } else if q !in before.tree {
        RebasePrefix(Origin(q, dir, root), x, root, dir);
        AncestorIsDir(t, Origin(q, dir, root), x);
      }
    }
  }

  /** The item's copy touches no later item's destination. */
  lemma FreshStepAhead(t: Tree, root: Path, dir: Path, walk: seq<Path>, n: nat, before: Walked)
    requires FreshCopy(t, root, dir, walk) && n < |walk| && walk[n] != root
    requires FreshState(t, root, dir, walk, n, before)
    ensures var u2 := CopyItem(before.tree, {}, walk[n], Rebase(walk[n], root, dir)).tree;
      forall j, q | n + 1 <= j < |walk| && walk[j] != root && q in u2 :: !(Rebase(walk[j], root, dir) <= q)
  {
    var x := walk[n];
    var u2 := CopyItem(before.tree, {}, x, Rebase(x, root, dir)).tree;
    forall j, q | n + 1 <= j < |walk| && walk[j] != root && q in u2 ensures !(Rebase(walk[j], root, dir) <= q) {
      if q !in before.tree {
        RebasePrefix(walk[j], x, root, dir);
      }
    }
  }

  lemma {:induction false} FreshPrefix(t: Tree, root: Path, dir: Path, walk: seq<Path>, n: nat)
    requires FreshCopy(t, root, dir, walk) && n <= |walk|
    ensures FreshState(t, root, dir, walk, n, CopyWalk(t, {}, root, dir, walk[..n]))
    decreases n
  {
    if n == 0 {
      assert walk[..0] == [];
      FreshStart(t, root, dir, walk);
    } else {
      var before := CopyWalk(t, {}, root, dir, walk[..n - 1]);
      FreshPrefix(t, root, dir, walk, n - 1);
      CopyWalkSnoc(t, {}, root, dir, walk, n - 1);
      FreshStep(t, root, dir, walk, n - 1, before);
    }
  }

  /** Before the first item, the state holds of the tree as it is. */
  lemma FreshStart(t: Tree, root: Path, dir: Path, walk: seq<Path>)
    requires FreshCopy(t, root, dir, walk)
    ensures FreshState(t, root, dir, walk, 0, Walked(t, []))
  {
    assert forall j | 0 <= j < |walk| && walk[j] != root :: dir < Rebase(walk[j], root, dir);
  }

  /**
   * A first copy into a fresh destination with nothing locked reports no
   * failure; every walked item other than the root lands at its rebased
   * place with the source's content, and everything below the destination
   * is a copy of the source entry it came from.
   */
  lemma FreshWalkCopies(t: Tree, root: Path, dir: Path, walk: seq<Path>)
    requires FreshCopy(t, root, dir, walk)
    ensures var r := CopyWalk(t, {}, root, dir, walk);
      && r.failed == []
      && (forall i | 0 <= i < |walk| && walk[i] != root ::
            Rebase(walk[i], root, dir) in r.tree && r.tree[Rebase(walk[i], root, dir)] == t[walk[i]])
      && (forall q | q in r.tree && dir < q :: Origin(q, dir, root) in t && r.tree[q] == t[Origin(q, dir, root)])
  {
    FreshPrefix(t, root, dir, walk, |walk|);
    assert walk[..|walk|] == walk;
    CopyWalkLands(t, {}, root, dir, walk);
  }

  /**
   * A first copy of the folder `folderName` of `target` into an existing
   * destination folder that holds nothing of that name yet (or is empty, for
   * an empty `folderName`), with nothing locked: copyDirectory completes
   * without a failed item, every walked item lands at its place with its
   * content, and nothing else is below the copy.
   */
  lemma FreshCopyDirectory(t: Tree, folderName: Name, dest: Path, target: Path, walk: seq<Path>)
    requires dest in t && t[dest] == Dir && Join(target, folderName) in t
    requires FreshCopy(t, Join(target, folderName), Join(dest, folderName), walk)
    ensures var r := CopyDirectoryResult(t, {}, folderName, dest, target, walk);
      var root, dir := Join(target, folderName), Join(dest, folderName);
      && r.outcome == Completed([])
      && (forall i | 0 <= i < |walk| && walk[i] != root ::
            Rebase(walk[i], root, dir) in r.tree && r.tree[Rebase(walk[i], root, dir)] == t[walk[i]])
      && (forall q | q in r.tree && dir < q :: Origin(q, dir, root) in t && r.tree[q] == t[Origin(q, dir, root)])
  {
    FreshWalkCopies(t, Join(target, folderName), Join(dest, folderName), walk);
  }

  /**
   * A copy into a destination that may already hold anything, with nothing
   * locked: a well-formed tree, the parent of `dir` a directory and `dir` a
   * directory if it exists, and a walk in the order of `Files.walk` that
   * reaches each item through its parent (the walk root or an earlier item).
   */
  ghost predicate OverwriteCopy(t: Tree, root: Path, dir: Path, walk: seq<Path>) {
    && WellFormed(t)
    && dir != [] && IsDir(t, Parent(dir)) && (dir in t ==> t[dir] == Dir)
    && !(root <= dir) && !(dir <= root)
    && Preorder(t, root, walk)
    && (forall i {:trigger ParentWalked(root, walk, walk[i])} | 0 <= i < |walk| :: ParentWalked(root, walk, walk[i]))
  }

  /** `x` is the walk root, or its parent is the walk root or walked too. */
  ghost predicate ParentWalked(root: Path, walk: seq<Path>, x: Path) {
    x == root || (x != [] && (Parent(x) == root || Parent(x) in walk))
  }

  /**
   * The tree after the first `n` items of such a copy: the items reported
   * so far are those whose place held a directory with entries, nothing
   * outside `dir` changed, `dir` is a directory if it exists, the place of
   * every directory copied so far holds a directory, and nothing at or below
   * the place of a later item has changed yet.
   */
  ghost predicate OverwriteState(t: Tree, root: Path, dir: Path, walk: seq<Path>, n: nat, r: Walked)
    requires OverwriteCopy(t, root, dir, walk) && n <= |walk|
  {
    && WellFormed(r.tree)
    && r.failed == NonEmptyDirItems(t, root, dir, walk[..n])
    && (forall q | q in t :: q in r.tree)
    && (forall q | q in t && !(dir <= q) :: r.tree[q] == t[q])
    && (dir in r.tree ==> r.tree[dir] == Dir)
    && (forall j | 0 <= j < n && walk[j] != root && t[walk[j]] == Dir :: IsDir(r.tree, Rebase(walk[j], root, dir)))
    && (forall j | n <= j < |walk| && walk[j] != root :: Untouched(t, r.tree, Rebase(walk[j], root, dir)))
  }

  /** Nothing at or below `p` differs in `u` from `t`. */
  ghost predicate Untouched(t: Tree, u: Tree, p: Path) {
    forall q | q in u && p <= q :: q in t && u[q] == t[q]
  }

  /**
   * The parent place of the item `x` is a directory already, or it is `dir`,
   * whose parent is a directory: `createDirectories` may pass through every
   * ancestor of the item's place.
   */
  lemma ParentPlaceCreatable(u: Tree, root: Path, dir: Path, x: Path)
    requires WellFormed(u) && root < x && dir != []
    requires IsDir(u, Parent(dir)) && (dir in u ==> u[dir] == Dir)
    requires |x| > |root| + 1 ==> IsDir(u, Parent(Rebase(x, root, dir)))
    ensures var dx := Rebase(x, root, dir);
      forall i | 0 < i < |dx| :: Creatable(u, {}, dx[..i])
  {
    var dx := Rebase(x, root, dir);
    var pd := Parent(dx);
    assert forall i | 0 < i < |dx| :: dx[..i] == pd[..i];
    if |x| > |root| + 1 {
      DirPrefixesCreatable(u, {}, pd);
    } else {
      assert pd == dir;
      if dir in u {
        DirPrefixesCreatable(u, {}, dir);
      } else {
        DirPrefixesCreatable(u, {}, Parent(dir));
        assert forall i | 0 < i < |dir| :: dir[..i] == Parent(dir)[..i];
      }
    }
  }

  /** Every directory on the way to a directory of a well-formed tree exists, so `createDirectories` may pass. */
  lemma DirPrefixesCreatable(u: Tree, locked: set<Path>, p: Path)
    requires WellFormed(u) && IsDir(u, p)
    ensures forall i | 0 < i <= |p| :: Creatable(u, locked, p[..i])
  {
    forall i | 0 < i <= |p| ensures Creatable(u, locked, p[..i]) {
      if i < |p| {
        AncestorIsDir(u, p[..i], p);
      } else {
        assert p[..i] == p;
      }
    }
  }

  /** The next item's copy fails exactly when its place holds a directory with entries. */
  lemma OverwriteItem(t: Tree, root: Path, dir: Path, walk: seq<Path>, n: nat, before: Walked)
    requires OverwriteCopy(t, root, dir, walk) && n < |walk| && walk[n] != root
    requires OverwriteState(t, root, dir, walk, n, before)
    ensures var dx := Rebase(walk[n], root, dir);
      && (NonEmptyDir(before.tree, dx) <==> NonEmptyDir(t, dx))
      && (CopyItem(before.tree, {}, walk[n], dx).ok <==> !NonEmptyDir(t, dx))
  {
    var u, x := before.tree, walk[n];
    var dx := Rebase(x, root, dir);
    assert !(dir <= x) by {
      if dir <= x {
        PrefixesComparable(dir, root, x);
      }
    }
    UntouchedNonEmpty(t, u, dx);
    if !NonEmptyDir(u, dx) {
      OverwriteParent(t, root, dir, walk, n, before);
      ParentPlaceCreatable(u, root, dir, x);
      CopyItemSucceeds(u, {}, x, dx);
    }
  }

  /** A place nothing has touched holds a directory with entries exactly when it did before. */
  lemma UntouchedNonEmpty(t: Tree, u: Tree, p: Path)
    requires Untouched(t, u, p) && forall q | q in t :: q in u
    ensures NonEmptyDir(u, p) <==> NonEmptyDir(t, p)
  {
    if NonEmptyDir(t, p) {
      var c :| c in t && IsChild(p, c);
      assert c in u;
    }
  }

  /** In such a copy the next item's parent place is a directory, unless it is `dir`, whose parent is one. */
  lemma OverwriteParent(t: Tree, root: Path, dir: Path, walk: seq<Path>, n: nat, before: Walked)
    requires OverwriteCopy(t, root, dir, walk) && n < |walk| && walk[n] != root
    requires OverwriteState(t, root, dir, walk, n, before)
    ensures IsDir(before.tree, Parent(dir))
    ensures |walk[n]| > |root| + 1 ==> IsDir(before.tree, Parent(Rebase(walk[n], root, dir)))
  {
    var x := walk[n];
    if |x| > |root| + 1 {
      var px := Parent(x);
      assert ParentWalked(root, walk, x);
      var k :| 0 <= k < |walk| && walk[k] == px;
      WalkedParentPlace(t, root, dir, walk, n, k, before.tree);
    }
  }

  /** The place of an item's parent, walked earlier, is the item's parent place and a directory. */
  lemma WalkedParentPlace(t: Tree, root: Path, dir: Path, walk: seq<Path>, n: nat, k: nat, u: Tree)
    requires WellFormed(t) && Preorder(t, root, walk)
    requires n < |walk| && k < |walk| && walk[n] != root && walk[k] != root && walk[k] == Parent(walk[n])
    requires forall j | 0 <= j < n && walk[j] != root && t[walk[j]] == Dir :: IsDir(u, Rebase(walk[j], root, dir))
    ensures IsDir(u, Parent(Rebase(walk[n], root, dir)))
  {
    assert walk[k] < walk[n];
    assert Parent(Rebase(walk[n], root, dir)) == Rebase(walk[k], root, dir);
  }

  /** One more item of such a copy keeps the state. */
  lemma OverwriteStep(t: Tree, root: Path, dir: Path, walk: seq<Path>, n: nat, before: Walked)
    requires OverwriteCopy(t, root, dir, walk) && n < |walk|
    requires OverwriteState(t, root, dir, walk, n, before)
    ensures OverwriteState(t, root, dir, walk, n + 1, WalkStep(before, {}, root, dir, walk[n]))
  {
    var x := walk[n];
    NonEmptyDirItemsSnoc(t, root, dir, walk, n);
    if x != root {
      var dx := Rebase(x, root, dir);
      OverwriteItem(t, root, dir, walk, n, before);
      var item := CopyItem(before.tree, {}, x, dx);
      assert WalkStep(before, {}, root, dir, x)
        == Walked(item.tree, before.failed + if NonEmptyDir(t, dx) then [x] else []);
      OverwriteStepDirs(t, root, dir, walk, n, before);
      OverwriteStepAhead(t, root, dir, walk, n, before);
    }
  }

  /** After the item's copy, the place of every directory copied so far, this one included, holds a directory. */
  lemma OverwriteStepDirs(t: Tree, root: Path, dir: Path, walk: seq<Path>, n: nat, before: Walked)
    requires OverwriteCopy(t, root, dir, walk) && n < |walk| && walk[n] != root
    requires OverwriteState(t, root, dir, walk, n, before)
    requires var dx := Rebase(walk[n], root, dir);
      CopyItem(before.tree, {}, walk[n], dx).ok <==> !NonEmptyDir(before.tree, dx)
    ensures var u2 := CopyItem(before.tree, {}, walk[n], Rebase(walk[n], root, dir)).tree;
      && (dir in u2 ==> u2[dir] == Dir)
      && forall j | 0 <= j < n + 1 && walk[j] != root && t[walk[j]] == Dir :: IsDir(u2, Rebase(walk[j], root, dir))
  {
    var u, x := before.tree, walk[n];
    var dx := Rebase(x, root, dir);
    var item := CopyItem(u, {}, x, dx);
    assert !(dir <= x) by {
      if dir <= x {
        PrefixesComparable(dir, root, x);
      }
    }
    assert dx != dir;
    assert t[x] == Dir ==> IsDir(item.tree, dx) by {
      if !item.ok {
        assert NonEmptyDir(u, dx);
      }
    }
    DirsKept(t, u, item.tree, root, dir, walk, n);
  }

  /** Places that held directories keep them when only the place of item `n` may change. */
  lemma DirsKept(t: Tree, u: Tree, u2: Tree, root: Path, dir: Path, walk: seq<Path>, n: nat)
    requires n < |walk| && walk[n] != root
    requires forall i | 0 <= i < |walk| :: root <= walk[i] && walk[i] in t
    requires forall i, j | 0 <= i < j < |walk| :: walk[i] != walk[j]
    requires forall j | 0 <= j < n && walk[j] != root && t[walk[j]] == Dir :: IsDir(u, Rebase(walk[j], root, dir))
    requires forall q | q in u && q != Rebase(walk[n], root, dir) :: q in u2 && u2[q] == u[q]
    requires t[walk[n]] == Dir ==> IsDir(u2, Rebase(walk[n], root, dir))
    ensures forall j | 0 <= j < n + 1 && walk[j] != root && t[walk[j]] == Dir :: IsDir(u2, Rebase(walk[j], root, dir))
  {
    forall j | 0 <= j < n + 1 && walk[j] != root && t[walk[j]] == Dir ensures IsDir(u2, Rebase(walk[j], root, dir)) {
      if j < n {
        RebaseInjective(walk[j], walk[n], root, dir);
      }
    }
  }

  /** The item's copy changes nothing at or below the place of a later item. */
  lemma OverwriteStepAhead(t: Tree, root: Path, dir: Path, walk: seq<Path>, n: nat, before: Walked)
    requires OverwriteCopy(t, root, dir, walk) && n < |walk| && walk[n] != root
    requires OverwriteState(t, root, dir, walk, n, before)
    ensures var u2 := CopyItem(before.tree, {}, walk[n], Rebase(walk[n], root, dir)).tree;
      forall j | n + 1 <= j < |walk| && walk[j] != root :: Untouched(t, u2, Rebase(walk[j], root, dir))
  {
    var u, x := before.tree, walk[n];
    var dx := Rebase(x, root, dir);
    var u2 := CopyItem(u, {}, x, dx).tree;
    forall j | n + 1 <= j < |walk| && walk[j] != root ensures Untouched(t, u2, Rebase(walk[j], root, dir)) {
      var dj := Rebase(walk[j], root, dir);
      RebasePrefix(walk[j], x, root, dir);
      assert !(dj <= dx);
      assert Untouched(t, u, dj);
    }
  }

  lemma {:induction false} OverwritePrefix(t: Tree, root: Path, dir: Path, walk: seq<Path>, n: nat)
    requires OverwriteCopy(t, root, dir, walk) && n <= |walk|
    ensures OverwriteState(t, root, dir, walk, n, CopyWalk(t, {}, root, dir, walk[..n]))
    decreases n
  {
    if n == 0 {
      assert walk[..0] == [];
      OverwriteStart(t, root, dir, walk);
    } else {
      var before := CopyWalk(t, {}, root, dir, walk[..n - 1]);
      OverwritePrefix(t, root, dir, walk, n - 1);
      CopyWalkSnoc(t, {}, root, dir, walk, n - 1);
      OverwriteStep(t, root, dir, walk, n - 1, before);
    }
  }

  /** The walk of the first `n + 1` items is that of the first `n` and one more step. */
  lemma CopyWalkSnoc(t: Tree, locked: set<Path>, root: Path, dir: Path, walk: seq<Path>, n: nat)
    requires n < |walk| && forall i | 0 <= i < |walk| :: root <= walk[i]
    ensures CopyWalk(t, locked, root, dir, walk[..n + 1])
      == WalkStep(CopyWalk(t, locked, root, dir, walk[..n]), locked, root, dir, walk[n])
  {
    assert walk[..n + 1][..n] == walk[..n];
  }

  lemma NonEmptyDirItemsSnoc(t: Tree, root: Path, dir: Path, walk: seq<Path>, n: nat)
    requires n < |walk| && forall i | 0 <= i < |walk| :: root <= walk[i]
    ensures NonEmptyDirItems(t, root, dir, walk[..n + 1])
      == NonEmptyDirItems(t, root, dir, walk[..n])
         + if walk[n] != root && NonEmptyDir(t, Rebase(walk[n], root, dir)) then [walk[n]] else []
  {
    assert walk[..n + 1][..n] == walk[..n];
  }

  /** Before the first item, the state holds of the tree as it is. */
  lemma OverwriteStart(t: Tree, root: Path, dir: Path, walk: seq<Path>)
    requires OverwriteCopy(t, root, dir, walk)
    ensures OverwriteState(t, root, dir, walk, 0, Walked(t, []))
  {
    assert walk[..0] == [];
  }

  /**
   * Copying over a destination that already holds anything, with nothing
   * locked, reports exactly the items whose place held a directory with
   * entries before the copy: every other item, a file replacing a file of
   * different content or a directory, a directory replacing a file, lands
   * with its content.
   */
  lemma CopyWalkOverwrite(t: Tree, root: Path, dir: Path, walk: seq<Path>)
    requires OverwriteCopy(t, root, dir, walk)
    ensures var r := CopyWalk(t, {}, root, dir, walk);
      && r.failed == NonEmptyDirItems(t, root, dir, walk)
      && AllLanded(t, {}, root, dir, walk, r)
  {
    OverwritePrefix(t, root, dir, walk, |walk|);
    assert walk[..|walk|] == walk;
    CopyWalkLands(t, {}, root, dir, walk);
  }

  /**
   * The same for the whole operation into an existing destination folder,
   * say a rerun after the source changed: copyDirectory completes, and it
   * reports exactly the items whose place held a directory with entries.
   */
  lemma OverwriteCopyDirectory(t: Tree, folderName: Name, dest: Path, target: Path, walk: seq<Path>)
    requires dest in t && t[dest] == Dir && Join(target, folderName) in t
    requires OverwriteCopy(t, Join(target, folderName), Join(dest, folderName), walk)
    ensures var r := CopyDirectoryResult(t, {}, folderName, dest, target, walk);
      var root, dir := Join(target, folderName), Join(dest, folderName);
      && r.outcome == Completed(NonEmptyDirItems(t, root, dir, walk))
      && AllLanded(t, {}, root, dir, walk, Walked(r.tree, r.outcome.failed))
  {
    CopyWalkOverwrite(t, Join(target, folderName), Join(dest, folderName), walk);
  }
}
