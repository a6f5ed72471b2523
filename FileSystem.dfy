/**
 * The filesystem as an object whose entries the save manager's operations
 * change in place, with copyDirectory and deleteDir as its methods. Each
 * method is proved against the functions of CopySpec and DeleteSpec.
 */
module FileSystem {
  import opened Wrappers
  import opened Paths
  import opened FileTree
  import opened CopySpec
  import opened DeleteSpec

  class FileSystem {
    var nodes: Tree
    /**
     * Paths the save manager cannot list, read, create, replace or delete
     * (held open by the game, no permission); whether such a path exists and
     * what kind of entry it is can still be seen.
     */
    const locked: set<Path>

    ghost predicate Valid()
      reads this
    {
      WellFormed(nodes)
    }

    constructor (t: Tree, locked: set<Path>)
      requires WellFormed(t)
      ensures Valid() && nodes == t && this.locked == locked
    {
      nodes := t;
      this.locked := locked;
    }

    /** `Files.createDirectories(p)`. */
    method CreateDirectories(p: Path) returns (ok: bool)
      requires Valid()
      modifies this
      ensures Valid()
      ensures Attempt(nodes, ok) == MkDirs(old(nodes), locked, p)
    {
      var r := MkDirs(nodes, locked, p);
      nodes, ok := r.tree, r.ok;
    }

    /** `Files.copy(src, dst, StandardCopyOption.REPLACE_EXISTING)`. */
    method Copy(src: Path, dst: Path) returns (ok: bool)
      requires Valid()
      modifies this
      ensures Valid()
      ensures Attempt(nodes, ok) == ReplaceCopy(old(nodes), locked, src, dst)
    {
      var r := ReplaceCopy(nodes, locked, src, dst);
      nodes, ok := r.tree, r.ok;
    }

    /**
     * `Files.delete(p)`: fails on a missing or locked path, on the root, and
     * on a directory that still has entries.
     */
    method Delete(p: Path) returns (ok: bool)
      requires Valid()
      modifies this
      ensures Valid()
      ensures ok <==> p in old(nodes) && p != [] && p !in locked && !HasChild(old(nodes), p)
      ensures nodes == if ok then old(nodes) - {p} else old(nodes)
    {
      ok := p in nodes && p != [] && p !in locked && !HasChild(nodes, p);
      if ok {
        nodes := nodes - {p};
      }
    }

    /**
     * copyDirectory(folderName, dest, target) (lines 81-115). `walk` is what
     * `Files.walk(target/folderName)` enumerates. The two exceptions that
     * escape are returned as `Failed`.
     */
    method CopyDirectory(folderName: Name, dest: Path, target: Path, walk: seq<Path>) returns (outcome: CopyOutcome)
      requires Valid()
      requires forall i | 0 <= i < |walk| :: Join(target, folderName) <= walk[i]
      modifies this
      ensures Valid()
      ensures Copied(nodes, outcome) == CopyDirectoryResult(old(nodes), locked, folderName, dest, target, walk)
    {
      var dir := Join(dest, folderName);
      if dest !in nodes {
        var created := CreateDirectories(dest);
        if !created {
          return Failed(DestinationNotCreated);
        }
      }
      var pathToWalk := Join(target, folderName);
      if pathToWalk !in nodes || (pathToWalk in locked && nodes[pathToWalk] == Dir) {
        return Failed(SourceNotWalkable);
      }
      var failed := CopyWalked(pathToWalk, dir, walk);
      outcome := Completed(failed);
    }

    /** The `forEach` over the walk (lines 93-114). */
    method CopyWalked(pathToWalk: Path, dir: Path, walk: seq<Path>) returns (failed: seq<Path>)
      requires Valid()
      requires forall i | 0 <= i < |walk| :: pathToWalk <= walk[i]
      modifies this
      ensures Valid()
      ensures Walked(nodes, failed) == CopyWalk(old(nodes), locked, pathToWalk, dir, walk)
    {
      failed := [];
      var i := 0;
      while i < |walk|
        invariant 0 <= i <= |walk|
        invariant Valid()
        invariant Walked(nodes, failed) == CopyWalk(old(nodes), locked, pathToWalk, dir, walk[..i])
      {
        assert walk[..i + 1][..i] == walk[..i];
        failed := CopyWalkedItem(pathToWalk, dir, walk[i], failed);
        i := i + 1;
      }
      assert walk[..|walk|] == walk;
    }

    /** The body of the `forEach` for one walked item `source` (lines 96-112). */
    method CopyWalkedItem(pathToWalk: Path, dir: Path, source: Path, failed: seq<Path>) returns (failed': seq<Path>)
      requires Valid()
      requires pathToWalk <= source
      modifies this
      ensures Valid()
      ensures Walked(nodes, failed') == WalkStep(Walked(old(nodes), failed), locked, pathToWalk, dir, source)
    {
      failed' := failed;
      if source != pathToWalk {
        var destination := Rebase(source, pathToWalk, dir);
        var ok := CreateDirectories(Parent(destination));
        if ok {
          ok := Copy(source, destination);
        }
        if !ok {
          failed' := failed + [source];
        }
      }
    }

    /**
     * deleteDir(file) (lines 126-144): a directory's entries are deleted
     * first, then `p` itself. The first exception ends every call in
     * progress, and what was deleted stays deleted.
     */
    method DeleteDir(p: Path) returns (ok: bool)
      requires Valid()
      modifies this
      decreases Subtree(nodes, p), 1
      ensures Valid()
      ensures ok <==> Deletable(old(nodes), locked, p)
      ensures ok ==> nodes == old(nodes) - Subtree(old(nodes), p)
      ensures DeletedWithin(old(nodes), nodes, locked, p)
      ensures p in locked ==> nodes == old(nodes)
    {
      // `file.listFiles()` is null unless `p` is a directory it can read.
      if p in nodes && nodes[p] == Dir && p !in locked {
        ghost var done;
        ok, done := DeleteEntries(p);
        if !ok {
          return;
        }
        LinkChildrenRemain(old(nodes), p, done);
        if p != [] {
          DeletableByChildren(old(nodes), locked, p);
        }
        ok := Delete(p);
        if ok {
          RemovedAll(old(nodes), p, done);
          WholeWithin(old(nodes), locked, p);
        }
      } else if p in nodes && nodes[p] == Dir {
        // A locked directory is not listed, and deleting it fails.
        ok := Delete(p);
      } else {
        if p in nodes && p != [] {
          DeletableLeaf(old(nodes), locked, p);
          LeafSubtree(old(nodes), p);
          assert forall c | c in nodes && IsChild(p, c) :: c in Subtree(nodes, p);
        }
        ok := Delete(p);
      }
    }

    /**
     * The loop of deleteDir over `file.listFiles()` (lines 132-140), in no
     * particular order: each entry that is not a symbolic link is deleted by
     * a recursive call; a link is left where it is.
     */
    method DeleteEntries(p: Path) returns (ok: bool, ghost done: set<Path>)
      requires Valid() && p in nodes && nodes[p] == Dir && p !in locked
      modifies this
      decreases Subtree(nodes, p), 0
      ensures Valid()
      ensures DeletedWithin(old(nodes), nodes, locked, p)
      ensures !ok ==> !Deletable(old(nodes), locked, p)
      ensures ok ==> nodes == old(nodes) - Removed(old(nodes), p, done)
      ensures ok ==> forall c | c in Children(old(nodes), p) :: c in done <==> !old(nodes)[c].Symlink?
      ensures forall c | c in done :: c in Children(old(nodes), p) && !old(nodes)[c].Symlink? && Deletable(old(nodes), locked, c)
      ensures nodes.Keys <= old(nodes).Keys - Removed(old(nodes), p, done)
    {
      var contents := Children(nodes, p);
      var todo := contents;
      ok, done := true, {};
      while todo != {}
        invariant todo <= contents
        invariant done <= contents && done !! todo
        invariant forall c | c in contents && c !in todo :: c in done <==> !old(nodes)[c].Symlink?
        invariant forall c | c in done :: c in old(nodes) && !old(nodes)[c].Symlink? && Deletable(old(nodes), locked, c)
        invariant Valid()
        invariant nodes == old(nodes) - Removed(old(nodes), p, done)
        decreases todo
      {
        var f :| f in todo;
        todo := todo - {f};
        if !IsSymbolicLink(f) {
          DeleteDirCallShrinks(old(nodes), p, done, f);
          ok := DeleteEntry(old(nodes), p, done, f);
          if !ok {
            return;
          }
          done := done + {f};
        }
      }
      RemovedWithin(old(nodes), locked, p, done);
    }

    /**
     * One pass of that loop for an entry `f` that is no link: the recursive
     * call, with `t` the tree before the loop and `done` the entries already
     * deleted.
     */
    method DeleteEntry(ghost t: Tree, p: Path, ghost done: set<Path>, f: Path) returns (ok: bool)
      requires Valid() && IsChild(p, f) && f !in done && f in t && !t[f].Symlink?
      requires nodes == t - Removed(t, p, done)
      requires forall c | c in done :: c in t && !t[c].Symlink? && Deletable(t, locked, c)
      modifies this
      decreases Subtree(nodes, f), 2
      ensures Valid()
      ensures ok ==> nodes == t - Removed(t, p, done + {f}) && Deletable(t, locked, f)
      ensures !ok ==> DeletedWithin(t, nodes, locked, p) && !Deletable(t, locked, p)
      ensures !ok ==> nodes.Keys <= t.Keys - Removed(t, p, done)
    {
      ghost var before := nodes;
      DeletableUntouched(t, locked, p, done, f);
      RemovedWithin(t, locked, p, done);
      ok := DeleteDir(f);
      if ok {
        RemovedStep(t, p, done, f);
      } else {
        DeletedWithinChild(t, before, nodes, locked, p, f);
        UndeletableChild(t, locked, p, f);
      }
    }

    /**
     * deleteDir as evidently intended: a symbolic link among the entries is
     * deleted itself (never followed) instead of being skipped, so a folder
     * holding links can be deleted too.
     */
    method DeleteTree(p: Path) returns (ok: bool)
      requires Valid()
      modifies this
      decreases Subtree(nodes, p), 1
      ensures Valid()
      ensures ok <==> Removable(old(nodes), locked, p)
      ensures ok ==> nodes == old(nodes) - Subtree(old(nodes), p)
      ensures DeletedBelow(old(nodes), nodes, locked, p)
      ensures p in locked ==> nodes == old(nodes)
    {
      if p in nodes && nodes[p] == Dir && p !in locked {
        ghost var done;
        ok, done := DeleteTreeEntries(p);
        if !ok {
          return;
        }
        NoChildLeft(old(nodes), p, done);
        if p != [] {
          RemovableByChildren(old(nodes), locked, p);
        }
        ok := Delete(p);
        if ok {
          RemovedAll(old(nodes), p, done);
          WholeBelow(old(nodes), locked, p);
        }
      } else if p in nodes && nodes[p] == Dir {
        ok := Delete(p);
      } else {
        if p in nodes && p != [] {
          RemovableLeaf(old(nodes), locked, p);
          LeafSubtree(old(nodes), p);
          assert forall c | c in nodes && IsChild(p, c) :: c in Subtree(nodes, p);
        }
        ok := Delete(p);
      }
    }

    /** The loop of DeleteTree over the entries of the directory `p`. */
    method DeleteTreeEntries(p: Path) returns (ok: bool, ghost done: set<Path>)
      requires Valid() && p in nodes && nodes[p] == Dir && p !in locked
      modifies this
      decreases Subtree(nodes, p), 0
      ensures Valid()
      ensures DeletedBelow(old(nodes), nodes, locked, p)
      ensures !ok ==> !Removable(old(nodes), locked, p)
      ensures ok ==> nodes == old(nodes) - Removed(old(nodes), p, done)
      ensures ok ==> Children(old(nodes), p) <= done
      ensures forall c | c in done :: c in Children(old(nodes), p) && Removable(old(nodes), locked, c)
      ensures nodes.Keys <= old(nodes).Keys - Removed(old(nodes), p, done)
    {
      var contents := Children(nodes, p);
      var todo := contents;
      ok, done := true, {};
      while todo != {}
        invariant todo <= contents
        invariant done <= contents && done !! todo
        invariant forall c | c in contents && c !in todo :: c in done
        invariant forall c | c in done :: c in old(nodes) && Removable(old(nodes), locked, c)
        invariant Valid()
        invariant nodes == old(nodes) - Removed(old(nodes), p, done)
        decreases todo
      {
        var f :| f in todo;
        todo := todo - {f};
        DeleteDirCallShrinks(old(nodes), p, done, f);
        ok := DeleteTreeEntry(old(nodes), p, done, f);
        if !ok {
          return;
        }
        done := done + {f};
      }
      RemovedBelow(old(nodes), locked, p, done);
    }

    /** One pass of that loop: a link is deleted, anything else deleted recursively. */
    method DeleteTreeEntry(ghost t: Tree, p: Path, ghost done: set<Path>, f: Path) returns (ok: bool)
      requires Valid() && IsChild(p, f) && f !in done && f in t
      requires nodes == t - Removed(t, p, done)
      requires forall c | c in done :: c in t && Removable(t, locked, c)
      modifies this
      decreases Subtree(nodes, f), 2
      ensures Valid()
      ensures ok ==> nodes == t - Removed(t, p, done + {f}) && Removable(t, locked, f)
      ensures !ok ==> DeletedBelow(t, nodes, locked, p) && !Removable(t, locked, p)
      ensures !ok ==> nodes.Keys <= t.Keys - Removed(t, p, done)
    {
      ghost var before := nodes;
      RemovableUntouched(t, locked, p, done, f);
      RemovedBelow(t, locked, p, done);
      assert f in before by {
        assert ChildToward(p, f) == f;
      }
      if IsSymbolicLink(f) {
        RemovableLeaf(before, locked, f);
        LeafSubtree(before, f);
        assert forall c | c in before && IsChild(f, c) :: c in Subtree(before, f);
        ok := Delete(f);
      } else {
        ok := DeleteTree(f);
      }
      if ok {
        RemovedStep(t, p, done, f);
      } else {
        DeletedBelowChild(t, before, nodes, locked, p, f);
        UnremovableChild(t, locked, p, f);
      }
    }

    /** `Files.isSymbolicLink(f.toPath())`. */
    function IsSymbolicLink(f: Path): (b: bool)
      reads this
      ensures b <==> f in nodes && nodes[f].Symlink?
    {
      f in nodes && nodes[f].Symlink?
    }
  }
}
