/**
 * What deleteDir can achieve on a tree. It deletes children before their
 * directory and never descends into a symbolic link, and it leaves a link
 * where it is. So it succeeds exactly when the target exists, nothing in its
 * subtree is locked, and no symbolic link lies below the target.
 */
module DeleteSpec {
  import opened Paths
  import opened FileTree

  ghost predicate Deletable(t: Tree, locked: set<Path>, p: Path) {
    p != [] && p in t && forall q | q in t && p <= q :: q !in locked && (q == p || !t[q].Symlink?)
  }

  /** The child of `p` through which the deeper path `q` passes. */
  function ChildToward(p: Path, q: Path): (c: Path)
    requires p < q
    ensures IsChild(p, c) && c <= q
  {
    q[..|p| + 1]
  }

  /** The entries below `p` that lie under one of the children in `done`. */
  ghost function Removed(t: Tree, p: Path, done: set<Path>): set<Path> {
    set q | q in t && p < q && ChildToward(p, q) in done
  }

  /**
   * A directory can be deleted exactly when it is not locked and each of its
   * children is no symbolic link and can be deleted itself.
   */
  lemma DeletableByChildren(t: Tree, locked: set<Path>, p: Path)
    requires WellFormed(t) && IsDir(t, p) && p != []
    ensures Deletable(t, locked, p) <==>
      p !in locked && forall c | c in Children(t, p) :: !t[c].Symlink? && Deletable(t, locked, c)
  {
    if p !in locked && forall c | c in Children(t, p) :: !t[c].Symlink? && Deletable(t, locked, c) {
      forall q | q in t && p <= q ensures q !in locked && (q == p || !t[q].Symlink?) {
        if q != p {
          var c := ChildToward(p, q);
          if c != q {
            AncestorIsDir(t, c, q);
          }
          assert c in Children(t, p);
        }
      }
    }
    if Deletable(t, locked, p) {
      forall c | c in Children(t, p) ensures !t[c].Symlink? && Deletable(t, locked, c) {
        assert p <= c;
      }
    }
  }

  /** A child that is no link and cannot be deleted keeps its parent from being deleted. */
  lemma UndeletableChild(t: Tree, locked: set<Path>, p: Path, c: Path)
    requires IsChild(p, c) && c in t && !t[c].Symlink? && !Deletable(t, locked, c)
    ensures !Deletable(t, locked, p)
  {
  }

  /** A file or a link can be deleted exactly when it is not locked. */
  lemma DeletableLeaf(t: Tree, locked: set<Path>, p: Path)
    requires WellFormed(t) && p in t && t[p] != Dir && p != []
    ensures Deletable(t, locked, p) <==> p !in locked
  {
    LeafSubtree(t, p);
    assert forall q | q in t && p <= q :: q == p by {
      forall q | q in t && p <= q ensures q == p {
        assert q in Subtree(t, p);
      }
    }
  }

  /** Whether `p` can be deleted depends only on the entries at or below `p`. */
  lemma DeletableLocal(t: Tree, u: Tree, locked: set<Path>, p: Path)
    requires forall q | p <= q :: (q in t <==> q in u)
    requires forall q | q in t && p <= q :: t[q] == u[q]
    ensures Deletable(t, locked, p) <==> Deletable(u, locked, p)
  {
  }

  /** A child not yet deleted is as deletable in the partially deleted tree as it was at the start. */
  lemma DeletableUntouched(t: Tree, locked: set<Path>, p: Path, done: set<Path>, c: Path)
    requires IsChild(p, c) && c !in done
    ensures Deletable(t - Removed(t, p, done), locked, c) <==> Deletable(t, locked, c)
  {
    var u := t - Removed(t, p, done);
    forall q | c <= q
      ensures q in t <==> q in u
    {
      assert ChildToward(p, q) == c;
    }
    DeletableLocal(t, u, locked, c);
  }

  /** Removing one more child's subtree from the partially deleted tree. */
  lemma RemovedStep(t: Tree, p: Path, done: set<Path>, c: Path)
    requires IsChild(p, c)
    ensures var u := t - Removed(t, p, done);
      u - Subtree(u, c) == t - Removed(t, p, done + {c})
  {
    var u := t - Removed(t, p, done);
    forall q | q in t && c <= q ensures q in Removed(t, p, done + {c}) {
      assert ChildToward(p, q) == c;
    }
    assert (u - Subtree(u, c)).Keys == (t - Removed(t, p, done + {c})).Keys;
  }

  /** Once every child that is no link is gone and no child is a link, the rest of the subtree is `p` alone. */
  lemma RemovedAll(t: Tree, p: Path, done: set<Path>)
    requires WellFormed(t) && p in t
    requires forall c | c in Children(t, p) :: c in done
    ensures t - Removed(t, p, done) - {p} == t - Subtree(t, p)
  {
    forall q | q in Subtree(t, p) ensures q in Removed(t, p, done) + {p} {
      if q != p {
        assert p < q;
        var c := ChildToward(p, q);
        if c != q {
          AncestorIsDir(t, c, q);
        }
        assert c in Children(t, p);
      }
    }
    assert Removed(t, p, done) + {p} == Subtree(t, p);
  }

  /** The recursive call on a child sees a strictly smaller subtree than its caller started with. */
  lemma DeleteDirCallShrinks(t: Tree, p: Path, done: set<Path>, c: Path)
    requires p in t && IsChild(p, c)
    ensures Subtree(t - Removed(t, p, done), c) < Subtree(t, p)
  {
    assert p in Subtree(t, p) && p !in Subtree(t - Removed(t, p, done), c);
  }

  /** `u` is `t` less some entries at or below `p`, none of them locked. */
  ghost predicate DeletedBelow(t: Tree, u: Tree, locked: set<Path>, p: Path) {
    && (forall q | q in u :: q in t && u[q] == t[q])
    && (forall q | q in t && !(p <= q) :: q in u)
    && (forall q | q in t && q in locked :: q in u)
  }

  /** Such a deletion that leaves every symbolic link strictly below `p` in place. */
  ghost predicate DeletedWithin(t: Tree, u: Tree, locked: set<Path>, p: Path) {
    && DeletedBelow(t, u, locked, p)
    && (forall q | q in t && p < q && t[q].Symlink? :: q in u)
  }

  /** A deletion below a child that is no link is a deletion below its parent. */
  lemma DeletedWithinChild(t: Tree, u: Tree, v: Tree, locked: set<Path>, p: Path, c: Path)
    requires DeletedWithin(t, u, locked, p) && DeletedWithin(u, v, locked, c)
    requires IsChild(p, c) && c in t && !t[c].Symlink?
    ensures DeletedWithin(t, v, locked, p)
  {
    forall q | q in t && p < q && t[q].Symlink? ensures q in v {
      assert q in u;
      if !(c <= q) {
      } else {
        assert q != c;
      }
    }
  }

  /** Deleting the children in `done` completely, all of them deletable and no link, is such a deletion. */
  lemma RemovedWithin(t: Tree, locked: set<Path>, p: Path, done: set<Path>)
    requires forall c | c in done :: c in t && !t[c].Symlink? && Deletable(t, locked, c)
    ensures DeletedWithin(t, t - Removed(t, p, done), locked, p)
  {
  }

  /** Deleting a whole deletable subtree is such a deletion. */
  lemma WholeWithin(t: Tree, locked: set<Path>, p: Path)
    requires Deletable(t, locked, p)
    ensures DeletedWithin(t, t - Subtree(t, p), locked, p)
  {
  }

  /** After its other children are gone, a directory still has an entry exactly when one of its children was a link. */
  lemma LinkChildrenRemain(t: Tree, p: Path, done: set<Path>)
    requires forall c | c in Children(t, p) :: c in done <==> !t[c].Symlink?
    ensures HasChild(t - Removed(t, p, done), p) <==> exists c | c in Children(t, p) :: t[c].Symlink?
  {
    var u := t - Removed(t, p, done);
    if HasChild(u, p) {
      var c :| c in u && IsChild(p, c);
      assert ChildToward(p, c) == c;
      assert c in Children(t, p);
    }
    if exists c | c in Children(t, p) :: t[c].Symlink? {
      var c :| c in Children(t, p) && t[c].Symlink?;
      assert ChildToward(p, c) == c;
      assert c in u;
    }
  }

  /*
   * The corrected delete, which unlinks a symbolic link where deleteDir
   * skips it, can delete the target exactly when it exists and nothing at or
   * below it is locked.
   */

  ghost predicate Removable(t: Tree, locked: set<Path>, p: Path) {
    p != [] && p in t && forall q | q in t && p <= q :: q !in locked
  }

  /** A directory can be removed exactly when it is not locked and each of its children can be removed. */
  lemma RemovableByChildren(t: Tree, locked: set<Path>, p: Path)
    requires WellFormed(t) && IsDir(t, p) && p != []
    ensures Removable(t, locked, p) <==>
      p !in locked && forall c | c in Children(t, p) :: Removable(t, locked, c)
  {
    if p !in locked && forall c | c in Children(t, p) :: Removable(t, locked, c) {
      forall q | q in t && p <= q ensures q !in locked {
        if q != p {
          var c := ChildToward(p, q);
          if c != q {
            AncestorIsDir(t, c, q);
          }
          assert c in Children(t, p);
        }
      }
    }
    if Removable(t, locked, p) {
      forall c | c in Children(t, p) ensures Removable(t, locked, c) {
        assert p <= c;
      }
    }
  }

  /** A child that cannot be removed keeps its parent from being removed. */
  lemma UnremovableChild(t: Tree, locked: set<Path>, p: Path, c: Path)
    requires IsChild(p, c) && c in t && !Removable(t, locked, c)
    ensures !Removable(t, locked, p)
  {
  }

  /** A file or a link can be removed exactly when it is not locked. */
  lemma RemovableLeaf(t: Tree, locked: set<Path>, p: Path)
    requires WellFormed(t) && p in t && t[p] != Dir && p != []
    ensures Removable(t, locked, p) <==> p !in locked
  {
    LeafSubtree(t, p);
    assert forall q | q in t && p <= q :: q in Subtree(t, p);
  }

  /** A child not yet removed is as removable in the partially deleted tree as it was at the start. */
  lemma RemovableUntouched(t: Tree, locked: set<Path>, p: Path, done: set<Path>, c: Path)
    requires IsChild(p, c) && c !in done
    ensures Removable(t - Removed(t, p, done), locked, c) <==> Removable(t, locked, c)
  {
    var u := t - Removed(t, p, done);
    forall q | c <= q
      ensures q in t <==> q in u
    {
      assert ChildToward(p, q) == c;
    }
  }

  /** A deletion below a child is a deletion below its parent. */
  lemma DeletedBelowChild(t: Tree, u: Tree, v: Tree, locked: set<Path>, p: Path, c: Path)
    requires DeletedBelow(t, u, locked, p) && DeletedBelow(u, v, locked, c)
    requires IsChild(p, c)
    ensures DeletedBelow(t, v, locked, p)
  {
  }

  /** Removing the children in `done` completely, all of them removable, is such a deletion. */
  lemma RemovedBelow(t: Tree, locked: set<Path>, p: Path, done: set<Path>)
    requires forall c | c in done :: c in t && Removable(t, locked, c)
    ensures DeletedBelow(t, t - Removed(t, p, done), locked, p)
  {
  }

  /** Removing a whole removable subtree is such a deletion. */
  lemma WholeBelow(t: Tree, locked: set<Path>, p: Path)
    requires Removable(t, locked, p)
    ensures DeletedBelow(t, t - Subtree(t, p), locked, p)
  {
  }

  /** Once every child has been removed, the directory is empty. */
  lemma NoChildLeft(t: Tree, p: Path, done: set<Path>)
    requires Children(t, p) <= done
    ensures !HasChild(t - Removed(t, p, done), p)
  {
    assert forall c | c in t && IsChild(p, c) :: ChildToward(p, c) == c;
  }

  /**
   * The input that shows the defect of deleteDir: a save folder holding a
   * symbolic link. Nothing is locked, so the corrected delete removes the
   * folder, while deleteDir leaves the link, finds the folder not empty and
   * fails.
   */
  lemma LinkBlocksDeleteDir()
    ensures var t := map[[] := Dir, ["save"] := Dir, ["save", "link"] := Symlink(["other"]), ["other"] := Dir];
      && WellFormed(t)
      && !Deletable(t, {}, ["save"])
      && Removable(t, {}, ["save"])
  {
    var t := map[[] := Dir, ["save"] := Dir, ["save", "link"] := Symlink(["other"]), ["other"] := Dir];
    assert ["save"] <= ["save", "link"];
    assert Parent(["save", "link"]) == ["save"];
    assert Parent(["save"]) == [] && Parent(["other"]) == [];
    assert |"save"| != |"other"|;
    assert ["save"][0] != ["other"][0];
    assert !(["save"] <= ["other"]) && !(["save"] <= []);
    assert ["save", "link"] in t && ["save", "link"] != ["save"] && t[["save", "link"]].Symlink?;
  }
}
