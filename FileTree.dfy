/**
 * The filesystem the save manager works on, as a map from path to node.
 * A well-formed tree has the root as a directory and every other entry
 * inside a directory, so regular files and symbolic links have nothing below
 * them; what a link points at is an ordinary path elsewhere in the tree.
 */
module FileTree {
  import opened Paths

  datatype Node = Dir | File(content: seq<bv8>) | Symlink(target: Path)

  type Tree = map<Path, Node>

  ghost predicate WellFormed(t: Tree) {
    && [] in t && t[[]] == Dir
    && forall p | p in t && p != [] :: Parent(p) in t && t[Parent(p)] == Dir
  }

  ghost predicate IsDir(t: Tree, p: Path) {
    p in t && t[p] == Dir
  }

  predicate IsChild(p: Path, q: Path) {
    |q| == |p| + 1 && p <= q
  }

  /**
   * `File.listFiles()` on a directory: the entries one level below `p`. A
   * regular file or a symbolic link of a well-formed tree has none.
   */
  function Children(t: Tree, p: Path): (r: set<Path>)
    ensures WellFormed(t) && p in t && t[p] != Dir ==> r == {}
  {
    var r := set q | q in t && IsChild(p, q);
    assert forall q | q in r :: Parent(q) == p;
    r
  }

  predicate HasChild(t: Tree, p: Path) {
    exists q | q in t :: IsChild(p, q)
  }

  /** A directory that `Files.copy` and `Files.delete` refuse to remove. */
  predicate NonEmptyDir(t: Tree, p: Path) {
    p in t && t[p] == Dir && HasChild(t, p)
  }

  /** Every entry of the tree at or below `p`. */
  ghost function Subtree(t: Tree, p: Path): set<Path> {
    set q | q in t && p <= q
  }

  /** Every proper ancestor of an entry of a well-formed tree is a directory of the tree. */
  lemma {:induction false} AncestorIsDir(t: Tree, p: Path, q: Path)
    requires WellFormed(t) && q in t && p < q
    ensures IsDir(t, p)
    decreases |q|
  {
    var r := Parent(q);
    if r != p {
      assert p < r;
      AncestorIsDir(t, p, r);
    }
  }

  /** Nothing lies below a regular file or a symbolic link of a well-formed tree. */
  lemma LeafSubtree(t: Tree, p: Path)
    requires WellFormed(t) && p in t && t[p] != Dir
    ensures Subtree(t, p) == {p}
  {
    forall q | q in Subtree(t, p) ensures q == p {
      if q != p {
        AncestorIsDir(t, p, q);
      }
    }
  }
}
