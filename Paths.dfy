/**
 * Paths as sequences of name segments (the empty sequence is the filesystem
 * root), and the path arithmetic that copyDirectory performs with
 * `Paths.get`, `relativize` and `resolve`.
 */
module Paths {
  type Name = string
  type Path = seq<Name>

  /** `p.getParent()` for a path below the root. */
  function Parent(p: Path): (r: Path)
    requires p != []
    ensures |r| == |p| - 1 && r < p
  {
    p[..|p| - 1]
  }

  /**
   * `Paths.get(base + "\\" + folderName)`. The separator an empty folder name
   * leaves at the end is dropped, so an empty name gives `base` itself.
   */
  function Join(base: Path, folderName: Name): (r: Path)
    ensures base <= r && |r| <= |base| + 1
    ensures r == base <==> folderName == ""
  {
    if folderName == "" then base else base + [folderName]
  }

  /** `dir.resolve(root.relativize(src))`: where the walked item `src` lands. */
  function Rebase(src: Path, root: Path, dir: Path): (r: Path)
    requires root <= src
    ensures dir <= r && r[|dir|..] == src[|root|..]
  {
    dir + src[|root|..]
  }

  /** Two prefixes of one path are prefixes of each other. */
  lemma PrefixesComparable(a: Path, b: Path, s: Path)
    requires a <= s && b <= s
    ensures a <= b || b <= a
  {
  }

  /** Distinct walked items land at distinct places. */
  lemma RebaseInjective(a: Path, b: Path, root: Path, dir: Path)
    requires root <= a && root <= b && a != b
    ensures Rebase(a, root, dir) != Rebase(b, root, dir)
  {
  }

  /** The walked item that lands at `q`: `Rebase` undone. */
  function Origin(q: Path, dir: Path, root: Path): (r: Path)
    requires dir <= q
    ensures root <= r && Rebase(r, root, dir) == q
  {
    root + q[|dir|..]
  }

  lemma OriginRebase(a: Path, root: Path, dir: Path)
    requires root <= a
    ensures Origin(Rebase(a, root, dir), dir, root) == a
  {
    assert (dir + a[|root|..])[|dir|..] == a[|root|..];
  }

  /** Rebasing keeps and reflects the prefix order of walked items. */
  lemma RebasePrefix(a: Path, b: Path, root: Path, dir: Path)
    requires root <= a && root <= b
    ensures Rebase(a, root, dir) <= Rebase(b, root, dir) <==> a <= b
  {
    var ra, rb := Rebase(a, root, dir), Rebase(b, root, dir);
    if a <= b {
      assert ra == rb[..|ra|];
    }
    if ra <= rb {
      assert a == root + ra[|dir|..] && b == root + rb[|dir|..];
      assert ra[|dir|..] == rb[|dir|..|ra|];
      assert a == b[..|a|];
    }
  }
}
