/**
 * The preview shown when a save's button is clicked (Main.java lines
 * 304-318): the save's name becomes the title, the status is cleared, and the
 * image `<save folder>\<base>.WebP` is read, where the base name is the save's
 * name with `replaceAll("^.*?__", "")` applied.
 */
module Preview {
  import opened Wrappers

  /** The characters `.` does not match in a pattern compiled without DOTALL. */
  predicate LineTerminator(c: char) {
    c == '\n' || c == '\r' || c == '\U{85}' || c == '\U{2028}' || c == '\U{2029}'
  }

  /** `name` has the separator `__` at position `i`. */
  predicate SeparatorAt(name: string, i: int) {
    0 <= i && i + 1 < |name| && name[i] == '_' && name[i + 1] == '_'
  }

  /**
   * Searching from `i`, the first separator is at `k`, and no character
   * between `i` and `k` ends a line.
   */
  ghost predicate FirstSeparatorFrom(name: string, i: int, k: int) {
    && 0 <= i <= k
    && SeparatorAt(name, k)
    && forall j | i <= j < k :: !SeparatorAt(name, j) && !LineTerminator(name[j])
  }

  /**
   * Where the lazy match of `.*?__` begun at `i` ends: `.*?` first tries to
   * match nothing, and takes one more character (any but a line terminator)
   * each time `__` does not follow.
   */
  function MatchEnd(name: string, i: nat): (r: Option<nat>)
    requires i <= |name|
    decreases |name| - i
    ensures r.Some? ==> i + 2 <= r.value <= |name| && FirstSeparatorFrom(name, i, r.value - 2)
    ensures r.None? ==> forall k :: !FirstSeparatorFrom(name, i, k)
  {
    if SeparatorAt(name, i) then Some(i + 2)
    else if i < |name| && !LineTerminator(name[i]) then
      assert forall k | FirstSeparatorFrom(name, i, k) :: FirstSeparatorFrom(name, i + 1, k);
      MatchEnd(name, i + 1)
    else None
  }

  /**
   * `name.replaceAll("^.*?__", "")`. The pattern is anchored at the start of
   * the input, so at most one match is replaced: everything up to and
   * including the first `__`. A name without a match is left unchanged.
   */
  function BaseName(name: string): (r: string)
    ensures forall k | FirstSeparatorFrom(name, 0, k) :: r == name[k + 2..]
    ensures (forall k :: !FirstSeparatorFrom(name, 0, k)) ==> r == name
  {
    match MatchEnd(name, 0)
    case None => name
    case Some(e) =>
      assert forall k | FirstSeparatorFrom(name, 0, k) :: k == e - 2;
      name[e..]
  }

  /** A name without `__` is its own base name. */
  lemma BaseNameWithoutSeparator(name: string)
    requires forall i :: !SeparatorAt(name, i)
    ensures BaseName(name) == name
  {
  }

  /**
   * The base name is empty exactly when the name is empty or its first `__`
   * closes it (and no line ends before it).
   */
  lemma BaseNameEmpty(name: string)
    ensures BaseName(name) == "" <==> name == "" || FirstSeparatorFrom(name, 0, |name| - 2)
  {
  }

  /**
   * A save named `<stamp>__<base>`, with a stamp that holds no `__`, no line
   * terminator and does not end in `_`, has base name `base`, whatever the
   * base holds (further `__` included).
   */
  lemma StampedBaseName(stamp: string, base: string)
    requires forall i :: !SeparatorAt(stamp, i)
    requires forall j | 0 <= j < |stamp| :: !LineTerminator(stamp[j])
    requires stamp == [] || stamp[|stamp| - 1] != '_'
    ensures BaseName(stamp + "__" + base) == base
  {
    var name := stamp + "__" + base;
    forall j | 0 <= j < |stamp| ensures !SeparatorAt(name, j) {
      if j + 1 < |stamp| {
        assert !SeparatorAt(stamp, j);
      }
    }
    assert FirstSeparatorFrom(name, 0, |stamp|);
    assert name[|stamp| + 2..] == base;
  }

  /** The name of the usual form `<date>_<time>__<run>`. */
  lemma StampedExample()
    ensures BaseName("20240101_1200__MyRun1") == "MyRun1"
  {
    var stamp := "20240101_1200";
    assert forall j | 0 <= j < |stamp| && j != 8 :: stamp[j] != '_';
    StampedBaseName(stamp, "MyRun1");
    assert stamp + "__" + "MyRun1" == "20240101_1200__MyRun1";
  }

  /** The first `__` decides, not the last. */
  lemma FirstSeparatorExample()
    ensures BaseName("a__b__c") == "b__c"
  {
  }

  /** A name whose first `__` closes it has an empty base name. */
  lemma EmptyBaseExample()
    ensures BaseName("Quick__") == ""
  {
  }

  /** `save.getAbsolutePath() + "\\" + folderName + ".WebP"`. */
  function ImagePath(absolutePath: string, base: string): (r: string)
    ensures |r| == |absolutePath| + |base| + 6
    ensures r[..|absolutePath|] == absolutePath
    ensures r[|r| - 5..] == ".WebP"
    ensures r[|absolutePath|..|r| - 5] == "\\" + base
  {
    absolutePath + "\\" + base + ".WebP"
  }

  /** Two base names in the same save folder never share an image file. */
  lemma ImagePathInjective(absolutePath: string, a: string, b: string)
    requires ImagePath(absolutePath, a) == ImagePath(absolutePath, b)
    ensures a == b
  {
    assert ("\\" + a)[1..] == a && ("\\" + b)[1..] == b;
  }

  /** An image as the decoder delivers it. */
  datatype Image = Image(pixels: seq<bv8>)

  /** The controls the click handler writes: the title label, the status label and the image view. */
  datatype Pane = Pane(title: string, status: string, image: Option<Image>)

  /** The panel after a click, and the file whose decoding was attempted, if any. */
  datatype Click = Click(pane: Pane, read: Option<string>)

  const ImageMissing := "Image does not exist."
  const InvalidName := "Invalid folder name for image preview."

  /**
   * The click handler of the button of the save `name` whose folder is at
   * `absolutePath`. `images` stands for the decoder: a path it holds decodes
   * to that image, any other path throws an IOException.
   */
  function SelectSave(pane: Pane, name: string, absolutePath: string, images: map<string, Image>): (r: Click)
    ensures r.pane.title == name
    ensures r.read.Some? <==> BaseName(name) != ""
    ensures r.read.Some? ==> r.read.value == ImagePath(absolutePath, BaseName(name))
    ensures r.read.None? ==> r.pane.status == InvalidName && r.pane.image == pane.image
    ensures r.read.Some? && r.read.value in images ==> r.pane.status == "" && r.pane.image == Some(images[r.read.value])
    ensures r.read.Some? && r.read.value !in images ==> r.pane.status == ImageMissing && r.pane.image == pane.image
  {
    var base := BaseName(name);
    if base != "" then
      var path := ImagePath(absolutePath, base);
      if path in images then Click(Pane(name, "", Some(images[path])), Some(path))
      else Click(Pane(name, ImageMissing, pane.image), Some(path))
    else Click(Pane(name, InvalidName, pane.image), None)
  }

  /**
   * Clicking a save named `<stamp>__<base>` with a non-empty base reads
   * `<save folder>\<base>.WebP`; with an empty base it reads nothing and
   * reports the name as invalid.
   */
  lemma SelectStampedSave(pane: Pane, stamp: string, base: string, absolutePath: string, images: map<string, Image>)
    requires forall i :: !SeparatorAt(stamp, i)
    requires forall j | 0 <= j < |stamp| :: !LineTerminator(stamp[j])
    requires stamp == [] || stamp[|stamp| - 1] != '_'
    ensures var r := SelectSave(pane, stamp + "__" + base, absolutePath, images);
      if base == "" then r.read == None && r.pane.status == InvalidName
      else r.read == Some(absolutePath + "\\" + base + ".WebP")
  {
    StampedBaseName(stamp, base);
  }

  /**
   * Clicking a save whose non-empty name has no `__` reads the image named
   * after the whole name; the status is never the invalid-name message.
   */
  lemma SelectPlainSave(pane: Pane, name: string, absolutePath: string, images: map<string, Image>)
    requires name != [] && forall i :: !SeparatorAt(name, i)
    ensures var r := SelectSave(pane, name, absolutePath, images);
      r.read == Some(absolutePath + "\\" + name + ".WebP") && r.pane.status != InvalidName
  {
  }
}
