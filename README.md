# BG3 save manager: the save-folder engine, in Dafny

BG3SaveManager backs up and restores Baldur's Gate 3 save folders. It
mirrors save folders between the game's save directory and an archive
directory, deletes archived saves, lists the saves, and shows a preview
image for the save the user picks. This project models that engine in
`Main.java`:

- `copyDirectory` copies a walked tree item by item. Directories are
  created on demand and files are replaced. A failure on one item is caught
  and the walk goes on.
- `deleteDir` deletes a tree in post-order and never enters a symbolic link.
- The listing rule of `loadSaves` keeps the directories and sorts them by
  modification time.
- The preview logic of the save button finds the base name of a save and
  the image file named after it.

The filesystem is a map from paths (sequences of name segments) to nodes:
a directory, a file with its bytes, or a symbolic link
(`FileTree.dfy`). A set `locked` holds the paths that cannot be listed, read, created,
replaced or deleted, as a save the game holds open or a path without
permission would; whether such a path exists and what kind of entry it is
can still be seen. So a locked walk root stops `copyDirectory` before the
first item, and `deleteDir` gets no listing for a locked directory.
The library calls the engine makes (`Files.createDirectories`,
`Files.copy` with `REPLACE_EXISTING`, `Files.delete`) are functions over the
tree (`CopySpec.dfy`). `copyDirectory` and `deleteDir` are methods of the
`FileSystem` class (`FileSystem.dfy`), which changes its tree in place. Each
method is proved equal to a function over the old tree, or its outcome is
characterised by a predicate over the old tree (`DeleteSpec.dfy`). The
listing (`SaveListing.dfy`) and the preview (`Preview.dfy`) are pure
functions.

Some behaviour of the code that is easy to miss, and that the model keeps:

- The base name strips everything up to and including the *first* `__`,
  not the last. A name without `__` keeps its whole name as base name and
  gets an image lookup. It does not get the invalid-name message.
- An empty folder name copies the *contents* of the source root straight
  into the destination. The copy is not a unit named after the source
  root, because `dest + "\\" + ""` names `dest` itself.
- Copying a second time over an unchanged tree leaves the tree as it is
  (`CopySpec.CopyWalkRerun`). But the second run reports every directory
  whose copy has entries, because `Files.copy` cannot replace a non-empty
  directory. So the second run does not come back with an empty list of
  failures.
- A symbolic link inside a folder being deleted is skipped, not unlinked.
  This is the subject of the finding below.
- The code reports caught item failures only through a status message. The
  model returns the list of those items, so that the contract can say
  which items were not copied.

## Model

| member | source | states |
|---|---|---|
| Paths.Join | src/main/java/com/freyja/bg3savemanager/Main.java:83-90 | `dest\folderName` extends the base by at most one segment, and it is the base itself exactly when the folder name is empty |
| Paths.Rebase | src/main/java/com/freyja/bg3savemanager/Main.java:99-102 | the destination lies under `dir`, at the item's own path relative to the walk root |
| Paths.Origin | src/main/java/com/freyja/bg3savemanager/Main.java:99-102 | every path below `dir` is the rebased place of a path below the walk root |
| Paths.OriginRebase | src/main/java/com/freyja/bg3savemanager/Main.java:99-102 | taking an item's rebased place back to the walk root gives the item again |
| Paths.RebasePrefix | src/main/java/com/freyja/bg3savemanager/Main.java:99-102 | rebasing keeps and reflects the ancestor relation between two items |
| CopySpec.MkDirs | src/main/java/com/freyja/bg3savemanager/Main.java:87 | `createDirectories` keeps every existing entry and adds only unlocked directories on the path; it succeeds exactly when every prefix is a directory or can be made, and then every prefix is a directory |
| CopySpec.ReplaceCopy | src/main/java/com/freyja/bg3savemanager/Main.java:108 | on success the destination holds the source's node and nothing else changes; a missing or locked source, a locked destination or a non-empty destination directory fails and changes nothing; it succeeds when the source exists and the destination's parent is a directory |
| CopySpec.CopyItem | src/main/java/com/freyja/bg3savemanager/Main.java:105-108 | after the parent directories are made, a successful copy places the source's content at the destination, with all of the destination's ancestors directories; only the destination and its missing ancestors are written, and a failed item changes no existing entry; a locked source or destination, or a directory with entries in the way, fails |
| CopySpec.CopyItemSucceeds | src/main/java/com/freyja/bg3savemanager/Main.java:105-108 | the copy of one item succeeds whenever the source is readable, the destination is neither locked nor a directory with entries, and every ancestor of the destination is a directory or can be made, so an existing different file is replaced |
| CopySpec.WalkStep | src/main/java/com/freyja/bg3savemanager/Main.java:96-112 | one walked item: the walk root is skipped and changes nothing; any other item is either appended to the failures or lands at its rebased place with the source's content; a locked item is always appended; nothing outside the destination tree changes |
| CopySpec.CopyWalk | src/main/java/com/freyja/bg3savemanager/Main.java:93-114 | the fold over the walk never changes anything outside the destination tree, and reports only walked items other than the root |
| CopySpec.CopyDirectoryResult | src/main/java/com/freyja/bg3savemanager/Main.java:81-115 | the operation fails with DestinationNotCreated exactly when `dest` is missing and cannot be made; it fails with SourceNotWalkable only when the walk root `target\folderName` is missing or is a locked directory, and always does when that root is a locked directory, or missing and not on the way to `dest`; when it completes, `dest` exists and only walked non-root items are reported; every new entry lies on the way to `dest\folderName` or below it, and nothing outside `dest\folderName` changes |
| CopySpec.CopyWalkLands | src/main/java/com/freyja/bg3savemanager/Main.java:93-114 | every walked item other than the root is either reported as failed or sits at its rebased place with exactly the source's content; a locked item is always reported |
| CopySpec.CopyDirectoryLands | src/main/java/com/freyja/bg3savemanager/Main.java:81-115 | when the whole operation completes, every walked item other than the walk root is reported or sits at its place below `dest\folderName` as the source held it, and a locked item is always reported |
| CopySpec.MkDirsExisting | src/main/java/com/freyja/bg3savemanager/Main.java:105 | `createDirectories` on an existing directory succeeds and changes nothing |
| CopySpec.CopyItemOntoCopy | src/main/java/com/freyja/bg3savemanager/Main.java:105-108 | copying onto an identical copy changes nothing, and it fails exactly when the copy is a directory with entries |
| CopySpec.CopyWalkRerun | src/main/java/com/freyja/bg3savemanager/Main.java:93-114 | a run over a destination that already mirrors the source leaves the tree unchanged, and it reports exactly the items whose copy is a non-empty directory |
| CopySpec.RerunStep | src/main/java/com/freyja/bg3savemanager/Main.java:96-112 | one item of such a rerun keeps the tree and is reported exactly when its copy is a directory with entries |
| CopySpec.FreshItem | src/main/java/com/freyja/bg3savemanager/Main.java:105-108 | during a first copy with nothing locked, each item's destination is still free and the copy of the item succeeds |
| CopySpec.FreshStep | src/main/java/com/freyja/bg3savemanager/Main.java:96-112 | one walked item of a first copy keeps the copy's invariant: no failure so far, nothing outside the destination tree changed, every entry below it a copy of its source, and no later item's place taken |
| CopySpec.FreshStepOutside | src/main/java/com/freyja/bg3savemanager/Main.java:105 | the directories an item's copy creates outside the destination tree were already in the tree |
| CopySpec.FreshStepBelow | src/main/java/com/freyja/bg3savemanager/Main.java:105-108 | after an item's copy, every entry below the destination tree is a copy of the source entry it was rebased from |
| CopySpec.FreshStepAhead | src/main/java/com/freyja/bg3savemanager/Main.java:96-112 | an item's copy creates nothing at or below the place of any later item |
| CopySpec.FreshPrefix | src/main/java/com/freyja/bg3savemanager/Main.java:93-114 | every prefix of the walk of a first copy leaves the tree in that invariant |
| CopySpec.FreshWalkCopies | src/main/java/com/freyja/bg3savemanager/Main.java:93-114 | a first copy into a destination with nothing below it, with nothing locked and a walk that lists each directory before its entries, reports no failure; every item lands with its content, and everything below the destination is a copy of a source entry |
| CopySpec.FreshCopyDirectory | src/main/java/com/freyja/bg3savemanager/Main.java:81-115 | the same for the whole operation into an existing destination folder: it completes with an empty failure list and the copy mirrors the source |
| CopySpec.ParentPlaceCreatable | src/main/java/com/freyja/bg3savemanager/Main.java:105 | when an item's parent place is a directory, or is the destination folder whose parent is one, `createDirectories` can pass through every ancestor of the item's place |
| CopySpec.OverwriteParent | src/main/java/com/freyja/bg3savemanager/Main.java:93-105 | in a copy whose walk reaches every item through its parent, the parent place of the next item is already a directory, unless it is the destination folder |
| CopySpec.OverwriteItem | src/main/java/com/freyja/bg3savemanager/Main.java:105-108 | in a copy over an existing destination with nothing locked, an item's copy fails exactly when its place held a directory with entries before the copy |
| CopySpec.OverwriteStep | src/main/java/com/freyja/bg3savemanager/Main.java:96-112 | one walked item keeps the invariant of such a copy: the items reported so far are those whose place held a directory with entries, the places of copied directories hold directories, and nothing at or below a later item's place has changed |
| CopySpec.OverwriteStepDirs | src/main/java/com/freyja/bg3savemanager/Main.java:105-108 | after an item's copy the place of every directory copied so far holds a directory |
| CopySpec.OverwriteStepAhead | src/main/java/com/freyja/bg3savemanager/Main.java:96-112 | an item's copy changes nothing at or below the place of a later item |
| CopySpec.OverwritePrefix | src/main/java/com/freyja/bg3savemanager/Main.java:93-114 | every prefix of the walk of such a copy leaves the tree in that invariant |
| CopySpec.CopyWalkOverwrite | src/main/java/com/freyja/bg3savemanager/Main.java:93-114 | copying over a destination that may hold anything, with nothing locked, reports exactly the items whose place held a directory with entries; every other item lands with its content, whatever its place held |
| CopySpec.OverwriteCopyDirectory | src/main/java/com/freyja/bg3savemanager/Main.java:81-115 | the same for the whole operation into an existing destination folder: it completes, reporting exactly those items, and every other item lands with its content |
| FileSystem.FileSystem.CreateDirectories | src/main/java/com/freyja/bg3savemanager/Main.java:87 | the new tree and success flag are those of `MkDirs` on the old tree |
| FileSystem.FileSystem.Copy | src/main/java/com/freyja/bg3savemanager/Main.java:108 | the new tree and success flag are those of `ReplaceCopy` on the old tree |
| FileSystem.FileSystem.Delete | src/main/java/com/freyja/bg3savemanager/Main.java:143 | `Files.delete` succeeds exactly on an existing, unlocked, non-root path with no entries below it, and removes only that path |
| FileSystem.FileSystem.CopyDirectory | src/main/java/com/freyja/bg3savemanager/Main.java:81-115 | the new tree and outcome are `CopyDirectoryResult` of the old tree |
| FileSystem.FileSystem.CopyWalked | src/main/java/com/freyja/bg3savemanager/Main.java:93-114 | the loop over the walk leaves the tree and failure list that `CopyWalk` gives for the old tree |
| FileSystem.FileSystem.CopyWalkedItem | src/main/java/com/freyja/bg3savemanager/Main.java:96-112 | one pass of the loop does what `WalkStep` gives |
| FileSystem.FileSystem.DeleteDir | src/main/java/com/freyja/bg3savemanager/Main.java:126-144 | deleteDir succeeds exactly when the target exists, is not the root, and has no locked path and no symbolic link below it; then its whole subtree is gone; a locked target is not listed and nothing changes; in every case nothing outside the subtree, no link strictly below the target and no locked path is deleted |
| FileSystem.FileSystem.DeleteEntries | src/main/java/com/freyja/bg3savemanager/Main.java:130-141 | the loop, entered only for a directory that can be listed (a non-null `listFiles`), deletes exactly the subtrees of the children that are not links, each of which could be deleted; when it stops early, the directory could not have been deleted, and the subtrees of the children finished before stay deleted (no rollback) |
| FileSystem.FileSystem.DeleteEntry | src/main/java/com/freyja/bg3savemanager/Main.java:136-139 | the recursive call on one child either removes that child's subtree or shows that the parent cannot be deleted |
| FileSystem.FileSystem.DeleteTree | src/main/java/com/freyja/bg3savemanager/Main.java:126-144 | the corrected delete succeeds exactly when the target exists, is not the root and nothing at or below it is locked; then its whole subtree is gone; a locked target is not listed and nothing changes; nothing outside the subtree and no locked path is ever deleted, so a link target elsewhere is never touched |
| FileSystem.FileSystem.DeleteTreeEntries | src/main/java/com/freyja/bg3savemanager/Main.java:130-141 | the corrected loop deletes the subtrees of all children, or stops when the directory could not have been deleted, leaving the children finished before deleted |
| FileSystem.FileSystem.DeleteTreeEntry | src/main/java/com/freyja/bg3savemanager/Main.java:136-139 | one child of the corrected loop: a link is deleted, never followed; anything else is deleted recursively |
| DeleteSpec.DeletableByChildren | src/main/java/com/freyja/bg3savemanager/Main.java:130-143 | a directory can be deleted exactly when it is not locked and every child is no link and can be deleted |
| DeleteSpec.UndeletableChild | src/main/java/com/freyja/bg3savemanager/Main.java:138 | a child that is no link and cannot be deleted makes its parent undeletable |
| DeleteSpec.DeletableLeaf | src/main/java/com/freyja/bg3savemanager/Main.java:128-143 | a file or link, whose listing is null, can be deleted exactly when it is not locked |
| DeleteSpec.DeletableUntouched | src/main/java/com/freyja/bg3savemanager/Main.java:132-140 | deleting some children does not change whether another child can be deleted |
| DeleteSpec.RemovedStep | src/main/java/com/freyja/bg3savemanager/Main.java:138 | deleting one more child's subtree extends the set of deleted entries by exactly that subtree |
| DeleteSpec.RemovedAll | src/main/java/com/freyja/bg3savemanager/Main.java:143 | once every child's subtree is gone, deleting the directory leaves the tree without the whole subtree |
| DeleteSpec.DeleteDirCallShrinks | src/main/java/com/freyja/bg3savemanager/Main.java:138 | the recursive call works on a strictly smaller subtree, so deleteDir terminates |
| DeleteSpec.LinkChildrenRemain | src/main/java/com/freyja/bg3savemanager/Main.java:136-143 | after the loop the directory still has entries exactly when one of its children was a link |
| DeleteSpec.DeletedWithinChild | src/main/java/com/freyja/bg3savemanager/Main.java:138 | a deletion below a child that is no link deletes nothing outside the parent, no link and no locked path |
| DeleteSpec.RemovedWithin | src/main/java/com/freyja/bg3savemanager/Main.java:132-140 | the children deleted so far took no link and no locked path with them |
| DeleteSpec.LinkBlocksDeleteDir | src/main/java/com/freyja/bg3savemanager/Main.java:136-143 | a folder holding one link, with nothing locked, cannot be deleted by deleteDir, yet the corrected delete removes it |
| DeleteSpec.RemovableByChildren | src/main/java/com/freyja/bg3savemanager/Main.java:130-143 | for the corrected delete: a directory can be removed exactly when it is not locked and every child can be removed |
| DeleteSpec.UnremovableChild | src/main/java/com/freyja/bg3savemanager/Main.java:138 | a child that cannot be removed makes its parent unremovable |
| DeleteSpec.RemovableLeaf | src/main/java/com/freyja/bg3savemanager/Main.java:128-143 | a file or link can be removed exactly when it is not locked |
| DeleteSpec.NoChildLeft | src/main/java/com/freyja/bg3savemanager/Main.java:143 | once every child is removed, the directory has no entries left |
| DeleteSpec.DeletedBelowChild | src/main/java/com/freyja/bg3savemanager/Main.java:138 | a deletion below a child deletes nothing outside the parent and no locked path |
| DeleteSpec.RemovedBelow | src/main/java/com/freyja/bg3savemanager/Main.java:132-140 | the children removed so far took no locked path with them |
| SaveListing.Directories | src/main/java/com/freyja/bg3savemanager/Main.java:286-288 | the filter keeps only directories, each as often as it is listed |
| SaveListing.DirectoriesWithTime | src/main/java/com/freyja/bg3savemanager/Main.java:286-288 | the filter keeps listing order: the directories of each modification time are the listing's entries of that time that are directories, in the same order |
| SaveListing.Insert | src/main/java/com/freyja/bg3savemanager/Main.java:290 | inserting into a sorted listing keeps it sorted and adds exactly the one entry |
| SaveListing.SortByTime | src/main/java/com/freyja/bg3savemanager/Main.java:290 | the sort returns a permutation of its input, ascending by modification time |
| SaveListing.InsertStable | src/main/java/com/freyja/bg3savemanager/Main.java:290 | the inserted entry comes after the entries of its own time, and entries of other times keep their order |
| SaveListing.SortByTimeStable | src/main/java/com/freyja/bg3savemanager/Main.java:290 | the sort is stable: entries with equal modification times keep their listing order |
| SaveListing.LoadSavesOrder | src/main/java/com/freyja/bg3savemanager/Main.java:286-290 | the listing holds exactly the directories, each as often as listed, ascending by modification time, and the directories of equal time in the order `listFiles` gave them |
| SaveListing.SortedUnique | src/main/java/com/freyja/bg3savemanager/Main.java:290 | sorted order with ties kept in order determines the listing: any two such sequences are equal |
| Preview.MatchEnd | src/main/java/com/freyja/bg3savemanager/Main.java:308 | the lazy match of `.*?__` ends right after the first `__`, provided no line terminator comes before it; otherwise there is no match |
| Preview.BaseName | src/main/java/com/freyja/bg3savemanager/Main.java:308 | the base name is what follows the first `__`; a name without a match is unchanged |
| Preview.BaseNameWithoutSeparator | src/main/java/com/freyja/bg3savemanager/Main.java:308 | a name without `__` is its own base name |
| Preview.BaseNameEmpty | src/main/java/com/freyja/bg3savemanager/Main.java:308-309 | the base name is empty exactly when the name is empty or its first `__` ends it |
| Preview.StampedBaseName | src/main/java/com/freyja/bg3savemanager/Main.java:308 | the base name of `<stamp>__<base>` is `base`, whatever `base` holds |
| Preview.StampedExample | src/main/java/com/freyja/bg3savemanager/Main.java:308 | `20240101_1200__MyRun1` has base name `MyRun1` |
| Preview.FirstSeparatorExample | src/main/java/com/freyja/bg3savemanager/Main.java:308 | `a__b__c` has base name `b__c`: the first `__` decides |
| Preview.EmptyBaseExample | src/main/java/com/freyja/bg3savemanager/Main.java:308-309 | `Quick__` has an empty base name |
| Preview.ImagePathInjective | src/main/java/com/freyja/bg3savemanager/Main.java:310 | two base names in the same save folder never name the same image file |
| Preview.SelectSave | src/main/java/com/freyja/bg3savemanager/Main.java:304-318 | the title becomes the name; a read is attempted exactly when the base name is non-empty, at the image path; an empty base gives the invalid-name status; a failed read gives "Image does not exist." and keeps the old image; a successful read clears the status and shows the image |
| Preview.SelectStampedSave | src/main/java/com/freyja/bg3savemanager/Main.java:308-317 | clicking `<stamp>__<base>` reads `<save folder>\<base>.WebP`, or reports the name invalid when `base` is empty |
| Preview.SelectPlainSave | src/main/java/com/freyja/bg3savemanager/Main.java:308-312 | clicking a non-empty name without `__` reads the image named after the whole name and never reports the name invalid |

## Findings

| source | as written | input that shows it | evidently intended | confidence | as-written member | corrected member |
|---|---|---|---|---|---|---|
| src/main/java/com/freyja/bg3savemanager/Main.java:136-143 | a symbolic link among a directory's entries is skipped, so the directory is never empty and `Files.delete` on it throws | a save folder `save` holding one link `save/link` to `other`, with nothing locked | delete the link itself without following it, so that the folder and the link go and the link's target stays (the comment at lines 133-135 asks only not to follow links) | high for the failure, medium for the intent; not executed | DeleteSpec.LinkBlocksDeleteDir | FileSystem.FileSystem.DeleteTree |

## Left out

- JavaFX presentation is not modelled: buttons, the scroll pane, styling, the label texts of the buttons, `initialize` and `start`.
- The worker threads and the `Platform.runLater` status messages around the copy and delete operations are not modelled. The per-item message of the copy's catch block is replaced by the returned list of failed items.
- `convertWebPToImage` is a foreign image decoder. It is a parameter of `Preview.SelectSave`: a map from the paths that decode to their images. An undecodable file, where `ImageIO.read` returns null, is not modelled.
- The two folder roots taken from `LOCALAPPDATA` and `user.dir` are parameters.
- Windows path strings are segment sequences. `Paths.get` normalisation, drive letters and case-insensitive names are not modelled.
- CopySpec.CopyWalk: `Files.walk` is a parameter `walk`, any sequence of paths under the walk root. The lemmas that need it assume the walk is in the tree and never repeats a path; the first-copy and overwrite lemmas also assume it lists each directory before its entries, and the overwrite lemmas that it reaches each item through its parent, as the depth-first `Files.walk` does. Its laziness and an `UncheckedIOException` thrown while it iterates are not modelled.
- CopySpec.CopyDirectoryResult: a locked directory below the walk root makes the real `Files.walk` throw an `UncheckedIOException` when the walk reaches it, which ends copyDirectory. The model's walk is a given sequence and goes on; the locked directory itself is reported, as a locked source.
- CopySpec.ReplaceCopy: copying onto a link, or from a link, does not follow it. A link among the ancestors of a destination counts as a non-directory. A copy that fails part-way leaves the destination as it was.
- FileSystem.FileSystem.DeleteDir: a target that is itself a symbolic link is deleted as a leaf. The real `listFiles` would list the link target's contents.
- FileSystem.FileSystem.DeleteDir: entries are taken in an arbitrary order, since `listFiles` guarantees none. Whether the delete succeeds, and the tree after a success, do not depend on that order. The tree a failed delete leaves does: children taken before the first undeletable child are gone, the others stay. So the contract bounds that tree (`DeletedWithin`) and does not fix it.
- SaveListing.LoadSaves: a save folder that is missing or not a directory makes `listFiles` return null, and then `Arrays.sort` throws a NullPointerException. The model takes the listing as given.
- Preview.BaseName: line terminators are modelled as the characters `.` does not match. Folder names on the target system cannot hold them.
