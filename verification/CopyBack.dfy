/**
 * The sandbox's copy-back: the program's new files, in the overlay's upper layer, laid over the host workdir.
 * A tree maps the path of each entry (its names, outermost first) to what it is; the tree's root is a folder.
 */
module CopyBack {
  import opened Outcomes
  import opened Sequences
  import opened Powers

  // a file name's bytes
  type Name = seq<nat>
  type Path = seq<Name>

  // Other is a symbolic link or a special file: a device, a FIFO, an overlay whiteout
  datatype Entry = Folder | File(data: seq<nat>) | Other

  type Tree = map<Path, Entry>

  const MAX_DEPTH: nat := 32
  const MAX_PATH: nat := 1024

  function Parent(path: Path): Path
    requires path != []
  {
    path[..|path| - 1]
  }

  /** Every entry lies in the root or in a folder of the tree. */
  ghost predicate WellFormed(tree: Tree) {
    forall p | p in tree :: p != [] && HasFolder(tree, Parent(p))
  }

  predicate HasFolder(tree: Tree, path: Path) {
    path == [] || (path in tree && tree[path].Folder?)
  }

  // the bytes of a relative path: its names and the separators between them
  function PathBytes(path: Path): nat {
    if path == [] then 0
    else PathBytes(Parent(path)) + (if |path| == 1 then 0 else 1) + |path[|path| - 1]|
  }

  // the path as it is written: its names with a slash between each two
  ghost function Spelled(path: Path): seq<nat> {
    if path == [] then [] else if |path| == 1 then path[0]
    else Spelled(Parent(path)) + ['/' as nat] + path[|path| - 1]
  }

  predicate Fits(path: Path) {
    |path| <= MAX_DEPTH && PathBytes(path) <= MAX_PATH
  }

  /** A path fits within 32 names and 1024 bytes, those it is written with. */
  lemma {:induction false} FitsExactly(path: Path)
    ensures PathBytes(path) == |Spelled(path)|
    ensures Fits(path) <==> |path| <= 32 && |Spelled(path)| <= 1024
    decreases |path|
  {
    if path == [] {
    } else {
      FitsExactly(Parent(path));
    }
  }

  /** The entries the copy-back lists: the folders and files whose path is neither too deep nor too long. */
  predicate Listed(upper: Tree, path: Path) {
    path in upper && !upper[path].Other? && Fits(path)
  }

  // the entries left out, each in a folder that was listed
  predicate LeftOut(upper: Tree, path: Path) {
    && path in upper && path != [] && !upper[path].Other? && !Fits(path)
    && (Parent(path) == [] || Listed(upper, Parent(path)))
  }

  // ----- listing

  ghost predicate ParentsFirst(paths: seq<Path>) {
    forall i | 0 <= i < |paths| ::
      paths[i] != [] && (|paths[i]| == 1 || Parent(paths[i]) in paths[..i])
  }

  /** The names in one folder, in some order. */
  method ScanFolder(upper: Tree, folder: Path) returns (paths: seq<Path>)
    ensures forall p :: p in paths <==> p in upper && p != [] && Parent(p) == folder
    ensures NoRepeats(paths)
  {
    paths := [];
    var left := set p | p in upper && p != [] && Parent(p) == folder;
    ghost var all := left;
    while left != {}
      invariant left <= all
      invariant forall p :: p in all <==> p in left || p in paths
      invariant forall p | p in paths :: p !in left
      invariant NoRepeats(paths)
      decreases left
    {
      var p :| p in left;
      left := left - {p};
      paths := paths + [p];
    }
  }

  /** Parts one folder's entries: those listed, those left out, and the listed folders. */
  method PartChildren(upper: Tree, folder: Path, children: seq<Path>)
    returns (kept: seq<Path>, left: seq<Path>, folders: seq<Path>)
    requires forall p | p in children :: p in upper && p != [] && Parent(p) == folder
    requires NoRepeats(children)
    ensures NoRepeats(kept) && NoRepeats(left) && NoRepeats(folders)
    ensures forall p :: p in kept <==> p in children && Listed(upper, p)
    ensures forall p :: p in left <==> p in children && !upper[p].Other? && !Fits(p)
    ensures forall p :: p in folders <==> p in kept && upper[p].Folder?
  {
    hide Fits;
    kept, left, folders := [], [], [];
    for i := 0 to |children|
      invariant NoRepeats(kept) && NoRepeats(left) && NoRepeats(folders)
      invariant forall p :: p in kept <==> p in children[..i] && Listed(upper, p)
      invariant forall p :: p in left <==> p in children[..i] && !upper[p].Other? && !Fits(p)
      invariant forall p :: p in folders <==> p in kept && upper[p].Folder?
    {
      var path := children[i];
      assert path !in children[..i];
      if upper[path].Other? {
        continue;
      }
      if !Fits(path) {
        left := left + [path];
        continue;
      }
      kept := kept + [path];
      if upper[path].Folder? {
        folders := folders + [path];
      }
    }
  }

  // what the listing has found: `scanned` holds the folders already read, `stack` those still to read
  ghost predicate Found(upper: Tree, entries: seq<Path>, left: seq<Path>, stack: seq<Path>, scanned: set<Path>) {
    && NoRepeats(entries) && NoRepeats(left) && NoRepeats(stack) && ParentsFirst(entries)
    && (forall p :: p in entries <==> p != [] && Listed(upper, p) && Parent(p) in scanned)
    && (forall p :: p in left <==> p in upper && p != [] && !upper[p].Other? && !Fits(p) && Parent(p) in scanned)
    && (forall f | f in stack :: f !in scanned)
    && (forall f :: f in stack || f in scanned <==> f == [] || (f in entries && upper[f].Folder?))
  }

  lemma FoundMore(
      upper: Tree, entries: seq<Path>, left: seq<Path>, stack: seq<Path>, scanned: set<Path>, folder: Path,
      children: seq<Path>, kept: seq<Path>, more: seq<Path>, folders: seq<Path>)
    requires Found(upper, entries, left, stack, scanned) && stack != [] && folder == stack[|stack| - 1]
    requires forall p :: p in children <==> p in upper && p != [] && Parent(p) == folder
    requires NoRepeats(kept) && NoRepeats(more) && NoRepeats(folders)
    requires forall p :: p in kept <==> p in children && Listed(upper, p)
    requires forall p :: p in more <==> p in children && !upper[p].Other? && !Fits(p)
    requires forall p :: p in folders <==> p in kept && upper[p].Folder?
    ensures Found(upper, entries + kept, left + more, stack[..|stack| - 1] + folders, scanned + {folder})
  {
    hide Fits;
    var rest := stack[..|stack| - 1];
    assert folder !in rest && folder in stack;
    assert forall f :: f in stack <==> f in rest || f == folder;
    KeptFollow(entries, kept, folder);
    forall f | f in folders
      ensures f !in stack && f !in scanned && f != folder
    {
      assert Parent(f) == folder;
    }
    NoRepeatsJoin(entries, kept);
    NoRepeatsJoin(left, more);
    NoRepeatsJoin(rest, folders);
  }

  lemma NoRepeatsJoin(a: seq<Path>, b: seq<Path>)
    requires NoRepeats(a) && NoRepeats(b) && forall p | p in b :: p !in a
    ensures NoRepeats(a + b)
  {
    forall i, j | 0 <= i < j < |a + b|
      ensures (a + b)[i] != (a + b)[j]
    {
      if i < |a| <= j {
        assert (a + b)[i] in a && (a + b)[j] in b;
      }
    }
  }

  lemma KeptFollow(entries: seq<Path>, kept: seq<Path>, folder: Path)
    requires ParentsFirst(entries) && (folder == [] || folder in entries)
    requires forall p | p in kept :: p != [] && Parent(p) == folder
    ensures ParentsFirst(entries + kept)
  {
    var all := entries + kept;
    forall i | 0 <= i < |all|
      ensures all[i] != [] && (|all[i]| == 1 || Parent(all[i]) in all[..i])
    {
      if i < |entries| {
        assert all[..i] == entries[..i];
      } else {
        assert all[i] in kept;
        assert all[..i] == entries + kept[..i - |entries|];
      }
    }
  }

  /** Lists every entry the copy-back takes, parents before children, and what it leaves out. */
  method Listing(upper: Tree) returns (entries: seq<Path>, left: seq<Path>)
    requires WellFormed(upper)
    ensures NoRepeats(entries) && ParentsFirst(entries)
    ensures forall p :: p in entries <==> Listed(upper, p)
    ensures NoRepeats(left) && forall p :: p in left <==> LeftOut(upper, p)
  {
    hide Fits;
    entries, left := [], [];
    var stack: seq<Path> := [[]];
    ghost var scanned: set<Path> := {};
    while stack != []
      invariant Found(upper, entries, left, stack, scanned)
      decreases upper.Keys + {[]} - scanned
    {
      var folder := stack[|stack| - 1];
      assert folder in stack;
      var children := ScanFolder(upper, folder);
      var kept, more, folders := PartChildren(upper, folder, children);
      FoundMore(upper, entries, left, stack, scanned, folder, children, kept, more, folders);
      entries, left, stack := entries + kept, left + more, stack[..|stack| - 1] + folders;
      scanned := scanned + {folder};
    }
    ScannedAll(upper, entries, left, scanned);
  }

  lemma ScannedAll(upper: Tree, entries: seq<Path>, left: seq<Path>, scanned: set<Path>)
    requires WellFormed(upper) && Found(upper, entries, left, [], scanned)
    ensures forall p :: p in entries <==> Listed(upper, p)
    ensures forall p :: p in left <==> LeftOut(upper, p)
  {
    hide Fits;
    forall p | Listed(upper, p)
      ensures p in entries
    {
      ListedFound(upper, entries, left, scanned, p);
    }
  }

  lemma {:induction false} ListedFound(upper: Tree, entries: seq<Path>, left: seq<Path>, scanned: set<Path>, p: Path)
    requires WellFormed(upper) && Found(upper, entries, left, [], scanned) && Listed(upper, p)
    ensures p in entries
    decreases |p|
  {
    ParentListed(upper, p);
    if |p| <= 1 {
    } else {
      ListedFound(upper, entries, left, scanned, Parent(p));
    }
  }

  /** What lies in the tree's root or in a listed folder is what can be listed. */
  lemma ParentListed(upper: Tree, p: Path)
    requires WellFormed(upper) && Listed(upper, p)
    ensures p != [] && (Parent(p) == [] || (Listed(upper, Parent(p)) && upper[Parent(p)].Folder?))
  {
  }

  // ----- the overlay

  // a folder to lay over something that is no folder
  predicate Clashes(upper: Tree, target: Tree, p: Path) {
    p in upper && upper[p].Folder? && p in target && !target[p].Folder?
  }

  /** Nothing is copied to a clashing entry or under one. */
  predicate Barred(upper: Tree, target: Tree, p: Path)
    decreases |p|
  {
    p != [] && (Barred(upper, target, Parent(p)) || Clashes(upper, target, p))
  }

  // an entry that reaches the target: its place is free, or holds an entry of its own type
  predicate Lands(upper: Tree, target: Tree, p: Path) {
    && p != [] && p in upper && !upper[p].Other? && !Barred(upper, target, Parent(p))
    && (p !in target || (upper[p].Folder? && target[p].Folder?) || (upper[p].File? && target[p].File?))
  }

  /** The target with the landing entries of `listed` laid over it. */
  function Overlay(upper: Tree, target: Tree, listed: set<Path>): Tree {
    map p | p in target.Keys + listed && (p in target || Lands(upper, target, p)) ::
      if p in listed && Lands(upper, target, p) then upper[p] else target[p]
  }

  // a set of entries that holds the folder of each
  ghost predicate Closed(upper: Tree, listed: set<Path>) {
    forall p | p in listed :: p != [] && p in upper && !upper[p].Other? && HasFolder(upper, Parent(p))
                              && (Parent(p) == [] || Parent(p) in listed)
  }

  /** The overlay of two trees is a tree: nothing lands without its folder, and no folder is lost. */
  lemma OverlayWellFormed(upper: Tree, target: Tree, listed: set<Path>)
    requires WellFormed(target) && Closed(upper, listed)
    ensures WellFormed(Overlay(upper, target, listed))
  {
    var after := Overlay(upper, target, listed);
    forall p | p in after
      ensures p != [] && HasFolder(after, Parent(p))
    {
      FolderKept(upper, target, listed, p);
    }
  }

  lemma FolderKept(upper: Tree, target: Tree, listed: set<Path>, p: Path)
    requires WellFormed(target) && Closed(upper, listed) && p in Overlay(upper, target, listed)
    ensures p != [] && HasFolder(Overlay(upper, target, listed), Parent(p))
  {
    var q := Parent(p);
    if q != [] {
      if p in listed && Lands(upper, target, p) {
        assert q in listed && upper[q].Folder?;
        assert !Barred(upper, target, q);
        assert Lands(upper, target, q);
      } else {
        assert q in target && target[q].Folder?;
      }
    }
  }

  /** An entry of another type than the one laid over it stays, and nothing is written under it. */
  lemma {:induction false} OtherTypesStay(upper: Tree, target: Tree, listed: set<Path>, p: Path, under: Path)
    requires WellFormed(target) && Closed(upper, listed)
    requires p in target && p in listed && !SameType(upper, target, p)
    requires p <= under
    ensures p in Overlay(upper, target, listed) && Overlay(upper, target, listed)[p] == target[p]
    ensures upper[p].Folder? ==> under in target || under !in Overlay(upper, target, listed)
    ensures under in target && upper[p].Folder? ==> Overlay(upper, target, listed)[under] == target[under]
  {
    if upper[p].Folder? {
      assert Clashes(upper, target, p);
      BarredBelow(upper, target, p, under);
    }
  }

  lemma {:induction false} BarredBelow(upper: Tree, target: Tree, p: Path, under: Path)
    requires p != [] && p <= under && Barred(upper, target, p)
    ensures Barred(upper, target, under)
    decreases |under|
  {
    if p == under {
    } else {
      assert p <= Parent(under);
      BarredBelow(upper, target, p, Parent(under));
    }
  }

  // the entry's own place is free, or holds an entry of its type
  predicate SameType(upper: Tree, target: Tree, p: Path) {
    p in upper && !upper[p].Other? && (p in target ==> (upper[p].Folder? <==> target[p].Folder?) && !target[p].Other?)
  }

  // the entry exists in both trees alike, or in neither
  predicate Unchanged(before: Tree, after: Tree, p: Path) {
    (p in after <==> p in before) && (p in before ==> after[p] == before[p])
  }

  /** A listed entry lands exactly when its place suits it and no folder above clashes; any other path is unchanged. */
  lemma OverlayExactly(upper: Tree, target: Tree, listed: set<Path>, p: Path)
    requires Closed(upper, listed)
    ensures var after := Overlay(upper, target, listed);
      var lands := p in listed && SameType(upper, target, p)
                   && forall k | 0 < k < |p| :: !Clashes(upper, target, p[..k]);
      if lands then p in after && after[p] == upper[p] else Unchanged(target, after, p)
  {
    if p != [] {
      BarredExactly(upper, target, Parent(p));
      assert forall k | 0 <= k < |p| :: Parent(p)[..k] == p[..k];
    }
  }

  lemma {:induction false} BarredExactly(upper: Tree, target: Tree, p: Path)
    ensures Barred(upper, target, p) <==> exists k | 0 < k <= |p| :: Clashes(upper, target, p[..k])
    decreases |p|
  {
    if p == [] {
    } else {
      BarredExactly(upper, target, Parent(p));
      assert p[..|p|] == p;
      assert forall k | 0 < k < |p| :: Parent(p)[..k] == p[..k];
    }
  }

  /** Laying the same files over the result again changes nothing. */
  lemma OverlayTwice(upper: Tree, target: Tree, listed: set<Path>)
    requires Closed(upper, listed)
    ensures var once := Overlay(upper, target, listed); Overlay(upper, once, listed) == once
  {
    var once := Overlay(upper, target, listed);
    forall p | p in listed && Lands(upper, once, p)
      ensures p in once && once[p] == upper[p]
    {
      SameBars(upper, target, listed, Parent(p));
    }
  }

  lemma {:induction false} SameBars(upper: Tree, target: Tree, listed: set<Path>, p: Path)
    requires Closed(upper, listed)
    ensures Barred(upper, Overlay(upper, target, listed), p) <==> Barred(upper, target, p)
    decreases |p|
  {
    if p == [] {
    } else {
      SameBars(upper, target, listed, Parent(p));
    }
  }

  // ----- what is read of the upper layer

  // at most the first `size` bytes
  function Head(source: seq<nat>, size: nat): (head: seq<nat>)
    ensures |head| <= size && head <= source && (|source| <= size ==> head == source)
  {
    if |source| <= size then source else source[..size]
  }

  /** The upper layer as the copy reads it: of each file, no more than its listed size of what it holds by then. */
  function Cut(upper: Tree, contents: map<Path, seq<nat>>): Tree {
    map p | p in upper ::
      if upper[p].File? && p in contents then File(Head(contents[p], |upper[p].data|)) else upper[p]
  }

  lemma CutKeeps(upper: Tree, contents: map<Path, seq<nat>>)
    requires WellFormed(upper)
    ensures WellFormed(Cut(upper, contents))
    ensures forall p :: Listed(Cut(upper, contents), p) <==> Listed(upper, p)
  {
    hide Fits, Head;
  }

  /** Files that still hold what was listed are read as they are. */
  lemma CutUnchanged(upper: Tree, contents: map<Path, seq<nat>>)
    requires forall p | p in upper && upper[p].File? && p in contents :: contents[p] == upper[p].data
    ensures Cut(upper, contents) == upper
  {
  }

  // ----- copying

  const BLOCK: nat := 1_048_576

  function Size(upper: Tree, path: Path): nat {
    if path in upper && upper[path].File? then |upper[path].data| else 0
  }

  /** The bytes the listed files hold, each hard link counted. */
  function TotalSize(upper: Tree, entries: seq<Path>): nat
    decreases |entries|
  {
    if entries == [] then 0
    else TotalSize(upper, entries[..|entries| - 1]) + Size(upper, entries[|entries| - 1])
  }

  // all the files' bytes, one after another
  ghost function AllBytes(upper: Tree, entries: seq<Path>): seq<nat>
    decreases |entries|
  {
    if entries == [] then []
    else
      var path := entries[|entries| - 1];
      AllBytes(upper, entries[..|entries| - 1]) + match Get(upper, path) case Some(File(data)) => data case _ => []
  }

  function Get(tree: Tree, path: Path): Option<Entry> {
    if path in tree then Some(tree[path]) else None
  }

  /** The total is the number of bytes in the listed files. */
  lemma {:induction false} TotalIsBytes(upper: Tree, entries: seq<Path>)
    ensures TotalSize(upper, entries) == |AllBytes(upper, entries)|
    decreases |entries|
  {
    if entries == [] {
    } else {
      TotalIsBytes(upper, entries[..|entries| - 1]);
    }
  }

  lemma {:induction false} TotalOfPrefix(upper: Tree, entries: seq<Path>, n: nat)
    requires n <= |entries|
    ensures TotalSize(upper, entries[..n]) <= TotalSize(upper, entries)
    decreases |entries|
  {
    if n == |entries| {
      assert entries[..n] == entries;
    } else {
      var before := entries[..|entries| - 1];
      TotalOfPrefix(upper, before, n);
      assert before[..n] == entries[..n];
    }
  }

  lemma TotalNext(upper: Tree, entries: seq<Path>, n: nat)
    requires n < |entries|
    ensures TotalSize(upper, entries[..n + 1]) == TotalSize(upper, entries[..n]) + Size(upper, entries[n])
  {
    assert entries[..n + 1][..n] == entries[..n];
  }

  /** One entry's step of the overlay: what its place holds before it, and what it makes of it. */
  lemma OverlayNext(upper: Tree, target: Tree, entries: seq<Path>, n: nat)
    requires WellFormed(upper) && WellFormed(target) && NoRepeats(entries) && ParentsFirst(entries)
    requires n < |entries| && forall p | p in entries :: Listed(upper, p)
    ensures var path, before := entries[n], Overlay(upper, target, Paths(entries[..n]));
      && path != [] && (path in before <==> path in target) && (path in before ==> before[path] == target[path])
      && Overlay(upper, target, Paths(entries[..n + 1]))
         == (if Lands(upper, target, path) then before[path := upper[path]] else before)
      && (!Barred(upper, target, Parent(path)) ==> HasFolder(before, Parent(path)))
      && (Parent(path) in entries[..n] <==> Parent(path) != [])
  {
    hide Fits, Barred, Overlay, Lands, NoRepeats, ParentsFirst, WellFormed, Paths, Listed;
    var path, listed := entries[n], Paths(entries[..n]);
    assert path in entries;
    NextPath(entries, n);
    OverlayAdds(upper, target, listed, path);
    NoRoot(entries, n);
    ParentFound(entries, n);
    if Parent(path) != [] && !Barred(upper, target, Parent(path)) {
      ParentListed(upper, path);
      InListed(upper, Parent(path));
      FolderLands(upper, target, Parent(path));
      LandsInOverlay(upper, target, listed, Parent(path));
    }
  }

  lemma BarredStep(upper: Tree, target: Tree, p: Path)
    requires p != []
    ensures Barred(upper, target, p) <==> Barred(upper, target, Parent(p)) || Clashes(upper, target, p)
    ensures !Barred(upper, target, [])
  {
  }

  lemma NextPath(entries: seq<Path>, n: nat)
    requires NoRepeats(entries) && n < |entries|
    ensures entries[n] !in Paths(entries[..n])
    ensures Paths(entries[..n + 1]) == Paths(entries[..n]) + {entries[n]}
    ensures forall p :: p in Paths(entries[..n]) <==> p in entries[..n]
  {
    assert entries[..n + 1] == entries[..n] + [entries[n]];
  }

  lemma InListed(upper: Tree, p: Path)
    requires Listed(upper, p)
    ensures p in upper && !upper[p].Other?
  {
  }

  lemma ParentFound(entries: seq<Path>, n: nat)
    requires ParentsFirst(entries) && n < |entries|
    ensures entries[n] != [] && (Parent(entries[n]) == [] || Parent(entries[n]) in entries[..n])
  {
  }

  lemma OverlayAdds(upper: Tree, target: Tree, listed: set<Path>, path: Path)
    requires path !in listed
    ensures var before := Overlay(upper, target, listed);
      && (path in before <==> path in target) && (path in before ==> before[path] == target[path])
      && Overlay(upper, target, listed + {path})
         == (if Lands(upper, target, path) then before[path := upper[path]] else before)
  {
    hide Barred;
  }

  lemma LandsInOverlay(upper: Tree, target: Tree, listed: set<Path>, path: Path)
    requires path in listed && Lands(upper, target, path)
    ensures path in Overlay(upper, target, listed) && Overlay(upper, target, listed)[path] == upper[path]
  {
    hide Barred;
  }

  lemma NoRoot(entries: seq<Path>, n: nat)
    requires ParentsFirst(entries) && n <= |entries|
    ensures [] !in entries[..n]
  {
  }

  lemma FolderLands(upper: Tree, target: Tree, folder: Path)
    requires folder != [] && folder in upper && upper[folder].Folder? && !Barred(upper, target, folder)
    ensures Lands(upper, target, folder)
  {
  }

  // the first n entries hold the folder of each
  lemma PrefixClosed(upper: Tree, entries: seq<Path>, n: nat)
    requires WellFormed(upper) && ParentsFirst(entries) && n <= |entries|
    requires forall p | p in entries :: Listed(upper, p)
    ensures Closed(upper, Paths(entries[..n]))
  {
    hide Fits;
    forall p | p in Paths(entries[..n])
      ensures p != [] && p in upper && !upper[p].Other? && HasFolder(upper, Parent(p))
      ensures Parent(p) == [] || Parent(p) in Paths(entries[..n])
    {
      var i :| 0 <= i < n && entries[i] == p;
      assert p in entries;
      assert forall q | q in entries[..i] :: q in entries[..n];
    }
  }

  datatype Status = Copied | Incomplete | Failed

  // an entry that can be created in the folder
  predicate Free(tree: Tree, folder: Path, p: Path) {
    p != [] && Parent(p) == folder && p !in tree
  }

  // the same tree with one more file in it
  predicate Leftover(before: Tree, after: Tree, temp: Path) {
    temp !in before && temp in after && after[temp].File? && after == before[temp := after[temp]]
  }

  lemma LeftoverKeeps(before: Tree, after: Tree, temp: Path)
    requires WellFormed(before) && Leftover(before, after, temp) && temp != [] && HasFolder(before, Parent(temp))
    ensures WellFormed(after)
  {
    forall p | p in after
      ensures p != [] && HasFolder(after, Parent(p))
    {
      assert p in before || p == temp;
    }
  }

  // no temporary name is free in the folder
  ghost predicate NamesTaken(tree: Tree, folder: Path, names: seq<Name>) {
    forall name | name in names :: folder + [name] in tree
  }

  /**
   * The host workdir. Every write needs a folder to write in, and none replaces an entry of another type. `names` are
   * the temporary names the process tries, in order, and `faults` counts the system calls that failed.
   */
  class Workdir {
    const names: seq<Name>
    var tree: Tree
    ghost var written: nat
    ghost var faults: nat
    ghost var unlinksFailed: nat

    constructor (tree: Tree, names: seq<Name>)
      ensures this.tree == tree && this.names == names && written == 0 && faults == 0 && unlinksFailed == 0
    {
      this.tree := tree;
      this.names := names;
      written, faults, unlinksFailed := 0, 0, 0;
    }

    // a system call that may fail
    method Try() returns (ok: bool)
      modifies this`faults
      ensures faults == old(faults) + if ok then 0 else 1
    {
      ok := *;
      if !ok {
        faults := faults + 1;
      }
    }

    method MakeFolder(p: Path) returns (ok: bool)
      requires p != [] && p !in tree && HasFolder(tree, Parent(p))
      modifies this`tree, this`faults
      ensures tree == if ok then old(tree)[p := Folder] else old(tree)
      ensures faults == old(faults) + if ok then 0 else 1
    {
      ok := Try();
      if ok {
        tree := tree[p := Folder];
      }
    }

    /** Creates a new file under the first temporary name that is free in the folder. */
    method Create(folder: Path) returns (temp: Option<Path>)
      requires HasFolder(tree, folder)
      modifies this`tree, this`faults
      ensures temp.None? ==> tree == old(tree) && (faults > old(faults) || NamesTaken(tree, folder, names))
      ensures temp.Some? ==>
        faults == old(faults) && Free(old(tree), folder, temp.value) && tree == old(tree)[temp.value := File([])]
    {
      for number := 0 to |names|
        invariant tree == old(tree) && faults == old(faults)
        invariant NamesTaken(tree, folder, names[..number])
      {
        var path := folder + [names[number]];
        if path !in tree {
          var created := Try();
          if !created {
            return None;
          }
          tree := tree[path := File([])];
          return Some(path);
        }
      }
      assert names[..|names|] == names;
      return None;
    }

    // writes a block at the end of a file; a failed write may have written part of it
    method Append(temp: Path, block: seq<nat>) returns (ok: bool, ghost kept: nat)
      requires temp in tree && tree[temp].File?
      modifies this`tree, this`written, this`faults
      ensures kept <= |block| && (ok ==> kept == |block|)
      ensures faults == old(faults) + if ok then 0 else 1
      ensures tree == old(tree)[temp := File(old(tree[temp].data) + block[..kept])] && written == old(written) + kept
    {
      ok := Try();
      var done: nat :| done <= |block| && (ok ==> done == |block|);
      kept := done;
      tree := tree[temp := File(tree[temp].data + block[..done])];
      written := written + done;
    }

    /**
     * Copies a file's bytes in blocks, however many it holds by now, up to its listed size. Any read and any write may
     * fail, and a read may give less than was asked.
     */
    method CopyBlocks(temp: Path, source: seq<nat>, size: nat) returns (ok: bool, ghost data: seq<nat>)
      requires temp in tree && tree[temp] == File([])
      modifies this`tree, this`written, this`faults
      ensures if ok then faults == old(faults) else faults > old(faults)
      ensures tree == old(tree)[temp := File(data)] && |data| <= size && written == old(written) + |data|
      ensures data <= source && (ok ==> data == Head(source, size))
    {
      var left: nat, position: nat := size, 0;
      data := [];
      while left > 0
        invariant position + left == size && position <= |source| && data == source[..position]
        invariant tree == old(tree)[temp := File(data)] && written == old(written) + |data| && faults == old(faults)
      {
        var readable := Try();
        if !readable {
          return false, data;
        }
        var most := Min(left, Min(BLOCK, |source| - position));
        var count: nat :| count <= most && (count == 0 ==> most == 0);
        if count == 0 {
          return true, data;
        }
        var block := source[position..position + count];
        var wrote, kept := Append(temp, block);
        data := data + block[..kept];
        if !wrote {
          assert data == source[..position + kept];
          return false, data;
        }
        left, position := left - count, position + count;
      }
      return true, data;
    }

    method Rename(temp: Path, p: Path) returns (ok: bool)
      requires p != [] && temp in tree && HasFolder(tree, Parent(p)) && (p in tree ==> tree[p].File?)
      modifies this`tree, this`faults
      ensures tree == if ok then (old(tree) - {temp})[p := old(tree[temp])] else old(tree)
      ensures faults == old(faults) + if ok then 0 else 1
    {
      ok := Try();
      if ok {
        tree := (tree - {temp})[p := tree[temp]];
      }
    }

    method Unlink(temp: Path) returns (ok: bool)
      requires temp in tree
      modifies this`tree, this`faults, this`unlinksFailed
      ensures faults == old(faults) + if ok then 0 else 1
      ensures tree == (if ok then old(tree) - {temp} else old(tree))
      ensures unlinksFailed == old(unlinksFailed) + if ok then 0 else 1
    {
      ok := Try();
      if ok {
        tree := tree - {temp};
      } else {
        unlinksFailed := unlinksFailed + 1;
      }
    }

    /**
     * Copies a file into a new one under a temporary name and renames it over the target; a source that cannot be
     * opened is None. The target is as it was or whole, the copy fails only for a reason, and the temporary file stays
     * only when it cannot be removed.
     */
    method CopyFile(p: Path, source: Option<seq<nat>>, size: nat) returns (ok: bool, stuck: Option<Path>)
      requires p != [] && HasFolder(tree, Parent(p)) && (p in tree ==> tree[p].File?)
      modifies this
      ensures !ok ==> faults > old(faults) || source.None? || NamesTaken(old(tree), Parent(p), names)
      ensures ok ==> faults == old(faults)
      ensures ok ==> source.Some? && stuck.None? && tree == old(tree)[p := File(Head(source.value, size))]
      ensures !ok && stuck.None? ==> tree == old(tree)
      ensures stuck.Some? ==> !ok && Free(old(tree), Parent(p), stuck.value) && Leftover(old(tree), tree, stuck.value)
      ensures unlinksFailed == old(unlinksFailed) + if stuck.Some? then 1 else 0
      ensures written <= old(written) + size
    {
      ok, stuck := false, None;
      var created := Create(Parent(p));
      if created.None? {
        return;
      }
      var temp := created.value;
      var copied := false;
      if source.Some? {
        ghost var data;
        copied, data := CopyBlocks(temp, source.value, size);
      }
      if copied {
        var renamed := Rename(temp, p);
        if renamed {
          return true, None;
        }
      }
      var removed := Unlink(temp);
      if !removed {
        stuck := Some(temp);
      }
    }

    // a file that cannot be opened, or a folder with no temporary name to write it under
    ghost predicate CannotCopy(p: Path, contents: map<Path, seq<nat>>)
      reads this`tree
    {
      p !in contents || (p != [] && NamesTaken(tree, Parent(p), names))
    }

    /**
     * Copies the entries in order. When one fails, those before it have landed and nothing else has changed, but for a
     * temporary file that could not be removed.
     */
    method Copy(upper: Tree, contents: map<Path, seq<nat>>, entries: seq<Path>)
      returns (ok: bool, done: nat, stuck: Option<Path>)
      requires WellFormed(upper) && WellFormed(tree) && NoRepeats(entries) && ParentsFirst(entries)
      requires forall p | p in entries :: Listed(upper, p)
      modifies this
      ensures done <= |entries| && (ok ==> done == |entries| && stuck.None? && faults == old(faults))
      ensures !ok ==> done < |entries| && (faults > old(faults) || CannotCopy(entries[done], contents))
      ensures var laid := Overlay(Cut(upper, contents), old(tree), Paths(entries[..done]));
        if stuck.None? then tree == laid else Leftover(laid, tree, stuck.value)
      ensures WellFormed(tree) && unlinksFailed == old(unlinksFailed) + if stuck.Some? then 1 else 0
      ensures written <= old(written) + TotalSize(upper, entries)
    {
      hide Overlay, NoRepeats, ParentsFirst, WellFormed, Fits, TotalSize, Paths, Cut, Listed, Head, Leftover,
        HasFolder, Barred;
      var blocked: set<Path> := {};
      ghost var target, read := tree, Cut(upper, contents);
      done, stuck := 0, None;
      CutKeeps(upper, contents);
      NoneLaid(read, target, entries[..0]);
      NoneTotal(upper, entries[..0]);
      while done < |entries|
        invariant done <= |entries| && unlinksFailed == old(unlinksFailed) && faults == old(faults)
        invariant tree == Overlay(read, target, Paths(entries[..done]))
        invariant forall p :: p in blocked <==> p in entries[..done] && Barred(read, target, p)
        invariant written <= old(written) + TotalSize(upper, entries[..done])
      {
        var path := entries[done];
        assert path in entries;
        ReadAs(upper, contents, path);
        var entry := upper[path];
        OverlayNext(read, target, entries, done);
        BarredStep(read, target, path);
        TotalNext(upper, entries, done);
        TotalOfPrefix(upper, entries, done + 1);
        PrefixClosed(read, entries, done);
        OverlayWellFormed(read, target, Paths(entries[..done]));
        if Parent(path) in blocked {
          blocked := blocked + {path};
          done := done + 1;
          continue;
        }
        var known := Try();
        if !known {
          return false, done, None;
        }
        if entry.Folder? {
          if path !in tree {
            var made := MakeFolder(path);
            if !made {
              return false, done, None;
            }
          } else if !tree[path].Folder? {
            blocked := blocked + {path};
          }
        } else if path !in tree || tree[path].File? {
          ghost var before := tree;
          var source := if path in contents then Some(contents[path]) else None;
          var copied;
          copied, stuck := CopyFile(path, source, |entry.data|);
          if !copied {
            if stuck.Some? {
              LeftoverKeeps(before, tree, stuck.value);
            }
            return false, done, stuck;
          }
        }
        done := done + 1;
      }
      TotalOfPrefix(upper, entries, done);
      PrefixClosed(read, entries, done);
      OverlayWellFormed(read, target, Paths(entries[..done]));
      return true, done, None;
    }

    /**
     * Copies the upper layer back; `readable` tells whether all its folders could be read. Over the cap it changes
     * nothing; else at most the cap is written, whatever the files hold by the time they are read, and unless a step
     * fails every listed entry that is not barred has landed and everything else is as it was.
     */
    method CopyBack(upper: Tree, readable: bool, contents: map<Path, seq<nat>>, cap: nat)
      returns (status: Status, ghost entries: seq<Path>, ghost done: nat, stuck: Option<Path>)
      requires WellFormed(upper) && WellFormed(tree)
      modifies this
      ensures NoRepeats(entries) && forall p :: p in entries <==> Listed(upper, p)
      ensures done <= |entries| && WellFormed(tree)
      ensures var laid := Overlay(Cut(upper, contents), old(tree), Paths(entries[..done]));
        if stuck.None? then tree == laid else status == Failed && Leftover(laid, tree, stuck.value)
      ensures unlinksFailed == old(unlinksFailed) + if stuck.Some? then 1 else 0
      ensures written - old(written) <= cap
      ensures !readable ==> status == Failed && tree == old(tree)
      ensures readable && TotalSize(upper, entries) > cap ==> status == Incomplete && tree == old(tree)
      ensures TotalSize(upper, entries) <= cap && status != Failed ==>
        && done == |entries|
        && (status == Copied <==> forall p | p in upper :: !LeftOut(upper, p))
      ensures status == Failed && readable ==>
        done < |entries| && (faults > old(faults) || CannotCopy(entries[done], contents))
    {
      hide Overlay, WellFormed, Fits, TotalSize, ParentsFirst, Cut, Leftover;
      var left;
      var listed;
      listed, left := Listing(upper);
      entries, done, stuck := listed, 0, None;
      NoneLaid(Cut(upper, contents), tree, entries[..0]);
      if !readable {
        return Failed, entries, 0, None;
      }
      var total := TotalSize(upper, listed);
      if total > cap {
        return Incomplete, entries, 0, None;
      }
      var ok;
      ok, done, stuck := Copy(upper, contents, listed);
      if !ok {
        return Failed, entries, done, stuck;
      }
      assert left == [] || left[0] in left;
      return if left != [] then Incomplete else Copied, entries, done, None;
    }
  }

  // what the copy reads of one listed entry
  lemma ReadAs(upper: Tree, contents: map<Path, seq<nat>>, path: Path)
    requires Listed(upper, path)
    ensures path in upper && path in Cut(upper, contents) && !upper[path].Other?
    ensures var read := Cut(upper, contents)[path];
      && (upper[path].Folder? ==> read == Folder)
      && (upper[path].File? ==> read.File? && Size(upper, path) == |upper[path].data|)
      && (upper[path].File? && path in contents ==> read == File(Head(contents[path], |upper[path].data|)))
  {
  }

  function Paths(entries: seq<Path>): set<Path> {
    set p | p in entries
  }

  lemma NoneLaid(upper: Tree, target: Tree, none: seq<Path>)
    requires none == []
    ensures Overlay(upper, target, Paths(none)) == target
  {
  }

  lemma NoneTotal(upper: Tree, none: seq<Path>)
    requires none == []
    ensures TotalSize(upper, none) == 0
  {
  }
}
