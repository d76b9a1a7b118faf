/** The walk of LocalBackup.Create, and backup followed by restore. */
module Backup {
  import opened Wrappers
  import opened Strings
  import opened Paths
  import opened Rootfs
  import opened FileTree
  import opened Archive
  import opened Extract

  // ----- source trees -----

  /** A tree as the operating system guarantees it: real names, and a directory above everything. */
  ghost predicate IsTree(tree: FileMap) {
    forall p :: p in tree ==> RealPath(p) && HasParent(tree, p)
  }

  ghost predicate RealPath(p: Path) {
    p != [] && AllPlain(p) && '\0' !in Join(p, '/')
  }

  ghost predicate HasParent(tree: FileMap, p: Path) {
    |p| > 1 ==> p[..|p| - 1] in tree && tree[p[..|p| - 1]] == Directory
  }

  /** The walk neither skips this entry nor prunes it. */
  predicate Passes(tree: FileMap, ignored: string -> bool, p: Path) {
    && p in tree && p != [] && p[0] != ".backups" && p[0] != ".uploads"
    && !ignored(Join(p, '/')) && tree[p] != Symlink
  }

  /** The walk started at c archives p. */
  ghost predicate BackedFrom(tree: FileMap, ignored: string -> bool, c: Path, p: Path) {
    && c <= p && p in tree && (tree[p] == Directory || tree[p].Regular?)
    && forall k :: |c| <= k <= |p| && k > 0 ==> Passes(tree, ignored, p[..k])
  }

  /** Neither p nor any ancestor is ignored, reserved or a symlink, and p is a directory or regular file. */
  ghost predicate BackedUp(tree: FileMap, ignored: string -> bool, p: Path) {
    p != [] && BackedFrom(tree, ignored, [], p)
  }

  function EntryOf(tree: FileMap, p: Path): Entry
    requires p in tree
  {
    if tree[p].Regular? then Entry(Join(p, '/'), IsRegular, tree[p].content)
    else Entry(Join(p, '/') + "/", IsDir, [])
  }

  /** What the rooted filesystem can open or create. */
  predicate Openable(p: Path) {
    SafeText(Join(p, '/')) && !SecondColon(Join(p, '/'))
  }

  // ----- the walk -----

  ghost function Below(tree: FileMap, p: Path): set<Path> {
    set q | q in tree && p <= q
  }

  /** The archive lists exactly the backed-up paths, each once. */
  ghost predicate Lists(entries: seq<Entry>, paths: seq<Path>, tree: FileMap) {
    && |entries| == |paths|
    && (forall i :: 0 <= i < |paths| ==> paths[i] in tree && entries[i] == EntryOf(tree, paths[i]))
    && (forall i, j :: 0 <= i < j < |paths| ==> paths[i] != paths[j])
  }

  lemma ListsAppend(e1: seq<Entry>, p1: seq<Path>, e2: seq<Entry>, p2: seq<Path>, tree: FileMap)
    requires Lists(e1, p1, tree) && Lists(e2, p2, tree)
    requires forall p :: p in p1 ==> p !in p2
    ensures Lists(e1 + e2, p1 + p2, tree)
  {
    var ps := p1 + p2;
    forall i, j | 0 <= i < j < |ps| ensures ps[i] != ps[j] {
      if i < |p1| <= j {
        assert ps[i] in p1 && ps[j] in p2;
      }
    }
  }

  lemma PrunedBacksNothing(tree: FileMap, ignored: string -> bool, c: Path, p: Path)
    requires c != [] && !Passes(tree, ignored, c)
    ensures !BackedFrom(tree, ignored, c, p)
  {
    if c <= p {
      assert p[..|c|] == c;
    }
  }

  lemma DirectoryBacks(tree: FileMap, ignored: string -> bool, c: Path, p: Path)
    requires Passes(tree, ignored, c) && tree[c] == Directory
    ensures BackedFrom(tree, ignored, c, p) <==> p == c || BackedBelow(tree, ignored, c, p)
  {
    assert c[..|c|] == c;
    if c <= p {
      assert p[..|c|] == c;
    }
  }

  lemma LeafBacks(tree: FileMap, ignored: string -> bool, c: Path, p: Path)
    requires IsTree(tree) && Passes(tree, ignored, c) && tree[c] != Directory
    ensures BackedFrom(tree, ignored, c, p) <==> p == c && tree[c].Regular?
  {
    assert c[..|c|] == c;
    if BackedFrom(tree, ignored, c, p) && p != c {
      assert p[..|c|] == c && |c| < |p|;
      AboveIsDirectory(tree, p, |c|);
    }
  }

  /** The walk callback for one entry, and the descent into it. */
  method Visit(tree: FileMap, ignored: string -> bool, c: Path)
    returns (ok: bool, entries: seq<Entry>, ghost paths: seq<Path>)
    requires IsTree(tree) && c in tree
    ensures ok <==> forall p :: BackedFrom(tree, ignored, c, p) && tree[p].Regular? ==> Openable(p)
    ensures ok ==> Lists(entries, paths, tree) && forall p :: p in paths <==> BackedFrom(tree, ignored, c, p)
    decreases Below(tree, c), 0
  {
    if !Passes(tree, ignored, c) {
      forall p ensures !BackedFrom(tree, ignored, c, p) { PrunedBacksNothing(tree, ignored, c, p); }
      return true, [], [];
    }
    if tree[c] == Directory {
      forall p ensures BackedFrom(tree, ignored, c, p) <==> p == c || BackedBelow(tree, ignored, c, p) {
        DirectoryBacks(tree, ignored, c, p);
      }
      assert c in Below(tree, c);
      ok, entries, paths := WalkDir(tree, ignored, c);
      if ok {
        ListsAppend([EntryOf(tree, c)], [c], entries, paths, tree);
        entries, paths := [EntryOf(tree, c)] + entries, [c] + paths;
      }
      return;
    }
    forall p ensures BackedFrom(tree, ignored, c, p) <==> p == c && tree[c].Regular? { LeafBacks(tree, ignored, c, p); }
    if !tree[c].Regular? { return true, [], []; }
    if !Openable(c) { return false, [], []; }
    return true, [EntryOf(tree, c)], [c];
  }

  lemma {:induction false} AboveIsDirectory(tree: FileMap, p: Path, k: nat)
    requires IsTree(tree) && p in tree && 0 < k < |p|
    ensures p[..k] in tree && tree[p[..k]] == Directory
    decreases |p|
  {
    var up := p[..|p| - 1];
    assert HasParent(tree, p) && RealPath(p);
    if k < |up| {
      AboveIsDirectory(tree, up, k);
      assert up[..k] == p[..k];
    }
  }

  /** The paths so far are those below the children already visited. */
  ghost predicate Visited(tree: FileMap, ignored: string -> bool, dir: Path, todo: set<Path>, paths: seq<Path>) {
    forall p :: p in paths <==> BackedBelow(tree, ignored, dir, p) && p[..|dir| + 1] !in todo
  }

  lemma VisitedStep(tree: FileMap, ignored: string -> bool, dir: Path, todo: set<Path>, paths: seq<Path>, c: Path,
                    found: seq<Path>)
    requires Visited(tree, ignored, dir, todo, paths) && c in todo && |c| == |dir| + 1 && dir <= c
    requires forall p :: p in found <==> BackedFrom(tree, ignored, c, p)
    ensures Visited(tree, ignored, dir, todo - {c}, paths + found)
    ensures forall p :: p in paths ==> p !in found
  {
    forall p ensures BackedFrom(tree, ignored, c, p) <==> BackedBelow(tree, ignored, dir, p) && p[..|dir| + 1] == c {
    }
  }

  lemma BelowChild(tree: FileMap, dir: Path, c: Path)
    requires dir < c
    ensures Below(tree, c) <= Below(tree, dir) - {dir}
  {
    forall q | q in Below(tree, c) ensures q in Below(tree, dir) - {dir} {
    }
  }

  /** filepath.WalkDir below a directory; the order of its children does not matter. */
  method WalkDir(tree: FileMap, ignored: string -> bool, dir: Path)
    returns (ok: bool, entries: seq<Entry>, ghost paths: seq<Path>)
    requires IsTree(tree)
    ensures ok <==> forall p :: BackedBelow(tree, ignored, dir, p) && tree[p].Regular? ==> Openable(p)
    ensures ok ==> Lists(entries, paths, tree) && forall p :: p in paths <==> BackedBelow(tree, ignored, dir, p)
    decreases Below(tree, dir) - {dir}, 1
  {
    entries, paths := [], [];
    var children := set q | q in tree && |q| == |dir| + 1 && dir <= q;
    var todo := children;
    while todo != {}
      invariant todo <= children
      invariant Lists(entries, paths, tree) && Visited(tree, ignored, dir, todo, paths)
      invariant forall p :: p in paths && tree[p].Regular? ==> Openable(p)
    {
      var c :| c in todo;
      BelowChild(tree, dir, c);
      var more;
      ghost var found;
      ok, more, found := Visit(tree, ignored, c);
      if !ok {
        ghost var p :| BackedFrom(tree, ignored, c, p) && tree[p].Regular? && !Openable(p);
        assert BackedBelow(tree, ignored, dir, p);
        return;
      }
      VisitedStep(tree, ignored, dir, todo, paths, c, found);
      ListsAppend(entries, paths, more, found, tree);
      entries, paths, todo := entries + more, paths + found, todo - {c};
    }
    forall p | BackedBelow(tree, ignored, dir, p) ensures p in paths {
      ChildExists(tree, ignored, dir, p);
    }
    ok := true;
  }

  lemma ChildExists(tree: FileMap, ignored: string -> bool, dir: Path, p: Path)
    requires BackedBelow(tree, ignored, dir, p)
    ensures p[..|dir| + 1] in tree
  {
    assert p[..|dir| + 1][..|dir| + 1] == p[..|dir| + 1];
    assert Passes(tree, ignored, p[..|dir| + 1]);
  }

  ghost predicate BackedBelow(tree: FileMap, ignored: string -> bool, dir: Path, p: Path) {
    |dir| < |p| && dir <= p && BackedFrom(tree, ignored, p[..|dir| + 1], p)
  }

  // ----- the archive of a tree -----

  lemma EntryBase(tree: FileMap, p: Path)
    requires IsTree(tree) && p in tree && (tree[p] == Directory || tree[p].Regular?)
    ensures Base(EntryOf(tree, p)) == Join(p, '/') && Parts(EntryOf(tree, p)) == p
  {
    var s := Join(p, '/');
    PlainHasNoSlash(p);
    SplitJoin(p, '/');
    LastIsPlain(p);
    assert (s + "/")[..|s|] == s && HasSuffix(s + "/", "/");
  }

  lemma SlashIsSafe(s: string)
    ensures SafeText(s + "/") <==> SafeText(s)
  {
    assert forall c :: c in s ==> c in s + "/";
  }

  lemma EntryParts(tree: FileMap, p: Path)
    requires IsTree(tree) && p in tree && (tree[p] == Directory || tree[p].Regular?)
    ensures Base(EntryOf(tree, p)) == Join(p, '/') && Parts(EntryOf(tree, p)) == p
    ensures GoodEntry(EntryOf(tree, p)) <==> SafeText(Join(p, '/'))
  {
    EntryBase(tree, p);
    SlashIsSafe(Join(p, '/'));
    LastIsPlain(p);
    assert HasSuffix(Join(p, '/') + "/", "/");
  }

  lemma ArchiveIsAcceptable(entries: seq<Entry>, paths: seq<Path>, tree: FileMap)
    requires IsTree(tree) && Lists(entries, paths, tree)
    requires forall p :: p in paths ==> tree[p] == Directory || tree[p].Regular?
    ensures Acceptable(entries) <==> forall p :: p in paths ==> SafeText(Join(p, '/'))
  {
    forall i | 0 <= i < |entries| ensures GoodEntry(entries[i]) <==> SafeText(Join(paths[i], '/')) {
      assert paths[i] in paths;
      EntryParts(tree, paths[i]);
    }
    if forall p :: p in paths ==> SafeText(Join(p, '/')) {
      forall i, j | 0 <= i < j < |entries| ensures Compatible(entries[i], entries[j]) {
        assert paths[i] in paths && paths[j] in paths;
        EntriesCompatible(tree, paths[i], paths[j]);
      }
    }
    if Acceptable(entries) {
      forall p | p in paths ensures SafeText(Join(p, '/')) {
        var i :| 0 <= i < |paths| && paths[i] == p;
        assert entries[i] in entries;
      }
    }
  }

  lemma EntriesCompatible(tree: FileMap, p: Path, q: Path)
    requires IsTree(tree) && p in tree && q in tree && p != q
    requires tree[p] == Directory || tree[p].Regular?
    requires tree[q] == Directory || tree[q].Regular?
    ensures Compatible(EntryOf(tree, p), EntryOf(tree, q))
  {
    EntryParts(tree, p);
    EntryParts(tree, q);
    if p < q {
      assert q[..|p|] == p;
      AboveIsDirectory(tree, q, |p|);
    }
    if q < p {
      assert p[..|q|] == q;
      AboveIsDirectory(tree, p, |q|);
    }
  }

  ghost function BackedUpTree(tree: FileMap, ignored: string -> bool): FileMap {
    map p | p in tree && BackedUp(tree, ignored, p) :: tree[p]
  }

  lemma BackedUpIsPrefixClosed(tree: FileMap, ignored: string -> bool, p: Path, q: Path)
    requires IsTree(tree) && BackedUp(tree, ignored, q) && p != [] && p <= q
    ensures BackedUp(tree, ignored, p)
  {
    assert p == q[..|p|];
    if p != q { AboveIsDirectory(tree, q, |p|); }
    forall k | 0 <= k <= |p| && k > 0 ensures Passes(tree, ignored, p[..k]) {
      assert p[..k] == q[..k];
    }
  }

  /** What the archive of the listed paths mentions. */
  ghost predicate Archives(entries: seq<Entry>, paths: seq<Path>, tree: FileMap, ignored: string -> bool) {
    && IsTree(tree) && Lists(entries, paths, tree)
    && forall p :: p in paths <==> BackedUp(tree, ignored, p)
  }

  lemma EntryOfPath(entries: seq<Entry>, paths: seq<Path>, tree: FileMap, ignored: string -> bool, p: Path)
    returns (e: Entry)
    requires Archives(entries, paths, tree, ignored) && p in paths
    ensures e in entries && Parts(e) == p && e == EntryOf(tree, p)
  {
    var i :| 0 <= i < |paths| && paths[i] == p;
    e := entries[i];
    EntryParts(tree, p);
  }

  lemma PathOfEntry(entries: seq<Entry>, paths: seq<Path>, tree: FileMap, ignored: string -> bool, e: Entry)
    requires Archives(entries, paths, tree, ignored) && e in entries
    ensures Parts(e) in paths && e == EntryOf(tree, Parts(e))
  {
    var i :| 0 <= i < |entries| && entries[i] == e;
    assert paths[i] in paths;
    EntryParts(tree, paths[i]);
  }

  lemma MentionedIsBackedUp(entries: seq<Entry>, paths: seq<Path>, tree: FileMap, ignored: string -> bool, p: Path)
    requires Archives(entries, paths, tree, ignored)
    ensures Mentioned(entries, p) <==> BackedUp(tree, ignored, p)
  {
    if Mentioned(entries, p) {
      var e :| e in entries && p <= Parts(e);
      PathOfEntry(entries, paths, tree, ignored, e);
      BackedUpIsPrefixClosed(tree, ignored, p, Parts(e));
    }
    if BackedUp(tree, ignored, p) {
      var e := EntryOfPath(entries, paths, tree, ignored, p);
    }
  }

  lemma FileAtIsBackedUp(entries: seq<Entry>, paths: seq<Path>, tree: FileMap, ignored: string -> bool, p: Path,
                         c: Content)
    requires Archives(entries, paths, tree, ignored)
    ensures FileAt(entries, p, c) <==> BackedUp(tree, ignored, p) && tree[p] == Regular(c)
  {
    if e :| e in entries && e.mode == IsRegular && Parts(e) == p && e.content == c {
      PathOfEntry(entries, paths, tree, ignored, e);
    }
    if BackedUp(tree, ignored, p) {
      var e := EntryOfPath(entries, paths, tree, ignored, p);
    }
  }

  lemma ContentsAt(restored: FileMap, entries: seq<Entry>, paths: seq<Path>, tree: FileMap, ignored: string -> bool,
                   p: Path)
    requires Archives(entries, paths, tree, ignored) && IsContents(restored, entries)
    ensures p in restored <==> BackedUp(tree, ignored, p)
    ensures p in restored ==> restored[p] == tree[p]
  {
    MentionedIsBackedUp(entries, paths, tree, ignored, p);
    if p in restored {
      if tree[p].Regular? {
        FileAtIsBackedUp(entries, paths, tree, ignored, p, tree[p].content);
      } else if restored[p].Regular? {
        FileAtIsBackedUp(entries, paths, tree, ignored, p, restored[p].content);
      }
    }
  }

  lemma ContentsAreTheBackup(restored: FileMap, entries: seq<Entry>, paths: seq<Path>, tree: FileMap,
                             ignored: string -> bool)
    requires Archives(entries, paths, tree, ignored) && IsContents(restored, entries)
    ensures restored == BackedUpTree(tree, ignored)
  {
    forall p
      ensures p in restored <==> p in BackedUpTree(tree, ignored)
      ensures p in restored ==> restored[p] == tree[p]
    {
      ContentsAt(restored, entries, paths, tree, ignored, p);
    }
  }

  // ----- backup, then restore into an empty root -----

  method Create(tree: FileMap, ignored: string -> bool) returns (ok: bool, entries: seq<Entry>, ghost paths: seq<Path>)
    requires IsTree(tree)
    ensures ok <==> forall p :: BackedUp(tree, ignored, p) && tree[p].Regular? ==> Openable(p)
    ensures ok <==> !exists p :: BackedUp(tree, ignored, p) && tree[p].Regular? && Unsafe(p)
    ensures ok ==> Lists(entries, paths, tree) && forall p :: p in paths <==> BackedUp(tree, ignored, p)
  {
    forall p ensures BackedBelow(tree, ignored, [], p) <==> BackedUp(tree, ignored, p) {
      assert p != [] ==> p[..1] <= p;
    }
    ok, entries, paths := WalkDir(tree, ignored, []);
  }

  /** The rooted filesystem refuses this path: a backslash or a NUL in it, or a colon as its second character. */
  ghost predicate Unsafe(p: Path) {
    '\\' in Join(p, '/') || '\0' in Join(p, '/') || (|Join(p, '/')| >= 2 && Join(p, '/')[1] == ':')
  }

  /** The round trip works iff every backed-up path can be opened, and then it is the identity on the backed-up part. */
  method BackupThenRestore(tree: FileMap, ignored: string -> bool) returns (restored: Option<FileMap>)
    requires IsTree(tree)
    ensures restored.Some? <==> forall p :: BackedUp(tree, ignored, p) ==> Openable(p)
    ensures restored.Some? <==> !exists p :: BackedUp(tree, ignored, p) && Unsafe(p)
    ensures restored.Some? ==> restored.value == BackedUpTree(tree, ignored)
  {
    var ok, entries;
    ghost var paths;
    ok, entries, paths := Create(tree, ignored);
    if !ok { return None; }
    ArchiveIsAcceptable(entries, paths, tree);
    var err := ValidateArchive(entries);
    if err.Some? { return None; }
    forall i | 0 <= i < |paths| ensures Base(entries[i]) == Join(paths[i], '/') && entries[i] in entries {
      assert paths[i] in paths;
      EntryParts(tree, paths[i]);
    }
    var root := new Root();
    ok := ExtractArchive(root, entries);
    if !ok { return None; }
    ContentsAreTheBackup(root.tree, entries, paths, tree, ignored);
    return Some(root.tree);
  }

  /** A directory that can be archived and not restored; a file of that name cannot even be archived. */
  lemma OneColonExample(ignored: string -> bool, content: Content)
    requires !ignored("1:")
    ensures var tree: FileMap := map[["1:"] := Directory];
      IsTree(tree) && BackedUp(tree, ignored, ["1:"]) && !Openable(["1:"]) && SafeText("1:")
    ensures var tree: FileMap := map[["1:"] := Regular(content)];
      IsTree(tree) && BackedUp(tree, ignored, ["1:"]) && tree[["1:"]].Regular? && !Openable(["1:"])
  {
    var p := ["1:"];
    assert Join(p, '/') == "1:" && p[..1] == p && AllPlain(p);
    forall k | 0 < k <= |p| ensures p[..k] == p {
    }
  }
}
