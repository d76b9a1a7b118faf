/** extractArchive writing into a rooted filesystem, and the tree it leaves. */
module Extract {
  import opened Strings
  import opened Wrappers
  import opened Paths
  import opened Rootfs
  import opened FileTree
  import opened Archive

  // ----- the rooted filesystem of the daemon on Linux -----

  ghost predicate CanMkdirAll(tree: FileMap, p: Path) {
    forall k :: 1 <= k <= |p| && p[..k] in tree ==> tree[p[..k]] == Directory
  }

  /** The path and its ancestors, without the root. */
  ghost function Prefixes(p: Path): set<Path> {
    set k | 1 <= k <= |p| :: p[..k]
  }

  ghost function WithDirs(tree: FileMap, p: Path): FileMap {
    map q: Path | q in tree.Keys + Prefixes(p) :: if q in tree then tree[q] else Directory
  }

  lemma PrefixesOf(p: Path, q: Path)
    ensures q in Prefixes(p) <==> q != [] && q <= p
  {
    if q != [] && q <= p {
      assert q == p[..|q|];
    }
  }

  /** The directory part of p exists and p itself can be (re)written. */
  ghost predicate CanWrite(tree: FileMap, p: Path)
    requires p != []
  {
    (|p| == 1 || (p[..|p| - 1] in tree && tree[p[..|p| - 1]] == Directory)) && (p in tree ==> tree[p].Regular?)
  }

  class Root {
    var tree: FileMap

    constructor ()
      ensures tree == map[]
    {
      tree := map[];
    }

    /** FS.MkdirAll: Clean, validateRelativePath, then one component after the other. */
    method MkdirAll(name: string) returns (ok: bool)
      modifies this
      ensures ok <==> Admitted(name) && CanMkdirAll(old(tree), PathOf(name))
      ensures '\\' in name || '\0' in name || (name != "" && name[0] == '/') || ".." in Split(name, '/') ==> !ok
      ensures ok ==> tree == WithDirs(old(tree), PathOf(name))
    {
      CleanThenValid(name);
      AdmittedSpelt(name);
      var clean := CleanName(name);
      if clean.None? { return false; }
      if clean.value == "" {
        assert PathOf(name) == [];
        assert WithDirs(tree, []) == tree;
        return true;
      }
      if !ValidRelative(clean.value) { return false; }
      ok := MakeParts(Split(clean.value, '/'));
    }

    method MakeParts(parts: Path) returns (ok: bool)
      modifies this
      ensures ok <==> CanMkdirAll(old(tree), parts)
      ensures ok ==> tree == WithDirs(old(tree), parts)
    {
      assert WithDirs(tree, parts[..0]) == tree;
      for k := 0 to |parts|
        invariant CanMkdirAll(old(tree), parts[..k])
        invariant tree == WithDirs(old(tree), parts[..k])
      {
        var p := parts[..k + 1];
        assert forall j :: 1 <= j <= k ==> p[..j] == parts[..k][..j];
        assert p[..k + 1] == p;
        assert p in tree <==> p in old(tree);
        if p in tree && tree[p] != Directory {
          assert parts[..k + 1] == p;
          return false;
        }
        if p !in tree { tree := tree[p := Directory]; }
        MoreDirs(old(tree), parts, k);
      }
      assert parts[..|parts|] == parts;
      return true;
    }

    /** FS.OpenFile with create and truncate, then the copied content; the root itself cannot be written. */
    method WriteFile(name: string, content: Content) returns (ok: bool)
      modifies this
      ensures ok <==> Admitted(name) && PathOf(name) != [] && CanWrite(old(tree), PathOf(name))
      ensures '\\' in name || '\0' in name || (name != "" && name[0] == '/') || ".." in Split(name, '/') ==> !ok
      ensures ok ==> tree == old(tree)[PathOf(name) := Regular(content)]
      ensures !ok ==> tree == old(tree)
    {
      CleanThenValid(name);
      AdmittedSpelt(name);
      var clean := CleanName(name);
      if clean.None? || clean.value == "" || !ValidRelative(clean.value) { return false; }
      var p := Split(clean.value, '/');
      var parent := p[..|p| - 1];
      if parent != [] && (parent !in tree || tree[parent] != Directory) { return false; }
      if p in tree && !tree[p].Regular? { return false; }
      tree := tree[p := Regular(content)];
      return true;
    }
  }

  lemma MoreDirs(tree: FileMap, parts: Path, k: nat)
    requires k < |parts|
    ensures WithDirs(tree, parts[..k + 1]) ==
      WithDirs(tree, parts[..k])[parts[..k + 1] := if parts[..k + 1] in tree then tree[parts[..k + 1]] else Directory]
  {
    var p, q := parts[..k], parts[..k + 1];
    assert Prefixes(q) == Prefixes(p) + {q} by {
      forall x ensures x in Prefixes(q) <==> x in Prefixes(p) + {q} {
        PrefixesOf(p, x);
        PrefixesOf(q, x);
        assert x <= q ==> x == q || x <= p;
      }
    }
  }

  // ----- what a list of entries describes -----

  ghost predicate Mentioned(files: seq<Entry>, p: Path) {
    p != [] && exists e :: e in files && p <= Parts(e)
  }

  ghost predicate FileAt(files: seq<Entry>, p: Path, content: Content) {
    exists e :: e in files && e.mode == IsRegular && Parts(e) == p && e.content == content
  }

  /** The tree has exactly the paths mentioned; files where an entry says so, directories elsewhere. */
  ghost predicate IsContents(tree: FileMap, files: seq<Entry>) {
    && (forall p :: p in tree <==> Mentioned(files, p))
    && (forall p, c :: FileAt(files, p, c) ==> tree[p] == Regular(c))
    && (forall p :: p in tree && tree[p] != Directory ==> tree[p].Regular? && FileAt(files, p, tree[p].content))
  }

  /** The contents do not depend on the order of the entries. */
  lemma ContentsIgnoreOrder(t: FileMap, files: seq<Entry>, u: FileMap, other: seq<Entry>)
    requires forall e :: e in files <==> e in other
    requires IsContents(t, files) && IsContents(u, other)
    ensures t == u
  {
    forall p ensures p in t <==> p in u {
      assert Mentioned(files, p) <==> Mentioned(other, p);
    }
    forall p | p in t ensures t[p] == u[p] {
      if t[p] != Directory {
        assert FileAt(other, p, t[p].content);
      } else if u[p] != Directory {
        assert FileAt(files, p, u[p].content);
      }
    }
  }

  lemma MentionedSnoc(files: seq<Entry>, e: Entry, p: Path)
    ensures Mentioned(files + [e], p) <==> Mentioned(files, p) || (p != [] && p <= Parts(e))
  {
    var all := files + [e];
    assert e in all && forall d :: d in all <==> d in files || d == e;
  }

  lemma FileAtSnoc(files: seq<Entry>, e: Entry, p: Path, c: Content)
    ensures FileAt(files + [e], p, c) <==>
      FileAt(files, p, c) || (e.mode == IsRegular && Parts(e) == p && e.content == c)
  {
    var all := files + [e];
    assert e in all && forall d :: d in all <==> d in files || d == e;
  }

  lemma NoFileOnTheWay(tree: FileMap, files: seq<Entry>, e: Entry, p: Path)
    requires IsContents(tree, files) && Acceptable(files + [e])
    requires p in tree && p < Parts(e)
    ensures tree[p] == Directory
  {
    AcceptableSnoc(files, e);
  }

  lemma AddDirectory(tree: FileMap, files: seq<Entry>, e: Entry)
    requires IsContents(tree, files) && Acceptable(files + [e]) && e.mode == IsDir
    ensures CanMkdirAll(tree, Parts(e)) && IsContents(WithDirs(tree, Parts(e)), files + [e])
  {
    var p := Parts(e);
    AcceptableSnoc(files, e);
    forall k | 1 <= k <= |p| && p[..k] in tree ensures tree[p[..k]] == Directory {
      if k < |p| {
        NoFileOnTheWay(tree, files, e, p[..k]);
      } else {
        assert p[..k] == p;
      }
    }
    var after := WithDirs(tree, p);
    forall q ensures q in after <==> Mentioned(files + [e], q) {
      PrefixesOf(p, q);
      MentionedSnoc(files, e, q);
    }
    forall q, c ensures FileAt(files + [e], q, c) <==> FileAt(files, q, c) {
      FileAtSnoc(files, e, q, c);
    }
  }

  lemma FileIsNew(tree: FileMap, files: seq<Entry>, e: Entry)
    requires IsContents(tree, files) && Acceptable(files + [e]) && e.mode == IsRegular
    ensures Parts(e) !in tree
  {
    AcceptableSnoc(files, e);
    forall d | d in files ensures !(Parts(e) <= Parts(d)) {
      assert Compatible(d, e);
    }
    assert !Mentioned(files, Parts(e));
  }

  lemma ReadyForFile(tree: FileMap, files: seq<Entry>, e: Entry, parent: Path)
    requires IsContents(tree, files) && Acceptable(files + [e]) && e.mode == IsRegular
    requires Parts(e) != [] && parent == Parts(e)[..|Parts(e)| - 1]
    ensures CanMkdirAll(tree, parent) && CanWrite(WithDirs(tree, parent), Parts(e))
    ensures Parts(e) !in WithDirs(tree, parent)
  {
    forall k | 1 <= k <= |parent| && parent[..k] in tree ensures tree[parent[..k]] == Directory {
      assert parent[..k] == Parts(e)[..k];
      NoFileOnTheWay(tree, files, e, parent[..k]);
    }
    PrefixesOf(parent, parent);
    PrefixesOf(parent, Parts(e));
    assert parent[..|parent|] == parent;
    FileIsNew(tree, files, e);
  }

  lemma AddedIsMentioned(tree: FileMap, files: seq<Entry>, e: Entry, parent: Path, q: Path)
    requires forall p :: p in tree <==> Mentioned(files, p)
    requires Parts(e) != [] && parent == Parts(e)[..|Parts(e)| - 1]
    ensures q in WithDirs(tree, parent).Keys + {Parts(e)} <==> Mentioned(files + [e], q)
  {
    PrefixesOf(parent, q);
    MentionedSnoc(files, e, q);
    assert q <= Parts(e) <==> q == Parts(e) || q <= parent;
  }

  lemma AddFile(tree: FileMap, files: seq<Entry>, e: Entry, parent: Path)
    requires IsContents(tree, files) && Acceptable(files + [e]) && e.mode == IsRegular
    requires Parts(e) != [] && parent == Parts(e)[..|Parts(e)| - 1] && Parts(e) !in WithDirs(tree, parent)
    ensures IsContents(WithDirs(tree, parent)[Parts(e) := Regular(e.content)], files + [e])
  {
    var p, dirs := Parts(e), WithDirs(tree, parent);
    var after := dirs[p := Regular(e.content)];
    forall q ensures q in after <==> Mentioned(files + [e], q) {
      AddedIsMentioned(tree, files, e, parent, q);
    }
    forall q, c | FileAt(files + [e], q, c) ensures after[q] == Regular(c) {
      FileAtSnoc(files, e, q, c);
      assert FileAt(files, q, c) ==> q in tree && q != p;
    }
    forall q | q in after && after[q] != Directory
      ensures after[q].Regular? && FileAt(files + [e], q, after[q].content) {
      FileAtSnoc(files, e, q, if q == p then e.content else tree[q].content);
    }
  }

  // ----- extractArchive -----

  /** The checks extractArchive repeats on each name before it touches the destination. */
  method SinkName(raw: string) returns (ok: bool, name: string)
    ensures ok ==> name == TrimSuffix(raw, "/") && !DrivePrefix(name)
    ensures forall e :: GoodEntry(e) && e.name == raw ==> (ok <==> !DrivePrefix(Base(e)))
  {
    name := TrimSuffix(raw, "/");
    forall e | GoodEntry(e) && e.name == raw
      ensures raw != "" && SafeText(raw) && !HasPrefix(raw, "/")
      ensures TrimSuffix(Clean(raw), "/") == name && name != "" && name != "." && name != ".." &&
        !HasPrefix(name, "../")
      ensures SafeText(name) && !HasPrefix(name, "/") && ".." !in Split(name, '/') && Clean(name) == name
    {
      GoodIsClean(e);
      PartsOfGood(e);
      CleanOfPlain(Parts(e));
      assert forall c :: c in name ==> c in raw;
    }
    if raw == "" || !SafeText(raw) || HasPrefix(raw, "/") { return false, name; }
    var stdClean := TrimSuffix(Clean(raw), "/");
    if stdClean == "" || stdClean == "." || stdClean == ".." || HasPrefix(stdClean, "../") || stdClean != name {
      return false, name;
    }
    return CleanName(name) == Some(stdClean), name;
  }

  ghost function Above(e: Entry): Path {
    Parts(e)[..|Parts(e)| - 1]
  }

  /** Nothing in the tree is in the way of the entry. */
  ghost predicate Ready(tree: FileMap, e: Entry) {
    if e.mode == IsDir then CanMkdirAll(tree, Parts(e))
    else CanMkdirAll(tree, Above(e)) && CanWrite(WithDirs(tree, Above(e)), Parts(e))
  }

  ghost function Extracted(tree: FileMap, e: Entry): FileMap {
    if e.mode == IsDir then WithDirs(tree, Parts(e))
    else WithDirs(tree, Above(e))[Parts(e) := Regular(e.content)]
  }

  lemma ExtractedContents(tree: FileMap, files: seq<Entry>, e: Entry)
    requires IsContents(tree, files) && Acceptable(files + [e])
    ensures Ready(tree, e) && IsContents(Extracted(tree, e), files + [e])
  {
    AcceptableSnoc(files, e);
    PartsOfGood(e);
    if e.mode == IsDir {
      AddDirectory(tree, files, e);
    } else {
      ReadyForFile(tree, files, e, Above(e));
      AddFile(tree, files, e, Above(e));
    }
  }

  /** What path.Dir makes of the name of an entry. */
  lemma ParentName(e: Entry)
    requires GoodEntry(e)
    ensures Dir(Base(e)) == "." <==> Above(e) == []
    ensures Above(e) != [] ==> Split(Dir(Base(e)), '/') == Above(e)
    ensures Above(e) != [] && SecondColon(Dir(Base(e))) ==> SecondColon(Base(e))
  {
    PartsOfGood(e);
    var parts := Parts(e);
    ParentOf(parts, |parts|);
    assert parts[..|parts|] == parts;
    if Above(e) != [] {
      ParentOf(parts, |parts| - 1);
      ParentParts(parts);
    }
  }

  lemma ParentParts(parts: Path)
    requires |parts| > 1 && AllPlain(parts)
    ensures var front := parts[..|parts| - 1];
      Split(Join(front, '/'), '/') == front && (SecondColon(Join(front, '/')) ==> SecondColon(Join(parts, '/')))
  {
    var front, last := parts[..|parts| - 1], [parts[|parts| - 1]];
    assert AllPlain(front) && parts == front + last;
    PlainHasNoSlash(front);
    SplitJoin(front, '/');
    JoinAppend(front, last, '/');
  }

  /** A validated name is admitted unless it has a colon in second place; so is its parent's. */
  lemma NameIsAdmitted(e: Entry)
    requires GoodEntry(e)
    ensures PathOf(Base(e)) == Parts(e) && (Admitted(Base(e)) <==> !SecondColon(Base(e)))
    ensures Above(e) != [] ==>
      PathOf(Dir(Base(e))) == Above(e) && (Admitted(Dir(Base(e))) <==> !SecondColon(Dir(Base(e))))
  {
    PartsOfGood(e);
    BaseIsSafe(e);
    AdmittedPlain(Parts(e));
    ParentName(e);
    if Above(e) != [] {
      JoinSplit(Dir(Base(e)), '/');
      AdmittedPlain(Above(e));
    }
  }

  lemma BaseIsSafe(e: Entry)
    requires GoodEntry(e)
    ensures SafeText(Base(e)) && (Above(e) != [] ==> SafeText(Join(Above(e), '/')))
  {
    PartsOfGood(e);
    assert forall c :: c in Base(e) ==> c in e.name;
    if Above(e) != [] {
      var last := [Parts(e)[|Parts(e)| - 1]];
      assert Parts(e) == Above(e) + last;
      JoinAppend(Above(e), last, '/');
      assert forall c :: c in Join(Above(e), '/') ==> c in Base(e);
    }
  }

  method ExtractFile(root: Root, e: Entry, name: string) returns (ok: bool)
    requires GoodEntry(e) && e.mode == IsRegular && name == Base(e)
    modifies root
    ensures Ready(old(root.tree), e) ==> (ok <==> !SecondColon(name))
    ensures ok ==> root.tree == Extracted(old(root.tree), e)
  {
    var parent := Dir(name);
    ParentName(e);
    NameIsAdmitted(e);
    if parent != "." {
      ok := root.MkdirAll(parent);
      if !ok { return; }
    } else {
      assert WithDirs(root.tree, []) == root.tree;
    }
    ok := root.WriteFile(name, e.content);
  }

  method ExtractOne(root: Root, e: Entry) returns (ok: bool)
    requires GoodEntry(e) && Ready(root.tree, e)
    modifies root
    ensures ok <==> !SecondColon(Base(e))
    ensures ok ==> root.tree == Extracted(old(root.tree), e)
  {
    var name;
    ok, name := SinkName(e.name);
    NameIsAdmitted(e);
    if !ok { return; }
    if e.mode == IsDir {
      ok := root.MkdirAll(name);
    } else {
      ok := ExtractFile(root, e, name);
    }
  }

  /** Into an empty root: succeeds iff no name has a colon in second place, and leaves exactly what the entries say. */
  method ExtractArchive(root: Root, files: seq<Entry>) returns (ok: bool)
    requires Acceptable(files) && root.tree == map[]
    modifies root
    ensures ok <==> forall e :: e in files ==> !SecondColon(Base(e))
    ensures ok ==> IsContents(root.tree, files)
  {
    for i := 0 to |files|
      invariant IsContents(root.tree, files[..i])
      invariant forall e :: e in files[..i] ==> !SecondColon(Base(e))
    {
      assert files[..i + 1] == files[..i] + [files[i]];
      AcceptablePrefix(files, i + 1);
      AcceptableSnoc(files[..i], files[i]);
      ExtractedContents(root.tree, files[..i], files[i]);
      ok := ExtractOne(root, files[i]);
      if !ok { return; }
    }
    assert files[..|files|] == files;
    return true;
  }
}
