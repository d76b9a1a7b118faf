/**
 Archive entries: what validateArchive accepts, what extractArchive writes, what
 the walk of Create archives, and the round trip through all three.
 */
module Archive {
  import opened Wrappers
  import opened Strings
  import opened Paths
  import opened Rootfs
  import opened FileTree

  datatype Mode = IsDir | IsRegular | IsOther

  /** One zip entry; the content of a directory entry is irrelevant. */
  datatype Entry = Entry(name: string, mode: Mode, content: Content)

  datatype ArchiveError = InvalidPath | UnsupportedType | ConflictingType | Duplicate | BeneathFile | ConflictsWithChild

  // ----- what a valid list of entries is -----

  function Base(e: Entry): string {
    TrimSuffix(e.name, "/")
  }

  function Parts(e: Entry): Path {
    Split(Base(e), '/')
  }

  /** The name is a clean relative path and its trailing slash agrees with the entry's type. */
  ghost predicate GoodEntry(e: Entry) {
    && SafeText(e.name) && AllPlain(Parts(e))
    && (e.mode == IsDir || e.mode == IsRegular)
    && (HasSuffix(e.name, "/") <==> e.mode == IsDir)
  }

  /** Neither entry repeats the other's path, and neither is a file above the other. */
  ghost predicate Compatible(d: Entry, e: Entry) {
    Parts(d) != Parts(e) && (d.mode == IsRegular ==> !(Parts(d) < Parts(e))) &&
      (e.mode == IsRegular ==> !(Parts(e) < Parts(d)))
  }

  ghost predicate Acceptable(files: seq<Entry>) {
    && (forall e :: e in files ==> GoodEntry(e))
    && (forall i, j :: 0 <= i < j < |files| ==> Compatible(files[i], files[j]))
  }

  lemma PartsOfGood(e: Entry)
    requires GoodEntry(e)
    ensures Parts(e) != [] && Base(e) == Join(Parts(e), '/')
  {
    JoinSplit(Base(e), '/');
  }

  /** How a good name is written: plain components, no backslash, no NUL, and a slash at the end of a directory. */
  ghost predicate Spells(e: Entry, parts: Path) {
    && parts != [] && (forall c :: c in parts ==> c != "" && c != "." && c != ".." && '/' !in c)
    && e.name == Join(parts, '/') + (if e.mode == IsDir then "/" else "")
    && '\\' !in e.name && '\0' !in e.name && e.mode != IsOther
  }

  ghost predicate Spelt(e: Entry) {
    exists parts :: Spells(e, parts)
  }

  lemma GoodIsSpelt(e: Entry)
    ensures GoodEntry(e) <==> Spelt(e)
  {
    if GoodEntry(e) {
      PartsOfGood(e);
      assert e.name == Base(e) + (if e.mode == IsDir then "/" else "");
      forall c | c in Parts(e) ensures c != "" && c != "." && c != ".." && '/' !in c { assert Plain(c); }
      assert Spells(e, Parts(e));
    }
    if parts :| Spells(e, parts) {
      LastIsPlain(parts);
      SplitJoin(parts, '/');
      assert e.mode == IsDir ==> HasSuffix(e.name, "/");
      assert e.mode != IsDir ==> e.name == Join(parts, '/');
      assert Base(e) == Join(parts, '/');
    }
  }

  // ----- validateArchive -----

  /** The checks on one name, before entries are compared. */
  method CheckName(e: Entry) returns (err: Option<ArchiveError>, clean: string)
    ensures err.None? <==> GoodEntry(e)
    ensures err.None? <==> Spelt(e)
    ensures err.None? ==> clean == Base(e)
  {
    GoodIsSpelt(e);
    var name := e.name;
    clean := "";
    if name == "" || !SafeText(name) || HasPrefix(name, "/") || Clean(name) == "." {
      if GoodEntry(e) { GoodIsClean(e); }
      return Some(InvalidPath), clean;
    }
    clean := TrimSuffix(Clean(name), "/");
    if clean == "" || clean == "." || clean == ".." || HasPrefix(clean, "../") || HasPrefix(clean, "/")
       || clean != TrimSuffix(name, "/") {
      if GoodEntry(e) { GoodIsClean(e); }
      return Some(InvalidPath), clean;
    }
    var components := Split(clean, '/');
    if exists c :: c in components && (c == ".." || c == "") {
      if GoodEntry(e) { GoodIsClean(e); }
      return Some(InvalidPath), clean;
    }
    var isDir := HasSuffix(name, "/") && e.mode == IsDir;
    if !isDir && e.mode != IsRegular { return Some(UnsupportedType), clean; }
    if HasSuffix(name, "/") != isDir { return Some(ConflictingType), clean; }
    CleanIsGood(e, clean);
    return None, clean;
  }

  lemma GoodIsClean(e: Entry)
    requires GoodEntry(e)
    ensures e.name != "" && !HasPrefix(e.name, "/") && Clean(e.name) != "."
    ensures var clean := Base(e);
      && TrimSuffix(Clean(e.name), "/") == clean
      && clean != "" && clean != "." && clean != ".." && !HasPrefix(clean, "../") && !HasPrefix(clean, "/")
      && forall c :: c in Split(clean, '/') ==> c != ".." && c != ""
  {
    var parts, clean := Parts(e), Base(e);
    PartsOfGood(e);
    assert e.name == clean || e.name == clean + "/";
    CleanOfPlain(parts);
    CleanOfPlainSlash(parts);
    assert Clean(e.name) == clean;
    FirstIsPlain(parts);
    LastIsPlain(parts);
    forall c | c in parts ensures c != ".." && c != "" { assert Plain(c); }
  }

  lemma LastIsPlain(parts: Path)
    requires parts != [] && AllPlain(parts)
    ensures !HasSuffix(Join(parts, '/'), "/")
  {
    var n := |parts| - 1;
    assert Plain(parts[n]) && parts == parts[..n] + [parts[n]];
    if n > 0 { JoinSnoc(parts[..n], parts[n]); }
    EndsPlain(Join(parts, '/'), parts[n]);
  }

  lemma EndsPlain(s: string, last: string)
    requires Plain(last) && HasSuffix(s, last)
    ensures !HasSuffix(s, "/")
  {
    var c := last[|last| - 1];
    assert c in last && s[|s| - 1] == s[|s| - |last|..][|last| - 1] == c;
    assert s[|s| - 1..] == [c];
  }

  lemma CleanIsGood(e: Entry, clean: string)
    requires SafeText(e.name) && e.name != "" && !HasPrefix(e.name, "/") && Clean(e.name) != "."
    requires clean == TrimSuffix(Clean(e.name), "/") && clean == Base(e) && clean != ""
    requires forall c :: c in Split(clean, '/') ==> c != ".." && c != ""
    requires if HasSuffix(e.name, "/") then e.mode == IsDir else e.mode == IsRegular
    ensures GoodEntry(e)
  {
    assert e.name[0] != '/' by { assert e.name[..1] == [e.name[0]]; }
    CleanHasNoDots(e.name);
    CleanDoesNotEndInSlash(e.name);
    SplitParts(clean, '/');
    forall c | c in Parts(e) ensures Plain(c) {
    }
  }

  lemma CleanDoesNotEndInSlash(s: string)
    requires s != "" && s[0] != '/' && Clean(s) != "."
    ensures TrimSuffix(Clean(s), "/") == Clean(s)
  {
    var t := Clean(s);
    CleanHasNoDots(s);
    if HasSuffix(t, "/") {
      TrailingSlashPart(t);
    }
  }

  lemma TrailingSlashPart(t: string)
    requires HasSuffix(t, "/")
    ensures "" in Split(t, '/')
  {
    assert t == t[..|t| - 1] + "/";
    SplitTrailing(t[..|t| - 1], '/');
  }

  /** `seen` maps each cleaned name so far to whether it is a directory. */
  ghost predicate SeenIs(seen: map<string, bool>, files: seq<Entry>) {
    && (forall s :: s in seen ==> exists e :: e in files && Base(e) == s)
    && (forall e :: e in files ==> Base(e) in seen && seen[Base(e)] == (e.mode == IsDir))
  }

  /** No entry already seen is a file above these components. */
  ghost predicate NoFileAbove(files: seq<Entry>, parts: Path) {
    forall d :: d in files && d.mode == IsRegular ==> !(Parts(d) < parts)
  }

  lemma SeenAt(seen: map<string, bool>, files: seq<Entry>, parts: Path)
    requires (forall e :: e in files ==> GoodEntry(e)) && SeenIs(seen, files) && parts != [] && AllPlain(parts)
    ensures Join(parts, '/') in seen <==> exists e :: e in files && Parts(e) == parts
    ensures forall e :: e in files && Parts(e) == parts ==>
      Join(parts, '/') in seen && seen[Join(parts, '/')] == (e.mode == IsDir)
  {
    forall e | e in files ensures Base(e) == Join(parts, '/') <==> Parts(e) == parts {
      PartsOfGood(e);
      JoinInjective(Parts(e), parts);
    }
  }

  /** What the loop over path.Dir holds when n components are left. */
  function AncestorAt(parts: Path, n: nat): string
    requires n <= |parts|
  {
    if n == 0 then "." else Join(parts[..n], '/')
  }

  lemma ParentOf(parts: Path, n: nat)
    requires 1 <= n <= |parts| && AllPlain(parts)
    ensures Dir(AncestorAt(parts, n)) == AncestorAt(parts, n - 1)
    ensures AncestorAt(parts, n) != "." && AllPlain(parts[..n])
  {
    var up := parts[..n];
    forall c | c in up ensures Plain(c) { assert c in parts; }
    FirstIsPlain(up);
    assert up[n - 1] in up;
    if n == 1 {
      DirOfOne(up[0]);
    } else {
      assert up == parts[..n - 1] + [up[n - 1]];
      DirOfSnoc(parts[..n - 1], up[n - 1]);
    }
  }

  /** Files among the ancestors have at most n components. */
  ghost predicate FilesAboveUpTo(files: seq<Entry>, parts: Path, n: nat) {
    forall d :: d in files && d.mode == IsRegular && Parts(d) < parts ==> |Parts(d)| <= n
  }

  ghost predicate SeenFiles(seen: map<string, bool>, files: seq<Entry>) {
    (forall e :: e in files ==> GoodEntry(e)) && SeenIs(seen, files)
  }

  lemma AncestorStep(seen: map<string, bool>, files: seq<Entry>, parts: Path, n: nat)
    requires SeenFiles(seen, files) && AllPlain(parts)
    requires 1 <= n < |parts| && FilesAboveUpTo(files, parts, n)
    ensures var ancestor := AncestorAt(parts, n);
      if ancestor in seen && !seen[ancestor] then !NoFileAbove(files, parts)
      else FilesAboveUpTo(files, parts, n - 1)
  {
    var up := parts[..n];
    ParentOf(parts, n);
    SeenAt(seen, files, up);
    forall d | d in files && Parts(d) < parts && |Parts(d)| == n ensures Parts(d) == up {
    }
  }

  /** The loop over path.Dir: is a seen file an ancestor? */
  method FileAbove(seen: map<string, bool>, clean: string, ghost files: seq<Entry>, ghost parts: Path)
    returns (found: bool)
    requires SeenFiles(seen, files) && parts != [] && AllPlain(parts) && clean == Join(parts, '/')
    ensures found <==> !NoFileAbove(files, parts)
  {
    ghost var n: nat := |parts| - 1;
    assert parts[..|parts|] == parts;
    ParentOf(parts, |parts|);
    var ancestor := Dir(clean);
    while ancestor != "."
      invariant n < |parts| && ancestor == AncestorAt(parts, n) && FilesAboveUpTo(files, parts, n)
      decreases n
    {
      AncestorStep(seen, files, parts, n);
      if ancestor in seen && !seen[ancestor] {
        return true;
      }
      ParentOf(parts, n);
      n := n - 1;
      ancestor := Dir(ancestor);
    }
    if n > 0 { ParentOf(parts, n); }
    return false;
  }

  /** The loop over `seen`: is an entry already seen beneath this file? */
  method EntryBelow(seen: map<string, bool>, clean: string, ghost files: seq<Entry>, ghost parts: Path)
    returns (found: bool)
    requires forall e :: e in files ==> GoodEntry(e)
    requires SeenIs(seen, files) && parts != [] && AllPlain(parts) && clean == Join(parts, '/')
    ensures found <==> exists e :: e in files && parts < Parts(e)
  {
    forall e | e in files ensures HasPrefix(Base(e), clean + "/") <==> parts < Parts(e) {
      PartsOfGood(e);
      PrefixIsAncestor(parts, Parts(e));
    }
    var prefix := clean + "/";
    var todo := seen.Keys;
    while todo != {}
      invariant todo <= seen.Keys
      invariant forall s :: s in seen && s !in todo ==> !HasPrefix(s, prefix)
    {
      var prior :| prior in todo;
      if HasPrefix(prior, prefix) { return true; }
      todo := todo - {prior};
    }
    return false;
  }

  lemma AcceptableSnoc(files: seq<Entry>, e: Entry)
    ensures Acceptable(files + [e]) <==>
      Acceptable(files) && GoodEntry(e) && forall d :: d in files ==> Compatible(d, e)
  {
    var all := files + [e];
    assert all[|files|] == e;
    assert forall i :: 0 <= i < |files| ==> all[i] == files[i];
    if Acceptable(all) {
      forall d | d in files ensures Compatible(d, e) {
        var i :| 0 <= i < |files| && files[i] == d;
        assert Compatible(all[i], all[|files|]);
      }
      forall d | d in files ensures GoodEntry(d) { assert d in all; }
      forall i, j | 0 <= i < j < |files| ensures Compatible(files[i], files[j]) { assert Compatible(all[i], all[j]); }
    }
  }

  lemma {:induction false} AcceptablePrefix(files: seq<Entry>, i: nat)
    requires i <= |files| && Acceptable(files)
    ensures Acceptable(files[..i])
    decreases |files| - i
  {
    if i == |files| {
      assert files[..i] == files;
    } else {
      AcceptablePrefix(files, i + 1);
      assert files[..i + 1] == files[..i] + [files[i]];
      AcceptableSnoc(files[..i], files[i]);
    }
  }

  /** The three checks of one entry against those before it. */
  method CheckAgainst(seen: map<string, bool>, e: Entry, clean: string, ghost files: seq<Entry>)
    returns (err: Option<ArchiveError>)
    requires Acceptable(files) && GoodEntry(e) && SeenIs(seen, files) && clean == Base(e)
    ensures err.None? <==> Acceptable(files + [e])
  {
    ghost var parts := Parts(e);
    PartsOfGood(e);
    AcceptableSnoc(files, e);
    SeenAt(seen, files, parts);
    if clean in seen { return Some(Duplicate); }
    var above := FileAbove(seen, clean, files, parts);
    if above { return Some(BeneathFile); }
    if e.mode != IsDir {
      var below := EntryBelow(seen, clean, files, parts);
      if below { return Some(ConflictsWithChild); }
    }
    return None;
  }

  ghost predicate AllSpelt(files: seq<Entry>) {
    forall e :: e in files ==> Spelt(e)
  }

  lemma AcceptableAreSpelt(files: seq<Entry>)
    requires Acceptable(files)
    ensures AllSpelt(files) && forall e :: e in files ==> '\\' !in e.name && '\0' !in e.name
  {
    forall e | e in files ensures Spelt(e) && '\\' !in e.name && '\0' !in e.name {
      GoodIsSpelt(e);
    }
  }

  method ValidateArchive(files: seq<Entry>) returns (err: Option<ArchiveError>)
    ensures err.None? <==> Acceptable(files)
    ensures err.None? ==> AllSpelt(files)
    ensures (exists e :: e in files && ('\\' in e.name || '\0' in e.name)) ==> err.Some?
  {
    err := CheckEntries(files);
    if err.None? { AcceptableAreSpelt(files); }
  }

  /** The loop over the entries. */
  method CheckEntries(files: seq<Entry>) returns (err: Option<ArchiveError>)
    ensures err.None? <==> Acceptable(files)
  {
    var seen: map<string, bool> := map[];
    for i := 0 to |files|
      invariant Acceptable(files[..i]) && SeenIs(seen, files[..i])
    {
      ghost var before := files[..i];
      assert files[..i + 1] == before + [files[i]];
      AcceptableSnoc(before, files[i]);
      if Acceptable(files) { AcceptablePrefix(files, i + 1); }
      var clean;
      err, clean := CheckName(files[i]);
      if err.Some? { return; }
      err := CheckAgainst(seen, files[i], clean, before);
      if err.Some? { return; }
      seen := seen[clean := files[i].mode == IsDir];
    }
    assert files[..|files|] == files;
    return None;
  }

  /** The verdict depends on the entries, not on their order. */
  lemma AcceptanceIgnoresOrder(files: seq<Entry>, other: seq<Entry>)
    requires multiset(files) == multiset(other) && Acceptable(files)
    ensures Acceptable(other)
  {
    forall e | e in other ensures GoodEntry(e) {
      assert e in multiset(files);
    }
    forall i, j | 0 <= i < j < |other| ensures Compatible(other[i], other[j]) {
      var d, e := other[i], other[j];
      assert d in multiset(files) && e in multiset(files);
      var k :| 0 <= k < |files| && files[k] == d;
      var l :| 0 <= l < |files| && files[l] == e;
      if k == l {
        TwiceInSequence(other, i, j);
        OnceInAcceptable(files, k);
      }
      assert k < l ==> Compatible(files[k], files[l]);
      assert l < k ==> Compatible(files[l], files[k]);
    }
  }

  lemma TwiceInSequence(files: seq<Entry>, i: nat, j: nat)
    requires i < j < |files| && files[i] == files[j]
    ensures multiset(files)[files[i]] >= 2
  {
    assert files == files[..j] + [files[j]] + files[j + 1..];
    assert files[..j][i] == files[i];
    assert multiset(files[..j])[files[i]] >= 1;
  }

  lemma OnceInAcceptable(files: seq<Entry>, k: nat)
    requires Acceptable(files) && k < |files|
    ensures multiset(files)[files[k]] == 1
  {
    var e := files[k];
    assert files == files[..k] + [e] + files[k + 1..];
    forall i | 0 <= i < |files| && i != k ensures files[i] != e {
      assert i < k ==> Compatible(files[i], files[k]);
      assert k < i ==> Compatible(files[k], files[i]);
    }
    assert e !in files[..k] && e !in files[k + 1..];
    assert e !in multiset(files[..k]) && e !in multiset(files[k + 1..]);
  }
}
