/**
 rootfs.Usage: the size of a tree counting each file once, with one list of seen
 files shared by all directories while every directory restarts its own total.
 */
module Usage {
  import opened Wrappers

  const MAX_INT64: int := 0x7FFF_FFFF_FFFF_FFFF

  /** What os.SameFile compares. */
  type FileId = nat

  /** A directory tree as listed; a symlink counts for nothing, anything else that is no directory is a file. */
  datatype Tree = File(id: FileId, size: int) | Dir(entries: seq<Tree>) | Link

  // ----- sums over sets of files -----

  type Sizes = FileId -> int

  ghost function Sum(ids: set<FileId>, sizes: Sizes): int {
    if ids == {} then 0 else var id :| id in ids; sizes(id) + Sum(ids - {id}, sizes)
  }

  lemma {:induction false} SumRemove(ids: set<FileId>, sizes: Sizes, id: FileId)
    requires id in ids
    ensures Sum(ids, sizes) == sizes(id) + Sum(ids - {id}, sizes)
    decreases |ids|
  {
    var x :| x in ids && Sum(ids, sizes) == sizes(x) + Sum(ids - {x}, sizes);
    if x != id {
      SumRemove(ids - {x}, sizes, id);
      SumRemove(ids - {id}, sizes, x);
      assert ids - {x} - {id} == ids - {id} - {x};
    }
  }

  lemma {:induction false} SumUnion(a: set<FileId>, b: set<FileId>, sizes: Sizes)
    requires a !! b
    ensures Sum(a + b, sizes) == Sum(a, sizes) + Sum(b, sizes)
    decreases |a|
  {
    if a == {} {
      assert a + b == b;
    } else {
      var x :| x in a;
      SumRemove(a, sizes, x);
      SumRemove(a + b, sizes, x);
      SumUnion(a - {x}, b, sizes);
      assert a + b - {x} == (a - {x}) + b;
    }
  }

  lemma {:induction false} SumIsNonNegative(ids: set<FileId>, sizes: Sizes)
    requires forall id :: id in ids ==> sizes(id) >= 0
    ensures Sum(ids, sizes) >= 0
    decreases |ids|
  {
    if ids != {} {
      var x :| x in ids;
      SumRemove(ids, sizes, x);
      SumIsNonNegative(ids - {x}, sizes);
    }
  }

  /** All sizes are usable and they add up to an int64. */
  ghost predicate Countable(ids: set<FileId>, sizes: Sizes) {
    (forall id :: id in ids ==> sizes(id) >= 0) && Sum(ids, sizes) <= 0x7FFF_FFFF_FFFF_FFFF
  }

  lemma PartIsCountable(part: set<FileId>, whole: set<FileId>, sizes: Sizes)
    requires part <= whole && Countable(whole, sizes)
    ensures Countable(part, sizes)
  {
    SumUnion(part, whole - part, sizes);
    assert part + (whole - part) == whole;
    SumIsNonNegative(whole - part, sizes);
  }

  // ----- the files of a tree -----

  ghost function Files(t: Tree): set<FileId> {
    match t
    case File(id, _) => {id}
    case Link => {}
    case Dir(entries) => set e, id | e in entries && id in Files(e) :: id
  }

  ghost function FilesOf(entries: seq<Tree>): set<FileId> {
    set e, id | e in entries && id in Files(e) :: id
  }

  /** One file has one size, however many names it has. */
  ghost predicate Consistent(t: Tree, sizes: Sizes) {
    match t
    case File(id, size) => size == sizes(id)
    case Link => true
    case Dir(entries) => forall e :: e in entries ==> Consistent(e, sizes)
  }

  lemma FilesSnoc(entries: seq<Tree>, e: Tree)
    ensures FilesOf(entries + [e]) == FilesOf(entries) + Files(e)
  {
    var all := entries + [e];
    assert forall x :: x in all <==> x in entries || x == e;
  }

  lemma EntryFiles(entries: seq<Tree>, i: nat)
    requires i < |entries|
    ensures FilesOf(entries[..i + 1]) <= FilesOf(entries)
  {
    assert forall e :: e in entries[..i + 1] ==> e in entries;
  }

  // ----- the scan -----

  class Scan {
    /** The shared list behind the `seen` pointer. */
    var seen: set<FileId>

    constructor ()
      ensures seen == {}
    {
      seen := {};
    }

    /** One turn of the loop: the running total after this entry, or None on overflow. */
    method AddEntry(entry: Tree, total: int, ghost sizes: Sizes) returns (r: Option<int>)
      requires Consistent(entry, sizes) && 0 <= total <= MAX_INT64
      modifies this
      ensures var more := Files(entry) - old(seen);
        && (r.Some? <==> Countable(more, sizes) && Sum(more, sizes) <= MAX_INT64 - total)
        && (r.Some? ==> r.value == total + Sum(more, sizes) && seen == old(seen) + Files(entry))
      decreases entry, 1
    {
      match entry {
        case Link => return Some(total);
        case Dir(_) =>
          var size := UsageDir(entry, sizes);
          if size.None? || size.value > MAX_INT64 - total { return None; }
          return Some(total + size.value);
        case File(id, size) =>
          OneFile(id, seen, sizes);
          if id in seen { return Some(total); }
          seen := seen + {id};
          if size < 0 || size > MAX_INT64 - total { return None; }
          return Some(total + size);
      }
    }

    /** The total of the files not seen before, or None on overflow. */
    method UsageDir(d: Tree, ghost sizes: Sizes) returns (r: Option<int>)
      requires d.Dir? && Consistent(d, sizes)
      modifies this
      ensures r.Some? <==> Countable(Files(d) - old(seen), sizes)
      ensures r.Some? ==> r.value == Sum(Files(d) - old(seen), sizes) && seen == old(seen) + Files(d)
      decreases d, 0
    {
      ghost var start, done := seen, {};
      var total := 0;
      assert FilesOf(d.entries) == Files(d);
      for i := 0 to |d.entries|
        invariant seen == start + FilesOf(d.entries[..i])
        invariant done == FilesOf(d.entries[..i]) - start
        invariant 0 <= total == Sum(done, sizes) && Countable(done, sizes)
      {
        ghost var more := Files(d.entries[i]) - seen;
        FilesSnoc(d.entries[..i], d.entries[i]);
        assert d.entries[..i + 1] == d.entries[..i] + [d.entries[i]];
        EntryFiles(d.entries, i);
        assert done !! more && done + more == FilesOf(d.entries[..i + 1]) - start;
        AddMore(done, more, Files(d) - start, sizes, total);
        var next := AddEntry(d.entries[i], total, sizes);
        if next.None? { return None; }
        total, done := next.value, done + more;
      }
      assert d.entries[..|d.entries|] == d.entries;
      return Some(total);
    }

    /** Usage of a whole root: the sum over distinct files, failing exactly when that sum overflows. */
    method Usage(d: Tree, ghost sizes: Sizes) returns (r: Option<int>)
      requires d.Dir? && Consistent(d, sizes)
      modifies this
      ensures r.Some? <==> Countable(Files(d), sizes)
      ensures r.Some? ==> r.value == Sum(Files(d), sizes)
    {
      seen := {};
      assert Files(d) - {} == Files(d);
      r := UsageDir(d, sizes);
    }
  }

  /** What adding the files of one entry to a running total amounts to. */
  lemma AddMore(done: set<FileId>, more: set<FileId>, whole: set<FileId>, sizes: Sizes, total: int)
    requires done !! more && done + more <= whole && Countable(done, sizes) && total == Sum(done, sizes)
    ensures Sum(done + more, sizes) == total + Sum(more, sizes)
    ensures Countable(done + more, sizes) <==> Countable(more, sizes) && Sum(more, sizes) <= MAX_INT64 - total
    ensures !Countable(done + more, sizes) ==> !Countable(whole, sizes)
    ensures Countable(done + more, sizes) ==> Sum(done + more, sizes) >= 0
  {
    SumUnion(done, more, sizes);
    if Countable(done + more, sizes) { SumIsNonNegative(done + more, sizes); }
    SumIsNonNegative(done, sizes);
    if Countable(whole, sizes) { PartIsCountable(done + more, whole, sizes); }
    if Countable(done + more, sizes) { PartIsCountable(more, done + more, sizes); }
  }

  lemma OneFile(id: FileId, seen: set<FileId>, sizes: Sizes)
    ensures var more := {id} - seen;
      Sum(more, sizes) == (if id in seen then 0 else sizes(id)) &&
      (Countable(more, sizes) <==> id in seen || 0 <= sizes(id) <= MAX_INT64)
  {
    if id in seen {
      assert {id} - seen == {};
    } else {
      assert {id} - seen == {id} && {id} - {id} == {};
      SumRemove({id}, sizes, id);
    }
  }

  // ----- the result does not depend on how the tree is listed -----

  /** The same tree with the entries of any directory listed in another order, or more than once. */
  ghost predicate Relisted(t: Tree, u: Tree)
    decreases t, 1
  {
    match t
    case File(_, _) => u == t
    case Link => u == t
    case Dir(entries) =>
      u.Dir? && (forall e :: e in entries ==> Appears(e, u.entries)) &&
      (forall f :: f in u.entries ==> Comes(entries, f))
  }

  ghost predicate Appears(e: Tree, fs: seq<Tree>)
    decreases e, 2
  {
    exists f :: f in fs && Relisted(e, f)
  }

  ghost predicate Comes(es: seq<Tree>, f: Tree)
    decreases es, 2
  {
    exists e :: e in es && Relisted(e, f)
  }

  lemma {:induction false} SameFile(t: Tree, u: Tree, id: FileId)
    requires Relisted(t, u)
    ensures id in Files(t) <==> id in Files(u)
    decreases t
  {
    if t.Dir? {
      FileOfDir(t, id);
      FileOfDir(u, id);
      if e :| e in t.entries && id in Files(e) {
        assert Appears(e, u.entries);
        var f :| f in u.entries && Relisted(e, f);
        SameFile(e, f, id);
      }
      if f :| f in u.entries && id in Files(f) {
        assert Comes(t.entries, f);
        var e :| e in t.entries && Relisted(e, f);
        SameFile(e, f, id);
      }
    }
  }

  lemma FileOfDir(t: Tree, id: FileId)
    requires t.Dir?
    ensures id in Files(t) <==> exists e :: e in t.entries && id in Files(e)
  {
  }

  /** Relisting changes neither whether Usage succeeds nor its result. */
  lemma RelistingKeepsUsage(t: Tree, u: Tree, sizes: Sizes)
    requires Relisted(t, u)
    ensures Files(t) == Files(u)
    ensures Countable(Files(t), sizes) == Countable(Files(u), sizes) && Sum(Files(t), sizes) == Sum(Files(u), sizes)
  {
    forall id ensures id in Files(t) <==> id in Files(u) {
      SameFile(t, u, id);
    }
  }
}
