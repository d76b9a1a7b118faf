/**
 RetentionPolicy.Apply: which backups a policy keeps, and why a run that stops
 half-way can simply be repeated. Times and durations are nanoseconds.
 */
module Retention {
  type Time = int

  const HOUR: int := 3600 * 1_000_000_000

  datatype Backup = Backup(id: string, completedAt: Time)

  datatype Policy = Policy(maxBackups: int, maxAge: int, keepDaily: int, keepWeekly: int, keepMonthly: int)

  predicate Meaningful(p: Policy) {
    p.maxBackups >= 0 && p.maxAge >= 0 && p.keepDaily >= 0 && p.keepWeekly >= 0 && p.keepMonthly >= 0
  }

  // ----- newest first -----

  /** sort.SliceStable by CompletedAt, newest first: equal times keep their order. */
  function Sort(bs: seq<Backup>): (r: seq<Backup>)
    ensures |r| == |bs|
  {
    if bs == [] then [] else Insert(bs[|bs| - 1], Sort(bs[..|bs| - 1]))
  }

  function Insert(b: Backup, bs: seq<Backup>): (r: seq<Backup>)
    ensures |r| == |bs| + 1
  {
    if bs != [] && bs[0].completedAt >= b.completedAt then [bs[0]] + Insert(b, bs[1..]) else [b] + bs
  }

  ghost predicate NewestFirst(bs: seq<Backup>) {
    forall i, j :: 0 <= i < j < |bs| ==> bs[i].completedAt >= bs[j].completedAt
  }

  lemma {:induction false} InsertAdds(b: Backup, bs: seq<Backup>)
    ensures multiset(Insert(b, bs)) == multiset(bs) + multiset{b}
  {
    if bs != [] && bs[0].completedAt >= b.completedAt {
      InsertAdds(b, bs[1..]);
      assert bs == [bs[0]] + bs[1..];
    }
  }

  lemma {:induction false} InsertMembers(b: Backup, bs: seq<Backup>)
    ensures forall x :: x in Insert(b, bs) <==> x in bs || x == b
  {
    if bs != [] && bs[0].completedAt >= b.completedAt {
      InsertMembers(b, bs[1..]);
      assert bs == [bs[0]] + bs[1..];
    }
  }

  lemma {:induction false} InsertKeepsOrder(b: Backup, bs: seq<Backup>)
    requires NewestFirst(bs)
    ensures NewestFirst(Insert(b, bs))
  {
    if bs != [] && bs[0].completedAt >= b.completedAt {
      InsertKeepsOrder(b, bs[1..]);
      InsertMembers(b, bs[1..]);
      var rest := Insert(b, bs[1..]);
      assert forall x :: x in rest ==> x.completedAt <= bs[0].completedAt;
      assert forall j :: 0 <= j < |rest| ==> rest[j] in rest;
    }
  }

  lemma {:induction false} SortIsPermutation(bs: seq<Backup>)
    ensures multiset(Sort(bs)) == multiset(bs)
  {
    if bs != [] {
      var n := |bs| - 1;
      SortIsPermutation(bs[..n]);
      InsertAdds(bs[n], Sort(bs[..n]));
      assert bs == bs[..n] + [bs[n]];
    }
  }

  lemma {:induction false} SortOrders(bs: seq<Backup>)
    ensures NewestFirst(Sort(bs))
  {
    if bs != [] {
      SortOrders(bs[..|bs| - 1]);
      InsertKeepsOrder(bs[|bs| - 1], Sort(bs[..|bs| - 1]));
    }
  }

  /** The sorted list is a permutation, newest first. */
  lemma SortIsNewestFirst(bs: seq<Backup>)
    ensures NewestFirst(Sort(bs)) && multiset(Sort(bs)) == multiset(bs)
  {
    SortIsPermutation(bs);
    SortOrders(bs);
  }

  /** The backups completed at one time, in the order of the listing. */
  function CompletedAt(bs: seq<Backup>, t: Time): seq<Backup> {
    if bs == [] then [] else (if bs[0].completedAt == t then [bs[0]] else []) + CompletedAt(bs[1..], t)
  }

  lemma {:induction false} CompletedSnoc(bs: seq<Backup>, b: Backup, t: Time)
    ensures CompletedAt(bs + [b], t) == CompletedAt(bs, t) + if b.completedAt == t then [b] else []
  {
    if bs == [] {
      assert bs + [b] == [b] && [b][1..] == [];
    } else {
      CompletedSnoc(bs[1..], b, t);
      assert (bs + [b])[1..] == bs[1..] + [b];
    }
  }

  lemma {:induction false} NoneCompleted(bs: seq<Backup>, t: Time)
    requires forall b :: b in bs ==> b.completedAt != t
    ensures CompletedAt(bs, t) == []
  {
    if bs != [] {
      NoneCompleted(bs[1..], t);
    }
  }

  lemma {:induction false} InsertIsLast(b: Backup, bs: seq<Backup>, t: Time)
    requires NewestFirst(bs)
    ensures CompletedAt(Insert(b, bs), t) == CompletedAt(bs, t) + if b.completedAt == t then [b] else []
  {
    var r := Insert(b, bs);
    if bs != [] && bs[0].completedAt >= b.completedAt {
      InsertIsLast(b, bs[1..], t);
      assert r[1..] == Insert(b, bs[1..]);
    } else {
      assert r[1..] == bs;
      if b.completedAt == t { NoneCompleted(bs, t); }
    }
  }

  /** Backups completed at the same time keep their order. */
  lemma {:induction false} SortIsStable(bs: seq<Backup>, t: Time)
    ensures CompletedAt(Sort(bs), t) == CompletedAt(bs, t)
  {
    if bs != [] {
      var n := |bs| - 1;
      SortIsStable(bs[..n], t);
      SortOrders(bs[..n]);
      InsertIsLast(bs[n], Sort(bs[..n]), t);
      CompletedSnoc(bs[..n], bs[n], t);
      assert bs == bs[..n] + [bs[n]];
    }
  }

  // ----- listing part of the backups -----

  function Ids(bs: seq<Backup>): set<string> {
    set b | b in bs :: b.id
  }

  /** The backups whose id is in the set, in the same order. */
  function Only(bs: seq<Backup>, ids: set<string>): seq<Backup> {
    if bs == [] then []
    else (if bs[0].id in ids then [bs[0]] else []) + Only(bs[1..], ids)
  }

  lemma {:induction false} OnlySnoc(bs: seq<Backup>, b: Backup, ids: set<string>)
    ensures Only(bs + [b], ids) == Only(bs, ids) + if b.id in ids then [b] else []
  {
    if bs == [] {
      assert bs + [b] == [b] && [b][1..] == [];
    } else {
      OnlySnoc(bs[1..], b, ids);
      assert (bs + [b])[1..] == bs[1..] + [b];
    }
  }

  lemma {:induction false} MembersOfOnly(bs: seq<Backup>, ids: set<string>)
    ensures forall b :: b in Only(bs, ids) <==> b in bs && b.id in ids
  {
    if bs != [] {
      MembersOfOnly(bs[1..], ids);
      assert forall b :: b in bs <==> b == bs[0] || b in bs[1..];
    }
  }

  lemma {:induction false} InsertOnly(b: Backup, bs: seq<Backup>, ids: set<string>)
    requires NewestFirst(bs)
    ensures Only(Insert(b, bs), ids) == if b.id in ids then Insert(b, Only(bs, ids)) else Only(bs, ids)
  {
    if bs != [] && bs[0].completedAt >= b.completedAt {
      InsertOnly(b, bs[1..], ids);
      var r := Insert(b, bs);
      assert r[1..] == Insert(b, bs[1..]);
      if bs[0].id in ids {
        var o := Only(bs, ids);
        assert o[1..] == Only(bs[1..], ids) && o[0] == bs[0];
      } else if b.id in ids {
        assert Only(bs, ids) == Only(bs[1..], ids);
      }
    } else {
      var r := Insert(b, bs);
      assert r[1..] == bs;
      MembersOfOnly(bs, ids);
      var o := Only(bs, ids);
      if o != [] {
        assert o[0] in bs;
        assert o[0].completedAt < b.completedAt;
      }
    }
  }

  /** Stability: sorting what is left of a listing is what is left of the sorted listing. */
  lemma {:induction false} SortOnly(bs: seq<Backup>, ids: set<string>)
    ensures Sort(Only(bs, ids)) == Only(Sort(bs), ids)
  {
    if bs != [] {
      var n := |bs| - 1;
      var front, b := bs[..n], bs[n];
      assert bs == front + [b];
      OnlySnoc(front, b, ids);
      SortOnly(front, ids);
      SortIsNewestFirst(front);
      InsertOnly(b, Sort(front), ids);
      if b.id in ids {
        var o := Only(front, ids) + [b];
        assert o[..|o| - 1] == Only(front, ids);
      } else {
        assert Only(front, ids) + [] == Only(front, ids);
      }
    }
  }

  // ----- the rules -----

  function Age(b: Backup, now: Time): int {
    now - b.completedAt
  }

  /** int(age.Hours()), truncated toward zero. */
  function Hours(age: int): int {
    if age >= 0 then age / HOUR else -((-age) / HOUR)
  }

  datatype Period = Period(lo: int, hi: int, max: int)

  function Periods(p: Policy): seq<Period> {
    [Period(0, 24, p.keepDaily), Period(24, 168, p.keepWeekly), Period(168, 720, p.keepMonthly)]
  }

  predicate InPeriod(b: Backup, now: Time, q: Period) {
    q.lo <= Hours(Age(b, now)) < q.hi
  }

  predicate Young(p: Policy, now: Time, b: Backup) {
    p.maxAge == 0 || Age(b, now) < p.maxAge
  }

  function YoungIds(p: Policy, now: Time, bs: seq<Backup>): set<string> {
    set b | b in bs && Young(p, now, b) :: b.id
  }

  /** The newest q.max backups of the period. */
  function PeriodIds(now: Time, bs: seq<Backup>, q: Period, max: int): set<string> {
    if bs == [] || max <= 0 then {}
    else if InPeriod(bs[0], now, q) then {bs[0].id} + PeriodIds(now, bs[1..], q, max - 1)
    else PeriodIds(now, bs[1..], q, max)
  }

  function AllPeriodIds(now: Time, bs: seq<Backup>, qs: seq<Period>): set<string> {
    if qs == [] then {}
    else AllPeriodIds(now, bs, qs[..|qs| - 1]) + PeriodIds(now, bs, qs[|qs| - 1], qs[|qs| - 1].max)
  }

  function Newest(bs: seq<Backup>, n: int): set<string> {
    if bs == [] || n <= 0 then {} else {bs[0].id} + Newest(bs[1..], n - 1)
  }

  /** What the age and period rules ask for, before the limit. */
  function Wanted(p: Policy, now: Time, bs: seq<Backup>): set<string> {
    YoungIds(p, now, bs) + AllPeriodIds(now, bs, Periods(p))
  }

  /** The kept ids of a sorted, non-empty listing. */
  function KeptOfSorted(p: Policy, now: Time, bs: seq<Backup>): set<string>
    requires bs != []
  {
    (if p.maxBackups > 0 then Wanted(p, now, bs) * Newest(bs, p.maxBackups) else Wanted(p, now, bs)) + {bs[0].id}
  }

  function Kept(p: Policy, now: Time, listing: seq<Backup>): set<string> {
    if listing == [] then {} else KeptOfSorted(p, now, Sort(listing))
  }

  // ----- Apply -----

  class Store {
    var backups: seq<Backup>
    /** For now no delete fails. */
    var works: bool

    constructor (bs: seq<Backup>, w: bool)
      ensures backups == bs && works == w
    {
      backups, works := bs, w;
    }

    method Delete(id: string) returns (ok: bool)
      modifies this`backups
      ensures backups == if ok then Only(old(backups), Ids(old(backups)) - {id}) else old(backups)
      ensures works ==> ok
    {
      if !works {
        if * { return false; }
      }
      backups := Only(backups, Ids(backups) - {id});
      return true;
    }
  }

  method KeepYoung(p: Policy, now: Time, bs: seq<Backup>) returns (keep: set<string>)
    requires p.maxAge >= 0
    ensures keep == YoungIds(p, now, bs)
  {
    keep := {};
    for i := 0 to |bs|
      invariant keep == YoungIds(p, now, bs[..i])
    {
      assert bs[..i + 1] == bs[..i] + [bs[i]];
      if p.maxAge > 0 {
        if now - bs[i].completedAt < p.maxAge { keep := keep + {bs[i].id}; }
      } else {
        keep := keep + {bs[i].id};
      }
    }
    assert bs[..|bs|] == bs;
  }

  method KeepPeriod(now: Time, bs: seq<Backup>, q: Period, already: set<string>) returns (keep: set<string>)
    ensures keep == already + PeriodIds(now, bs, q, q.max)
  {
    keep := already;
    if q.max <= 0 { return; }
    var count := 0;
    var i := 0;
    while i < |bs|
      invariant 0 <= i <= |bs| && count < q.max
      invariant already + PeriodIds(now, bs, q, q.max) == keep + PeriodIds(now, bs[i..], q, q.max - count)
    {
      assert bs[i..][1..] == bs[i + 1..];
      var ageHours := Hours(now - bs[i].completedAt);
      if ageHours >= q.lo && ageHours < q.hi {
        keep := keep + {bs[i].id};
        count := count + 1;
        if count >= q.max { return; }
      }
      i := i + 1;
    }
  }

  method KeepPeriods(p: Policy, now: Time, bs: seq<Backup>, already: set<string>) returns (keep: set<string>)
    ensures keep == already + AllPeriodIds(now, bs, Periods(p))
  {
    keep := already;
    var qs := Periods(p);
    for i := 0 to |qs|
      invariant keep == already + AllPeriodIds(now, bs, qs[..i])
    {
      assert qs[..i + 1][..i] == qs[..i];
      keep := KeepPeriod(now, bs, qs[i], keep);
    }
    assert qs[..|qs|] == qs;
  }

  lemma {:induction false} NewestIsPrefix(bs: seq<Backup>, n: nat)
    ensures Newest(bs, n) == set i | 0 <= i < |bs| && i < n :: bs[i].id
  {
    if bs != [] && n > 0 {
      NewestIsPrefix(bs[1..], n - 1);
      forall id ensures id in Newest(bs, n) <==> id in (set i | 0 <= i < |bs| && i < n :: bs[i].id) {
        if i :| 0 <= i < |bs| && i < n && bs[i].id == id {
          assert i > 0 ==> bs[1..][i - 1].id == id;
        }
        if id in Newest(bs[1..], n - 1) {
          var i :| 0 <= i < |bs| - 1 && i < n - 1 && bs[1..][i].id == id;
          assert bs[i + 1].id == id;
        }
      }
    }
  }

  method KeepNewest(p: Policy, bs: seq<Backup>, keep: set<string>) returns (r: set<string>)
    ensures r == if p.maxBackups > 0 then keep * Newest(bs, p.maxBackups) else keep
  {
    if p.maxBackups <= 0 { return keep; }
    var maxKeep: set<string> := {};
    for i := 0 to |bs|
      invariant maxKeep == set j | 0 <= j < i && j < p.maxBackups :: bs[j].id
    {
      if i < p.maxBackups { maxKeep := maxKeep + {bs[i].id}; }
    }
    NewestIsPrefix(bs, p.maxBackups);
    r := keep;
    var todo := keep;
    while todo != {}
      invariant todo <= keep && r == (keep * maxKeep) + todo
    {
      var id :| id in todo;
      todo := todo - {id};
      if id !in maxKeep { r := r - {id}; }
    }
  }

  method KeepSet(p: Policy, now: Time, bs: seq<Backup>) returns (keep: set<string>)
    requires bs != [] && p.maxAge >= 0
    ensures keep == KeptOfSorted(p, now, bs)
  {
    keep := KeepYoung(p, now, bs);
    keep := KeepPeriods(p, now, bs, keep);
    keep := KeepNewest(p, bs, keep);
    keep := keep + {bs[0].id};
  }

  datatype Outcome = Done | Rejected | DeleteFailed

  /** Something may be left over, but nothing kept is missing. */
  ghost predicate Partial(kept: set<string>, before: seq<Backup>, after: seq<Backup>) {
    exists left :: kept <= left && after == Only(before, left)
  }

  /** What is left once one more backup has been looked at. */
  lemma OneLess(all: set<string>, done: set<string>, keep: set<string>, id: string)
    ensures all - (done + {id} - keep) == if id in keep then all - (done - keep) else all - (done - keep) - {id}
    ensures keep * all <= all - (done - keep)
  {
  }

  /** The deleting loop over a sorted listing of the store. */
  method DeleteUnkept(store: Store, bs: seq<Backup>, keep: set<string>) returns (ok: bool)
    requires Ids(bs) == Ids(store.backups)
    modifies store`backups
    ensures store.works ==> ok
    ensures ok ==> store.backups == Only(old(store.backups), keep)
    ensures !ok ==> Partial(keep * Ids(bs), old(store.backups), store.backups)
  {
    ghost var before, left := store.backups, Ids(bs);
    OnlyAll(before, left);
    for i := 0 to |bs|
      invariant left == Ids(bs) - (Ids(bs[..i]) - keep)
      invariant store.backups == Only(before, left)
    {
      IdsSnoc(bs, i);
      OneLess(Ids(bs), Ids(bs[..i]), keep, bs[i].id);
      if bs[i].id !in keep {
        ok := store.Delete(bs[i].id);
        if !ok { return; }
        WithoutOnly(before, left, bs[i].id);
        left := left - {bs[i].id};
      }
    }
    assert bs[..|bs|] == bs;
    OnlyAgrees(before, left, keep);
    return true;
  }

  lemma IdsSnoc(bs: seq<Backup>, i: nat)
    requires i < |bs|
    ensures Ids(bs[..i + 1]) == Ids(bs[..i]) + {bs[i].id} && bs[i].id in Ids(bs)
  {
    assert bs[..i + 1] == bs[..i] + [bs[i]];
  }

  /** Deletes only what is not kept; a failed delete stops the run with every kept backup still there. */
  method Apply(p: Policy, now: Time, store: Store) returns (r: Outcome)
    modifies store`backups
    ensures r == Rejected <==>
      p.maxBackups < 0 || p.maxAge < 0 || p.keepDaily < 0 || p.keepWeekly < 0 || p.keepMonthly < 0
    ensures store.works && Meaningful(p) ==> r == Done
    ensures r == Rejected ==> store.backups == old(store.backups)
    ensures r == Done ==> store.backups == Only(old(store.backups), Kept(p, now, old(store.backups)))
    ensures r == DeleteFailed ==> Partial(Kept(p, now, old(store.backups)), old(store.backups), store.backups)
  {
    if !Meaningful(p) { return Rejected; }
    if store.backups == [] { return Done; }
    var bs := Sort(store.backups);
    var keep := KeepSet(p, now, bs);
    KeptAreListed(p, now, store.backups);
    SortedIds(store.backups);
    assert keep * Ids(bs) == keep;
    var ok := DeleteUnkept(store, bs, keep);
    r := if ok then Done else DeleteFailed;
  }

  lemma SortedIds(bs: seq<Backup>)
    ensures Ids(Sort(bs)) == Ids(bs)
  {
    SortIsNewestFirst(bs);
    forall b ensures b in Sort(bs) <==> b in bs {
      assert b in multiset(Sort(bs)) <==> b in multiset(bs);
    }
  }

  lemma {:induction false} OnlyAgrees(bs: seq<Backup>, one: set<string>, two: set<string>)
    requires forall b :: b in bs ==> (b.id in one <==> b.id in two)
    ensures Only(bs, one) == Only(bs, two)
  {
    if bs != [] {
      assert bs[0] in bs && forall b :: b in bs[1..] ==> b in bs;
      OnlyAgrees(bs[1..], one, two);
    }
  }

  lemma {:induction false} OnlyAll(bs: seq<Backup>, ids: set<string>)
    requires forall b :: b in bs ==> b.id in ids
    ensures Only(bs, ids) == bs
  {
    if bs != [] {
      assert bs[0] in bs && forall b :: b in bs[1..] ==> b in bs;
      OnlyAll(bs[1..], ids);
      assert bs == [bs[0]] + bs[1..];
    }
  }

  lemma {:induction false} OnlyOnly(bs: seq<Backup>, one: set<string>, two: set<string>)
    ensures Only(Only(bs, one), two) == Only(bs, one * two)
  {
    if bs != [] {
      OnlyOnly(bs[1..], one, two);
      if bs[0].id in one {
        var o := Only(bs, one);
        assert o[0] == bs[0] && o[1..] == Only(bs[1..], one);
      } else {
        assert Only(bs, one) == Only(bs[1..], one);
      }
    }
  }

  lemma WithoutOnly(bs: seq<Backup>, ids: set<string>, id: string)
    ensures var o := Only(bs, ids); Only(o, Ids(o) - {id}) == Only(bs, ids - {id})
  {
    var o := Only(bs, ids);
    MembersOfOnly(bs, ids);
    OnlyOnly(bs, ids, Ids(o) - {id});
    OnlyAgrees(bs, ids * (Ids(o) - {id}), ids - {id});
  }

  // ----- what the kept set looks like -----

  lemma {:induction false} PeriodIdsAreListed(now: Time, bs: seq<Backup>, q: Period, max: int)
    ensures PeriodIds(now, bs, q, max) <= Ids(bs)
  {
    if bs != [] && max > 0 {
      PeriodIdsAreListed(now, bs[1..], q, max - 1);
      PeriodIdsAreListed(now, bs[1..], q, max);
      TailIds(bs);
    }
  }

  lemma TailIds(bs: seq<Backup>)
    requires bs != []
    ensures Ids(bs) == {bs[0].id} + Ids(bs[1..])
  {
    assert forall b :: b in bs <==> b == bs[0] || b in bs[1..];
  }

  lemma {:induction false} AllPeriodIdsAreListed(now: Time, bs: seq<Backup>, qs: seq<Period>)
    ensures AllPeriodIds(now, bs, qs) <= Ids(bs)
  {
    if qs != [] {
      AllPeriodIdsAreListed(now, bs, qs[..|qs| - 1]);
      PeriodIdsAreListed(now, bs, qs[|qs| - 1], qs[|qs| - 1].max);
    }
  }

  lemma KeptAreListed(p: Policy, now: Time, bs: seq<Backup>)
    ensures Kept(p, now, bs) <= Ids(bs)
  {
    if bs != [] {
      SortedIds(bs);
      AllPeriodIdsAreListed(now, Sort(bs), Periods(p));
      assert Sort(bs)[0] in Sort(bs);
    }
  }

  lemma {:induction false} NewestIsSmall(bs: seq<Backup>, n: nat)
    ensures |Newest(bs, n)| <= n
  {
    if bs != [] && n > 0 {
      NewestIsSmall(bs[1..], n - 1);
      SizeOfAdd(bs[0].id, Newest(bs[1..], n - 1));
    }
  }

  lemma SizeOfAdd(x: string, s: set<string>)
    ensures |{x} + s| <= |s| + 1
  {
    if x in s { assert {x} + s == s; }
  }

  lemma SizeOfSubset(s: set<string>, t: set<string>)
    requires s <= t
    ensures |s| <= |t|
  {
    assert t == s + (t - s);
  }

  /** With a positive limit at most that many backups are kept; the newest one always is. */
  lemma KeptIsBounded(p: Policy, now: Time, bs: seq<Backup>)
    requires bs != [] && p.maxBackups > 0
    ensures |Kept(p, now, bs)| <= p.maxBackups && Sort(bs)[0].id in Kept(p, now, bs)
  {
    var sorted := Sort(bs);
    assert Kept(p, now, bs) <= Newest(sorted, p.maxBackups);
    NewestIsSmall(sorted, p.maxBackups);
    SizeOfSubset(Kept(p, now, bs), Newest(sorted, p.maxBackups));
  }

  // ----- running again on what is left -----

  lemma {:induction false} PeriodKeepsRank(now: Time, bs: seq<Backup>, q: Period, max: int, more: int, ids: set<string>)
    requires max <= more
    ensures PeriodIds(now, bs, q, max) * ids <= PeriodIds(now, Only(bs, ids), q, more)
  {
    if bs != [] && max > 0 {
      var b := bs[0];
      var used := if InPeriod(b, now, q) then 1 else 0;
      var rest := PeriodIds(now, bs[1..], q, max - used);
      assert PeriodIds(now, bs, q, max) == rest + if used == 1 then {b.id} else {};
      if b.id in ids {
        var left := Only(bs, ids);
        assert left[1..] == Only(bs[1..], ids) && left[0] == b;
        PeriodKeepsRank(now, bs[1..], q, max - used, more - used, ids);
      } else {
        assert Only(bs, ids) == Only(bs[1..], ids);
        PeriodKeepsRank(now, bs[1..], q, max - used, more, ids);
      }
    }
  }

  lemma {:induction false} PeriodsKeepRank(now: Time, bs: seq<Backup>, qs: seq<Period>, ids: set<string>)
    ensures AllPeriodIds(now, bs, qs) * ids <= AllPeriodIds(now, Only(bs, ids), qs)
  {
    if qs != [] {
      var q := qs[|qs| - 1];
      PeriodsKeepRank(now, bs, qs[..|qs| - 1], ids);
      PeriodKeepsRank(now, bs, q, q.max, q.max, ids);
    }
  }

  lemma {:induction false} NewestKeepsRank(bs: seq<Backup>, n: int, more: int, ids: set<string>)
    requires n <= more
    ensures Newest(bs, n) * ids <= Newest(Only(bs, ids), more)
  {
    if bs != [] && n > 0 {
      if bs[0].id in ids {
        assert Only(bs, ids)[1..] == Only(bs[1..], ids);
        NewestKeepsRank(bs[1..], n - 1, more - 1, ids);
      } else {
        assert Only(bs, ids) == Only(bs[1..], ids);
        NewestKeepsRank(bs[1..], n - 1, more, ids);
      }
    }
  }

  /** Whatever is left, as long as nothing kept is missing, running again keeps all of it. */
  lemma RerunKeeps(p: Policy, now: Time, bs: seq<Backup>, ids: set<string>)
    requires Kept(p, now, bs) <= ids
    ensures Kept(p, now, bs) <= Kept(p, now, Only(bs, ids))
  {
    if bs != [] {
      var sorted := Sort(bs);
      SortOnly(bs, ids);
      MembersOfOnly(sorted, ids);
      assert Only(sorted, ids)[0] == sorted[0];
      PeriodsKeepRank(now, sorted, Periods(p), ids);
      NewestKeepsRank(sorted, p.maxBackups, p.maxBackups, ids);
      assert sorted[0] in Only(sorted, ids);
      SortIsNewestFirst(Only(bs, ids));
      assert Only(bs, ids) != [];
      forall id | id in YoungIds(p, now, sorted) && id in ids ensures id in YoungIds(p, now, Only(sorted, ids)) {
        var b :| b in sorted && Young(p, now, b) && b.id == id;
        assert b in Only(sorted, ids);
      }
    }
  }

  /** On exactly the kept backups a further run deletes nothing. */
  lemma KeptIsStable(p: Policy, now: Time, bs: seq<Backup>)
    ensures var kept := Only(bs, Kept(p, now, bs));
      Kept(p, now, kept) == Kept(p, now, bs) && Only(kept, Kept(p, now, kept)) == kept
  {
    var ids := Kept(p, now, bs);
    var kept := Only(bs, ids);
    RerunKeeps(p, now, bs, ids);
    KeptAreListed(p, now, kept);
    MembersOfOnly(bs, ids);
    assert Ids(kept) <= ids;
    OnlyAll(kept, Kept(p, now, kept));
  }

  /** So a run stopped by a failed delete can be repeated without losing a kept backup. */
  lemma RetryIsSafe(p: Policy, now: Time, before: seq<Backup>, after: seq<Backup>)
    requires Partial(Kept(p, now, before), before, after)
    ensures Kept(p, now, before) <= Kept(p, now, after)
    ensures Kept(p, now, before) <= Ids(Only(after, Kept(p, now, after)))
  {
    var left :| Kept(p, now, before) <= left && after == Only(before, left);
    RerunKeeps(p, now, before, left);
    KeptAreListed(p, now, before);
    MembersOfOnly(before, left);
    MembersOfOnly(after, Kept(p, now, after));
    forall id | id in Kept(p, now, before) ensures id in Ids(Only(after, Kept(p, now, after))) {
      var b :| b in before && b.id == id;
      assert b in after;
    }
  }

  // ----- when running again agrees -----

  /** The limit cuts off nothing wanted, or leaves no room for what it cut off. */
  ghost predicate LimitIsIdle(p: Policy, now: Time, bs: seq<Backup>)
    requires bs != []
  {
    var sorted := Sort(bs);
    || p.maxBackups <= 0
    || Wanted(p, now, sorted) <= Newest(sorted, p.maxBackups)
    || Newest(sorted, p.maxBackups) <= Wanted(p, now, sorted) + {sorted[0].id}
  }

  lemma {:induction false} PeriodUnchanged(now: Time, bs: seq<Backup>, q: Period, max: int, ids: set<string>)
    requires PeriodIds(now, bs, q, max) <= ids
    ensures PeriodIds(now, Only(bs, ids), q, max) == PeriodIds(now, bs, q, max)
  {
    if bs != [] && max > 0 {
      var used := if InPeriod(bs[0], now, q) then 1 else 0;
      PeriodUnchanged(now, bs[1..], q, max - used, ids);
      if bs[0].id in ids {
        assert Only(bs, ids)[1..] == Only(bs[1..], ids);
      } else {
        assert Only(bs, ids) == Only(bs[1..], ids);
      }
    }
  }

  lemma {:induction false} PeriodsUnchanged(now: Time, bs: seq<Backup>, qs: seq<Period>, ids: set<string>)
    requires AllPeriodIds(now, bs, qs) <= ids
    ensures AllPeriodIds(now, Only(bs, ids), qs) == AllPeriodIds(now, bs, qs)
  {
    if qs != [] {
      var q := qs[|qs| - 1];
      PeriodsUnchanged(now, bs, qs[..|qs| - 1], ids);
      PeriodUnchanged(now, bs, q, q.max, ids);
    }
  }

  /** What is wanted, and not deleted, is still wanted; nothing else is, unless something wanted was deleted. */
  lemma WantedAfter(p: Policy, now: Time, bs: seq<Backup>, ids: set<string>)
    ensures Wanted(p, now, bs) * ids <= Wanted(p, now, Only(bs, ids))
    ensures Wanted(p, now, bs) <= ids ==> Wanted(p, now, Only(bs, ids)) == Wanted(p, now, bs)
  {
    MembersOfOnly(bs, ids);
    PeriodsKeepRank(now, bs, Periods(p), ids);
    forall id | id in YoungIds(p, now, bs) && id in ids ensures id in YoungIds(p, now, Only(bs, ids)) {
      var b :| b in bs && Young(p, now, b) && b.id == id;
      assert b in Only(bs, ids);
    }
    if Wanted(p, now, bs) <= ids {
      PeriodsUnchanged(now, bs, Periods(p), ids);
      forall id | id in YoungIds(p, now, Only(bs, ids)) ensures id in YoungIds(p, now, bs) {
        var b :| b in Only(bs, ids) && Young(p, now, b) && b.id == id;
        assert b in bs;
      }
    }
  }

  lemma {:induction false} NewestUnchanged(bs: seq<Backup>, n: int, ids: set<string>)
    requires Newest(bs, n) <= ids
    ensures Newest(Only(bs, ids), n) == Newest(bs, n)
  {
    if bs != [] && n > 0 {
      assert bs[0].id in ids && Only(bs, ids)[1..] == Only(bs[1..], ids);
      NewestUnchanged(bs[1..], n - 1, ids);
    }
  }

  /** Then a retry keeps exactly the same backups, whichever were deleted before it. */
  lemma RetryAgrees(p: Policy, now: Time, bs: seq<Backup>, ids: set<string>)
    requires bs != [] && LimitIsIdle(p, now, bs) && Kept(p, now, bs) <= ids
    ensures Kept(p, now, Only(bs, ids)) == Kept(p, now, bs)
  {
    var sorted := Sort(bs);
    RerunKeeps(p, now, bs, ids);
    SortOnly(bs, ids);
    assert sorted[0].id in ids && Only(sorted, ids)[0] == sorted[0];
    SortIsNewestFirst(Only(bs, ids));
    assert Only(bs, ids) != [];
    if p.maxBackups > 0 && Newest(sorted, p.maxBackups) <= Kept(p, now, bs) {
      NewestUnchanged(sorted, p.maxBackups, ids);
    } else {
      WantedAfter(p, now, sorted, ids);
    }
  }

  /** Otherwise the room left by a deleted backup can be taken by one that was cut off. */
  lemma RetryCanKeepMore(p: Policy, now: Time, bs: seq<Backup>) returns (ids: set<string>)
    requires bs != [] && |Ids(bs)| == |bs| && !LimitIsIdle(p, now, bs)
    ensures Kept(p, now, bs) <= ids && Kept(p, now, Only(bs, ids)) != Kept(p, now, bs)
  {
    var sorted, kept := Sort(bs), Kept(p, now, bs);
    var newest := Newest(sorted, p.maxBackups);
    var x :| x in Wanted(p, now, sorted) && x !in newest;
    var y :| y in newest && y !in kept;
    ids := kept + {x};
    NewestIsSmall(sorted, p.maxBackups);
    RoomForOne(kept, newest, x, y);
    SortedIds(bs);
    FewAreListed(sorted, ids);
    CutOffIsKept(p, now, bs, ids, x);
  }

  lemma RoomForOne(kept: set<string>, newest: set<string>, x: string, y: string)
    requires kept <= newest && y in newest && y !in kept
    ensures |kept + {x}| <= |newest|
  {
    SizeOfSubset(kept, newest - {y});
    SizeOfAdd(x, kept);
    assert {x} + kept == kept + {x};
  }

  /** A wanted backup is kept once few enough are left. */
  lemma CutOffIsKept(p: Policy, now: Time, bs: seq<Backup>, ids: set<string>, x: string)
    requires bs != [] && x in ids && x in Wanted(p, now, Sort(bs)) && |Only(Sort(bs), ids)| <= p.maxBackups
    ensures x in Kept(p, now, Only(bs, ids))
  {
    var sorted := Sort(bs);
    SortOnly(bs, ids);
    SortIsNewestFirst(Only(bs, ids));
    WantedAfter(p, now, sorted, ids);
    WantedAreListed(p, now, sorted, x);
    MembersOfOnly(sorted, ids);
    ShortIsNewest(Only(sorted, ids), p.maxBackups);
    var b :| b in sorted && b.id == x;
    assert b in Only(sorted, ids);
  }

  lemma WantedAreListed(p: Policy, now: Time, bs: seq<Backup>, id: string)
    requires id in Wanted(p, now, bs)
    ensures id in Ids(bs)
  {
    AllPeriodIdsAreListed(now, bs, Periods(p));
  }

  lemma {:induction false} ShortIsNewest(bs: seq<Backup>, n: int)
    requires |bs| <= n
    ensures Newest(bs, n) == Ids(bs)
  {
    if bs != [] {
      ShortIsNewest(bs[1..], n - 1);
      TailIds(bs);
    }
  }

  /** With distinct ids, no more backups than ids are left. */
  lemma {:induction false} FewAreListed(bs: seq<Backup>, ids: set<string>)
    requires |Ids(bs)| == |bs|
    ensures |Only(bs, ids)| <= |ids|
    decreases |bs|
  {
    if bs != [] {
      var id, rest := bs[0].id, bs[1..];
      TailIds(bs);
      IdsAreFew(rest);
      SizeOfAdd(id, Ids(rest));
      assert id in Ids(rest) ==> {id} + Ids(rest) == Ids(rest);
      OnlyAgrees(rest, ids, ids - {id});
      FewAreListed(rest, ids - {id});
      if id in ids {
        assert ids == {id} + (ids - {id});
      } else {
        assert ids - {id} == ids;
      }
    }
  }

  lemma {:induction false} IdsAreFew(bs: seq<Backup>)
    ensures |Ids(bs)| <= |bs|
  {
    if bs != [] {
      TailIds(bs);
      IdsAreFew(bs[1..]);
      SizeOfAdd(bs[0].id, Ids(bs[1..]));
    }
  }

  /** With distinct ids, every retry agrees exactly when the limit is idle. */
  lemma RetryAgreesIff(p: Policy, now: Time, bs: seq<Backup>)
    requires bs != [] && |Ids(bs)| == |bs|
    ensures LimitIsIdle(p, now, bs) <==>
      forall ids :: Kept(p, now, bs) <= ids ==> Kept(p, now, Only(bs, ids)) == Kept(p, now, bs)
  {
    if LimitIsIdle(p, now, bs) {
      forall ids | Kept(p, now, bs) <= ids ensures Kept(p, now, Only(bs, ids)) == Kept(p, now, bs) {
        RetryAgrees(p, now, bs, ids);
      }
    } else {
      var ids := RetryCanKeepMore(p, now, bs);
    }
  }

  lemma {:induction false} InsertLast(b: Backup, bs: seq<Backup>)
    requires forall x :: x in bs ==> x.completedAt >= b.completedAt
    ensures Insert(b, bs) == bs + [b]
  {
    if bs != [] {
      assert bs[0] in bs;
      InsertLast(b, bs[1..]);
      assert [bs[0]] + (bs[1..] + [b]) == bs + [b];
    }
  }

  lemma {:induction false} SortedStays(bs: seq<Backup>)
    requires NewestFirst(bs)
    ensures Sort(bs) == bs
  {
    if bs != [] {
      var n := |bs| - 1;
      SortedStays(bs[..n]);
      InsertLast(bs[n], bs[..n]);
      assert bs[..n] + [bs[n]] == bs;
    }
  }

  lemma PeriodsOfOne(now: Time, bs: seq<Backup>, weekly: int)
    ensures var p := Policy(2, 1, 0, weekly, 0);
      AllPeriodIds(now, bs, Periods(p)) == PeriodIds(now, bs, Period(24, 168, weekly), weekly)
  {
    var qs := Periods(Policy(2, 1, 0, weekly, 0));
    assert qs[..2] == [qs[0], qs[1]] && qs[..2][..1] == [qs[0]] && [qs[0]][..0] == [];
    assert AllPeriodIds(now, bs, [qs[0]]) == {};
    assert AllPeriodIds(now, bs, qs[..2]) == PeriodIds(now, bs, qs[1], weekly);
  }

  lemma NewestTwo(bs: seq<Backup>)
    requires |bs| >= 2
    ensures Newest(bs, 2) == {bs[0].id, bs[1].id}
  {
    assert Newest(bs[1..], 1) == {bs[1].id} + Newest(bs[1..][1..], 0);
  }

  /** Only the last of the listed backups is old enough to be the weekly one. */
  lemma {:induction false} OldestIsWeekly(now: Time, bs: seq<Backup>, q: Period)
    requires bs != [] && InPeriod(bs[|bs| - 1], now, q) && forall k :: 0 <= k < |bs| - 1 ==> !InPeriod(bs[k], now, q)
    ensures PeriodIds(now, bs, q, 1) == {bs[|bs| - 1].id}
  {
    if |bs| > 1 {
      OldestIsWeekly(now, bs[1..], q);
    } else {
      assert PeriodIds(now, bs[1..], q, 0) == {};
    }
  }

  /** One young backup and a weekly one, whatever lies between. */
  lemma KeptOfFew(now: Time, bs: seq<Backup>)
    requires |bs| >= 2 && NewestFirst(bs) && bs[0].completedAt == now
    requires forall k :: 0 < k < |bs| ==> bs[k].completedAt < now
    requires forall k :: 0 <= k < |bs| - 1 ==> Hours(Age(bs[k], now)) < 24
    requires 24 <= Hours(Age(bs[|bs| - 1], now)) < 168
    ensures Kept(Policy(2, 1, 0, 1, 0), now, bs) == {bs[0].id, bs[|bs| - 1].id} * {bs[0].id, bs[1].id} + {bs[0].id}
  {
    var p, q := Policy(2, 1, 0, 1, 0), Period(24, 168, 1);
    SortedStays(bs);
    PeriodsOfOne(now, bs, 1);
    OldestIsWeekly(now, bs, q);
    NewestTwo(bs);
    forall b | b in bs && Young(p, now, b) ensures b == bs[0] {
      var k :| 0 <= k < |bs| && bs[k] == b;
    }
    assert bs[0] in bs && Young(p, now, bs[0]);
    assert YoungIds(p, now, bs) == {bs[0].id};
  }

  lemma {:induction false} OnlyNone(bs: seq<Backup>, ids: set<string>)
    requires forall b :: b in bs ==> b.id !in ids
    ensures Only(bs, ids) == []
  {
    if bs != [] {
      assert bs[0] in bs;
      OnlyNone(bs[1..], ids);
    }
  }

  lemma OnlyEnds(bs: seq<Backup>, ids: set<string>)
    requires |bs| >= 2 && bs[0].id in ids && bs[|bs| - 1].id in ids
    requires forall k :: 0 < k < |bs| - 1 ==> bs[k].id !in ids
    ensures Only(bs, ids) == [bs[0], bs[|bs| - 1]]
  {
    var n := |bs| - 1;
    OnlyNone(bs[1..n], ids);
    OnlySnoc(bs[1..n], bs[n], ids);
    assert bs[1..] == bs[1..n] + [bs[n]];
  }

  /** Two backups allowed, one of them weekly: once the middle ones are gone, the retry keeps the oldest too. */
  lemma RetryKeepsMoreExample()
    ensures
      var p, now := Policy(2, 1, 0, 1, 0), 30 * HOUR;
      var bs := [Backup("a", now), Backup("b", now - HOUR), Backup("c", now - 2 * HOUR), Backup("d", 0)];
      Kept(p, now, bs) == {"a"} && Kept(p, now, Only(bs, {"a", "d"})) == {"a", "d"}
  {
    var now := 30 * HOUR;
    var bs := [Backup("a", now), Backup("b", now - HOUR), Backup("c", now - 2 * HOUR), Backup("d", 0)];
    KeptOfFew(now, bs);
    KeptOfFew(now, [bs[0], bs[3]]);
    OnlyEnds(bs, {"a", "d"});
  }

  // ----- the kept set, rule by rule -----

  /** How many of the first i backups fall into the period. */
  function Rank(now: Time, bs: seq<Backup>, q: Period, i: nat): nat
    requires i <= |bs|
  {
    if i == 0 then 0 else Rank(now, bs, q, i - 1) + if InPeriod(bs[i - 1], now, q) then 1 else 0
  }

  lemma {:induction false} RankGrows(now: Time, bs: seq<Backup>, q: Period, i: nat, j: nat)
    requires i <= j <= |bs|
    ensures Rank(now, bs, q, i) <= Rank(now, bs, q, j)
  {
    if i < j {
      RankGrows(now, bs, q, i, j - 1);
    }
  }

  /** In the period and among its first `max`. */
  predicate Ranked(now: Time, bs: seq<Backup>, q: Period, max: int, j: int) {
    0 <= j < |bs| && InPeriod(bs[j], now, q) && Rank(now, bs, q, j) < max
  }

  ghost predicate RankedFrom(now: Time, bs: seq<Backup>, q: Period, max: int, i: nat, id: string) {
    exists j :: i <= j && Ranked(now, bs, q, max, j) && bs[j].id == id
  }

  lemma {:induction false} PeriodIsRanked(now: Time, bs: seq<Backup>, q: Period, max: int, i: nat, id: string)
    requires i <= |bs|
    ensures id in PeriodIds(now, bs[i..], q, max - Rank(now, bs, q, i)) <==> RankedFrom(now, bs, q, max, i, id)
    decreases |bs| - i
  {
    var left := max - Rank(now, bs, q, i);
    if left <= 0 {
      forall j | i <= j < |bs| ensures !Ranked(now, bs, q, max, j) {
        RankGrows(now, bs, q, i, j);
      }
    } else if i < |bs| {
      PeriodIsRanked(now, bs, q, max, i + 1, id);
      assert bs[i..][1..] == bs[i + 1..] && bs[i..][0] == bs[i];
      if Ranked(now, bs, q, max, i) && bs[i].id == id {
        assert RankedFrom(now, bs, q, max, i, id);
      }
      if RankedFrom(now, bs, q, max, i + 1, id) {
        assert RankedFrom(now, bs, q, max, i, id);
      }
    }
  }

  /** The backups before the j-th whose age lies between two bounds. */
  function Before(now: Time, bs: seq<Backup>, j: nat, lo: int, hi: int): set<int> {
    set k | 0 <= k < |bs| && k < j && lo <= now - bs[k].completedAt < hi
  }

  lemma {:induction false} RankIsCount(now: Time, bs: seq<Backup>, q: Period, j: nat, lo: int, hi: int)
    requires j <= |bs|
    requires forall b :: InPeriod(b, now, q) <==> lo <= now - b.completedAt < hi
    ensures Rank(now, bs, q, j) == |Before(now, bs, j, lo, hi)|
  {
    var all := Before(now, bs, j, lo, hi);
    if j == 0 {
      assert all == {};
    } else {
      var front := Before(now, bs, j - 1, lo, hi);
      RankIsCount(now, bs, q, j - 1, lo, hi);
      assert all == if InPeriod(bs[j - 1], now, q) then front + {j - 1} else front;
    }
  }

  /** Whole hours are cut off toward zero, so the first day also takes backups from less than an hour ahead. */
  lemma PeriodBounds(now: Time, b: Backup, max: int)
    ensures var age, hour := now - b.completedAt, 3600 * 1_000_000_000;
      && (InPeriod(b, now, Period(0, 24, max)) <==> -hour < age < 24 * hour)
      && (InPeriod(b, now, Period(24, 168, max)) <==> 24 * hour <= age < 168 * hour)
      && (InPeriod(b, now, Period(168, 720, max)) <==> 168 * hour <= age < 720 * hour)
  {
  }

  /** The j-th backup has an age between the bounds, and fewer than `max` before it do. */
  ghost predicate EarlyIn(now: Time, bs: seq<Backup>, j: int, lo: int, hi: int, max: int) {
    0 <= j < |bs| && lo <= now - bs[j].completedAt < hi && |Before(now, bs, j, lo, hi)| < max
  }

  /** Young enough, or among the newest of the last day, week or month that the policy keeps. */
  ghost predicate WantedAt(p: Policy, now: Time, bs: seq<Backup>, j: int) {
    0 <= j < |bs| &&
    var age, hour := now - bs[j].completedAt, 3600 * 1_000_000_000;
    || p.maxAge == 0 || age < p.maxAge
    || EarlyIn(now, bs, j, 1 - hour, 24 * hour, p.keepDaily)
    || EarlyIn(now, bs, j, 24 * hour, 168 * hour, p.keepWeekly)
    || EarlyIn(now, bs, j, 168 * hour, 720 * hour, p.keepMonthly)
  }

  lemma RankedInPeriod(now: Time, bs: seq<Backup>, lo: int, hi: int, max: int, from: int, to: int, id: string)
    requires forall b :: InPeriod(b, now, Period(lo, hi, max)) <==> from <= now - b.completedAt < to
    ensures id in PeriodIds(now, bs, Period(lo, hi, max), max) <==>
      exists j :: EarlyIn(now, bs, j, from, to, max) && bs[j].id == id
  {
    var q := Period(lo, hi, max);
    assert bs[0..] == bs;
    PeriodIsRanked(now, bs, q, max, 0, id);
    forall j | 0 <= j < |bs| ensures Rank(now, bs, q, j) == |Before(now, bs, j, from, to)| {
      RankIsCount(now, bs, q, j, from, to);
    }
    if j :| EarlyIn(now, bs, j, from, to, max) && bs[j].id == id {
      assert Ranked(now, bs, q, max, j);
    }
  }

  lemma PeriodsAre(p: Policy, now: Time, bs: seq<Backup>)
    ensures AllPeriodIds(now, bs, Periods(p)) ==
      PeriodIds(now, bs, Period(0, 24, p.keepDaily), p.keepDaily) +
      PeriodIds(now, bs, Period(24, 168, p.keepWeekly), p.keepWeekly) +
      PeriodIds(now, bs, Period(168, 720, p.keepMonthly), p.keepMonthly)
  {
    var qs := Periods(p);
    assert qs[..2] == [qs[0], qs[1]] && qs[..2][..1] == [qs[0]] && qs[..2][..1][..0] == [];
    assert AllPeriodIds(now, bs, qs[..2][..1]) == PeriodIds(now, bs, qs[0], qs[0].max);
    assert AllPeriodIds(now, bs, qs[..2]) == AllPeriodIds(now, bs, qs[..2][..1]) + PeriodIds(now, bs, qs[1], qs[1].max);
  }

  lemma WantedIff(p: Policy, now: Time, bs: seq<Backup>, id: string)
    ensures id in Wanted(p, now, bs) <==> exists j :: WantedAt(p, now, bs, j) && bs[j].id == id
  {
    var hour := 3600 * 1_000_000_000;
    forall b, max
      ensures InPeriod(b, now, Period(0, 24, max)) <==> 1 - hour <= now - b.completedAt < 24 * hour
      ensures InPeriod(b, now, Period(24, 168, max)) <==> 24 * hour <= now - b.completedAt < 168 * hour
      ensures InPeriod(b, now, Period(168, 720, max)) <==> 168 * hour <= now - b.completedAt < 720 * hour
    {
      PeriodBounds(now, b, max);
    }
    PeriodsAre(p, now, bs);
    RankedInPeriod(now, bs, 0, 24, p.keepDaily, 1 - hour, 24 * hour, id);
    RankedInPeriod(now, bs, 24, 168, p.keepWeekly, 24 * hour, 168 * hour, id);
    RankedInPeriod(now, bs, 168, 720, p.keepMonthly, 168 * hour, 720 * hour, id);
    if id in YoungIds(p, now, bs) {
      var b :| b in bs && Young(p, now, b) && b.id == id;
      var j :| 0 <= j < |bs| && bs[j] == b;
      assert WantedAt(p, now, bs, j);
    }
  }

  /** Kept: the newest, and of what the rules want the newest maxBackups, in the order of the sorted listing. */
  lemma KeptIff(p: Policy, now: Time, listing: seq<Backup>, id: string)
    requires listing != []
    ensures var bs := Sort(listing);
      id in Kept(p, now, listing) <==>
        || id == bs[0].id
        || ((exists j :: WantedAt(p, now, bs, j) && bs[j].id == id) &&
            (p.maxBackups <= 0 || exists j :: 0 <= j < |bs| && j < p.maxBackups && bs[j].id == id))
  {
    var bs := Sort(listing);
    WantedIff(p, now, bs, id);
    if p.maxBackups > 0 { NewestIsPrefix(bs, p.maxBackups); }
  }
}
