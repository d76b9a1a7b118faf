/**
 The journaled tree swap of LocalBackup.Restore and its crash recovery.

 The parent directory of a server root is a map from names to trees plus the
 restore journal. Every filesystem call is one primitive of class Host that may
 succeed, fail, or be cut short by a crash, whichever the environment picks, so
 a contract of Restore or Recover speaks about every such run at once.

 Two crash models share the code. In order: a crash leaves `disk` as it is.
 Lossy: a crash leaves any member of `images`, the disks that result when any
 subset of the directory operations since the last sync is dropped.
 */
module RestoreSwap {
  import opened Wrappers
  import opened FileTree

  datatype Phase = Prepared | LiveMoved | Activated | Unknown

  /** A name below the parent directory; the last two are recognised by prefix. */
  datatype Name = Live | Staging(id: nat) | Rollback(stamp: nat)

  /** Torn: still being filled, or partly deleted. */
  datatype Slot = Torn | Whole(tree: FileMap)

  datatype Journal = Journal(staging: Name, rollback: Name, phase: Phase)

  datatype Disk = Disk(dirs: map<Name, Slot>, journal: Option<Journal>)

  datatype Why = CallFailed | NeitherTree | ForeignJournal | UnknownPhase

  datatype Reply = Done | Failed(why: Why) | Crashed

  // ----- directory operations and what a crash makes of them -----

  datatype Op =
    | MakeDir(name: Name)
    | Fill(name: Name, tree: FileMap)
    | Tear(name: Name)
    | Move(from: Name, to: Name)
    | Drop(name: Name)
    | PutJournal(j: Journal)
    | DropJournal

  /** Replaying an operation whose source was lost does nothing. */
  function Apply(d: Disk, op: Op): Disk {
    match op
    case MakeDir(n) => d.(dirs := d.dirs[n := Torn])
    case Fill(n, t) => if n in d.dirs then d.(dirs := d.dirs[n := Whole(t)]) else d
    case Tear(n) => if n in d.dirs then d.(dirs := d.dirs[n := Torn]) else d
    case Move(a, b) =>
      if a in d.dirs && b !in d.dirs then d.(dirs := (d.dirs - {a})[b := d.dirs[a]]) else d
    case Drop(n) => d.(dirs := d.dirs - {n})
    case PutJournal(j) => d.(journal := Some(j))
    case DropJournal => d.(journal := None)
  }

  ghost function Replayed(images: iset<Disk>, op: Op): iset<Disk> {
    iset d | d in images :: Apply(d, op)
  }

  /** The disks a crash can leave after `ops` were issued on a synced disk. */
  ghost function Images(synced: Disk, ops: seq<Op>): iset<Disk> {
    if ops == [] then iset{synced} else
      var before := Images(synced, ops[..|ops| - 1]);
      before + Replayed(before, ops[|ops| - 1])
  }

  function ReplayKept(synced: Disk, ops: seq<Op>, keep: seq<bool>): Disk
    requires |keep| == |ops|
  {
    if ops == [] then synced else
      var n := |ops| - 1;
      var d := ReplayKept(synced, ops[..n], keep[..n]);
      if keep[n] then Apply(d, ops[n]) else d
  }

  /** Images loses exactly the subsets: one disk for each choice of what survives. */
  lemma {:induction false} ImagesAreSubsets(synced: Disk, ops: seq<Op>, d: Disk)
    ensures d in Images(synced, ops) <==>
      exists keep: seq<bool> :: |keep| == |ops| && ReplayKept(synced, ops, keep) == d
  {
    if ops == [] {
      assert ReplayKept(synced, ops, []) == synced;
    } else {
      var n := |ops| - 1;
      var before := Images(synced, ops[..n]);
      if d in Images(synced, ops) {
        var o :| o in before && (d == o || d == Apply(o, ops[n]));
        ImagesAreSubsets(synced, ops[..n], o);
        var keep: seq<bool> :| |keep| == n && ReplayKept(synced, ops[..n], keep) == o;
        var all := keep + [d != o];
        assert all[..n] == keep;
        assert ReplayKept(synced, ops, all) == d;
      }
      forall keep: seq<bool> | |keep| == |ops| && ReplayKept(synced, ops, keep) == d
        ensures d in Images(synced, ops)
      {
        var o := ReplayKept(synced, ops[..n], keep[..n]);
        ImagesAreSubsets(synced, ops[..n], o);
        assert o in before;
      }
    }
  }

  // ----- what recovery will make of a disk -----

  ghost predicate WellFormed(j: Journal) {
    j.staging.Staging? && j.rollback.Rollback? && j.phase != Unknown
  }

  function TreeAt(d: Disk, n: Name): Option<FileMap> {
    if n in d.dirs && d.dirs[n].Whole? then Some(d.dirs[n].tree) else None
  }

  /** The tree that is live once recovery completes, if recovery can complete. */
  function Outcome(d: Disk): Option<FileMap> {
    match d.journal
    case None => TreeAt(d, Live)
    case Some(j) =>
      if j.phase == Activated then
        if Live in d.dirs then TreeAt(d, Live) else TreeAt(d, j.rollback)
      else
        if j.rollback in d.dirs then TreeAt(d, j.rollback) else TreeAt(d, Live)
  }

  /** What becomes the live tree, whole or not: after activation a live tree wins, before it the one set aside. */
  function KeptSlot(d: Disk, j: Journal): Option<Slot> {
    if j.phase == Activated then FirstOf(d, Live, j.rollback) else FirstOf(d, j.rollback, Live)
  }

  function FirstOf(d: Disk, a: Name, b: Name): Option<Slot> {
    if a in d.dirs then Some(d.dirs[a]) else if b in d.dirs then Some(d.dirs[b]) else None
  }

  ghost predicate Recoverable(d: Disk) {
    (d.journal.Some? ==> WellFormed(d.journal.value)) && Outcome(d).Some?
  }

  ghost predicate NoOrphans(d: Disk) {
    forall n :: n in d.dirs && n.Rollback? ==> d.journal.Some? && d.journal.value.rollback == n
  }

  /** pathExists reads any Lstat error as absence; `misread` are the names whose Lstat fails. */
  predicate Stranded(d: Disk, misread: set<Name>) {
    d.journal.Some? && d.journal.value.phase != Activated &&
    d.journal.value.rollback in d.dirs && d.journal.value.rollback in misread &&
    Live in d.dirs && Live !in misread
  }

  // ----- the disks each part of a restore can leave behind -----

  datatype Swap = Swap(staging: Name, rollback: Name, before: FileMap, after: FileMap)

  ghost predicate Journaled(d: Disk, w: Swap, phase: Phase) {
    d.journal == Some(Journal(w.staging, w.rollback, phase))
  }

  ghost predicate HasOld(d: Disk, w: Swap) {
    || (TreeAt(d, Live) == Some(w.before) && w.rollback !in d.dirs)
    || SetAside(d, w)
  }

  /** The tree is live and any journal agrees. */
  ghost predicate Resting(d: Disk, tree: FileMap) {
    TreeAt(d, Live) == Some(tree) &&
    (d.journal.Some? ==>
      WellFormed(d.journal.value) && (d.journal.value.phase == Activated || d.journal.value.rollback !in d.dirs))
  }

  /** Until `prepared` is durable the live tree has not moved. */
  ghost predicate Preparing(d: Disk, w: Swap) {
    Resting(d, w.before) && w.rollback !in d.dirs
  }

  /** The tree is set aside under the name the journal gives. */
  ghost predicate Aside(d: Disk, b: Name, tree: FileMap) {
    d.journal.Some? && WellFormed(d.journal.value) && d.journal.value.rollback == b &&
    TreeAt(d, b) == Some(tree) && (d.journal.value.phase == Activated ==> Live !in d.dirs)
  }

  /** It is there, or already moved back. */
  ghost predicate Returning(d: Disk, b: Name, tree: FileMap) {
    || Aside(d, b, tree)
    || (d.journal.Some? && WellFormed(d.journal.value) && d.journal.value.rollback == b &&
        TreeAt(d, Live) == Some(tree) && b !in d.dirs)
  }

  ghost predicate OwnJournal(d: Disk, w: Swap) {
    d.journal.Some? ==> d.journal.value.rollback == w.rollback && d.journal.value.phase != Activated
  }

  /** The disk itself, before the staged tree goes live. */
  ghost predicate Started(d: Disk, w: Swap) {
    (Preparing(d, w) && OwnJournal(d, w)) || Moving(d, w)
  }

  /** Until `live-moved` is durable the old tree is live or set aside. */
  ghost predicate Moving(d: Disk, w: Swap) {
    (Journaled(d, w, Prepared) || Journaled(d, w, LiveMoved)) && HasOld(d, w)
  }

  /** The old tree is set aside, the staged one may already be live. */
  ghost predicate Activating(d: Disk, w: Swap) {
    (Journaled(d, w, LiveMoved) || Journaled(d, w, Activated)) &&
    TreeAt(d, w.rollback) == Some(w.before) &&
    (TreeAt(d, Live) == Some(w.after) || (Live !in d.dirs && TreeAt(d, w.staging) == Some(w.after)))
  }

  /** `activated` and the new live tree are durable. */
  ghost predicate Finishing(d: Disk, w: Swap) {
    (d.journal.None? || Journaled(d, w, Activated)) && TreeAt(d, Live) == Some(w.after)
  }

  ghost predicate OldOrNew(d: Disk, w: Swap) {
    Recoverable(d) && (Outcome(d) == Some(w.before) || Outcome(d) == Some(w.after))
  }

  ghost predicate SetAside(d: Disk, w: Swap) {
    Live !in d.dirs && TreeAt(d, w.rollback) == Some(w.before)
  }

  ghost predicate NoStray(d: Disk, w: Swap) {
    forall n :: n in d.dirs && n.Rollback? ==> n == w.rollback
  }

  /** Recovery removes the staging directory its journal names. */
  ghost predicate StagingIsFree(d: Disk, n: Name) {
    n !in d.dirs || (d.journal.Some? && d.journal.value.staging == n)
  }

  ghost predicate WellNamed(w: Swap) {
    w.staging.Staging? && w.rollback.Rollback?
  }

  lemma StagesAreSafe(d: Disk, w: Swap)
    requires WellNamed(w)
    requires Preparing(d, w) || Moving(d, w) || Activating(d, w) || Finishing(d, w)
    ensures OldOrNew(d, w)
  {
  }

  /** The disk just before the staged tree becomes live. */
  function ReadyToActivate(w: Swap): Disk {
    Disk(map[w.staging := Whole(w.after), w.rollback := Whole(w.before)],
         Some(Journal(w.staging, w.rollback, LiveMoved)))
  }

  /** Why recovery must handle `activated` without a live tree: the rename can be lost, the journal kept. */
  lemma ActivatedWithoutLive(w: Swap)
    requires WellNamed(w)
    ensures exists d ::
      && d in Images(ReadyToActivate(w), [Move(w.staging, Live), PutJournal(Journal(w.staging, w.rollback, Activated))])
      && Journaled(d, w, Activated) && Live !in d.dirs && Outcome(d) == Some(w.before)
  {
    var ops := [Move(w.staging, Live), PutJournal(Journal(w.staging, w.rollback, Activated))];
    var keep := [false, true];
    assert ops[..1] == [ops[0]] && keep[..1] == [false];
    assert ReplayKept(ReadyToActivate(w), [ops[0]], [false]) == ReadyToActivate(w);
    var d := ReplayKept(ReadyToActivate(w), ops, keep);
    assert d == Apply(ReadyToActivate(w), ops[1]);
    ImagesAreSubsets(ReadyToActivate(w), ops, d);
  }

  /** And whenever that branch is taken the old tree is there, whole. */
  lemma ActivatedWithoutLiveHasRollback(d: Disk, w: Swap)
    requires Preparing(d, w) || Moving(d, w) || Activating(d, w) || Finishing(d, w)
    requires WellNamed(w) && d.journal.Some? && d.journal.value.phase == Activated && Live !in d.dirs
    ensures TreeAt(d, w.rollback) == Some(w.before)
  {
  }

  /** The disk of a restore whose `prepared` journal is durable. */
  function ReadyToMove(w: Swap): Disk {
    Disk(map[Live := Whole(w.before), w.staging := Whole(w.after)],
         Some(Journal(w.staging, w.rollback, Prepared)))
  }

  /**
   The compensating branch (`live-moved` cannot be journaled, so the tree is moved
   back and the journal removed) is not crash-safe in the lossy model.
   */
  lemma CompensationCanLoseTheLiveTree(w: Swap)
    requires WellNamed(w)
    ensures exists d ::
      && d in Images(ReadyToMove(w), [Move(Live, w.rollback), Move(w.rollback, Live), DropJournal])
      && d.journal.None? && Live !in d.dirs && Outcome(d) == None
  {
    var ops := [Move(Live, w.rollback), Move(w.rollback, Live), DropJournal];
    var keep := [true, false, true];
    assert ops[..2] == [ops[0], ops[1]] && keep[..2] == [true, false];
    var moved := Apply(ReadyToMove(w), ops[0]);
    assert [ops[0], ops[1]][..1] == [ops[0]] && [true, false][..1] == [true];
    assert ReplayKept(ReadyToMove(w), [ops[0]], [true]) == moved;
    assert ReplayKept(ReadyToMove(w), [ops[0], ops[1]], [true, false]) == moved;
    var d := ReplayKept(ReadyToMove(w), ops, keep);
    ImagesAreSubsets(ReadyToMove(w), ops, d);
  }

  /**
   Recovery itself removes the journal before it syncs: with the move back lost
   and the removal kept, no tree is live and nothing says where it went.
   */
  lemma RecoveryCanLoseTheLiveTree(w: Swap)
    requires WellNamed(w)
    ensures exists d ::
      && d in Images(Apply(ReadyToMove(w), Move(Live, w.rollback)), [Move(w.rollback, Live), DropJournal])
      && d.journal.None? && Live !in d.dirs && Outcome(d) == None
  {
    var aside := Apply(ReadyToMove(w), Move(Live, w.rollback));
    var ops, keep := [Move(w.rollback, Live), DropJournal], [false, true];
    assert ops[..1] == [ops[0]] && keep[..1] == [false];
    assert ReplayKept(aside, [ops[0]], [false]) == aside;
    var d := ReplayKept(aside, ops, keep);
    ImagesAreSubsets(aside, ops, d);
  }

  /** So does recovering an activation that was never synced: the rollback tree goes while `activated` may be lost. */
  lemma RushedRecoveryCanLoseBothTrees(w: Swap)
    requires WellNamed(w)
    ensures var activated := PutJournal(Journal(w.staging, w.rollback, Activated));
      exists d ::
        && d in Images(ReadyToActivate(w), [Move(w.staging, Live), activated, Tear(w.rollback)])
        && Journaled(d, w, LiveMoved) && Outcome(d) == None
  {
    var ops := [Move(w.staging, Live), PutJournal(Journal(w.staging, w.rollback, Activated)), Tear(w.rollback)];
    var keep := [true, false, true];
    assert ops[..2] == [ops[0], ops[1]] && keep[..2] == [true, false];
    assert ops[..2][..1] == [ops[0]] && keep[..2][..1] == [true];
    var moved := Apply(ReadyToActivate(w), ops[0]);
    assert ReplayKept(ReadyToActivate(w), [ops[0]], [true]) == moved;
    assert ReplayKept(ReadyToActivate(w), ops[..2], keep[..2]) == moved;
    var d := ReplayKept(ReadyToActivate(w), ops, keep);
    ImagesAreSubsets(ReadyToActivate(w), ops, d);
  }

  ghost predicate AllRemain(before: iset<Disk>, after: iset<Disk>, n: Name) {
    before <= after && forall d :: d in after ==> Remains(before, d, n)
  }

  ghost predicate AllTorn(before: iset<Disk>, after: iset<Disk>, n: Name) {
    forall o :: o in before ==> Apply(o, Tear(n)) in after
  }

  /** Tearing a tree, then dropping it, whichever of the two is lost. */
  lemma TornThenDropped(before: iset<Disk>, n: Name)
    ensures AllRemain(before, before, n)
    ensures var torn := before + Replayed(before, Tear(n));
      AllRemain(before, torn, n) && AllRemain(before, torn + Replayed(torn, Drop(n)), n)
  {
    forall o ensures Apply(Apply(o, Tear(n)), Drop(n)) == Apply(o, Drop(n)) {
      TearThenDrop(o, n);
    }
  }

  lemma TearThenDrop(d: Disk, n: Name)
    ensures Apply(Apply(d, Tear(n)), Drop(n)) == Apply(d, Drop(n))
    ensures n !in d.dirs ==> Apply(d, Drop(n)) == d
  {
  }

  /** Every rollback directory in these disks has a covered name. */
  ghost predicate NamesCover(names: iset<Name>, disks: iset<Disk>) {
    forall d, n :: d in disks && n in d.dirs && n.Rollback? ==> n in names
  }

  lemma ReplayedNames(names: iset<Name>, disks: iset<Disk>, op: Op)
    requires NamesCover(names, disks)
    requires (op.Move? && op.to.Rollback? ==> op.to in names) && (op.MakeDir? ==> !op.name.Rollback?)
    ensures NamesCover(names, disks + Replayed(disks, op))
  {
    forall d, n | d in Replayed(disks, op) && n in d.dirs && n.Rollback? ensures n in names {
      var o :| o in disks && d == Apply(o, op);
      assert n in o.dirs || (op.Move? && n == op.to);
    }
  }

  lemma ImagesSnoc(synced: Disk, ops: seq<Op>, op: Op)
    ensures Images(synced, ops + [op]) == Images(synced, ops) + Replayed(Images(synced, ops), op)
  {
    assert (ops + [op])[..|ops|] == ops;
  }

  /** A tree set aside and moved back is found wherever it is. */
  lemma MovedBack(d: Disk, b: Name, tree: FileMap)
    requires Returning(d, b, tree)
    ensures Recoverable(d) && Outcome(d) == Some(tree) && Returning(Apply(d, Move(b, Live)), b, tree)
  {
  }

  lemma AsideWithoutLive(d: Disk, b: Name, tree: FileMap)
    requires Aside(d, b, tree)
    ensures forall e :: e == Apply(d, Tear(Live)) || e == Apply(d, Drop(Live)) ==> Aside(e, b, tree)
  {
  }

  lemma ReturningWithout(d: Disk, n: Name, b: Name, tree: FileMap)
    requires n.Staging? && Returning(d, b, tree)
    ensures forall e :: e == Apply(d, Tear(n)) || e == Apply(d, Drop(n)) ==> Returning(e, b, tree)
  {
  }

  /** A torn rollback tree is the end of an image whose activation was lost. */
  lemma TornRollback(d: Disk, w: Swap)
    requires Journaled(d, w, LiveMoved) && w.rollback in d.dirs
    ensures !Recoverable(Apply(d, Tear(w.rollback)))
  {
  }

  /**
   Deleting the rollback tree while the activation is not synced is safe exactly
   when every crash image has both the journal entry and the live tree.
   */
  lemma RushedRecoveryIff(images: iset<Disk>, w: Swap)
    requires WellNamed(w) && forall d :: d in images ==> Activating(d, w)
    ensures (forall d :: d in images + Replayed(images, Tear(w.rollback)) ==> OldOrNew(d, w)) <==>
            (forall d :: d in images ==> Journaled(d, w, Activated) && Live in d.dirs)
  {
    forall d | d in images ensures OldOrNew(d, w) {
      StagesAreSafe(d, w);
    }
    forall d | d in images && !(Journaled(d, w, Activated) && Live in d.dirs)
      ensures !OldOrNew(Apply(d, Tear(w.rollback)), w)
      ensures Apply(d, Tear(w.rollback)) in images + Replayed(images, Tear(w.rollback))
    {
    }
  }

  lemma FinishingRemains(before: iset<Disk>, after: iset<Disk>, w: Swap)
    requires WellNamed(w) && AllRemain(before, after, w.rollback) && forall d :: d in before ==> Finishing(d, w)
    ensures forall d :: d in after ==> Finishing(d, w)
  {
    forall d | d in after ensures Finishing(d, w) {
      var o :| o in before && (d == o || d == Apply(o, Tear(w.rollback)) || d == Apply(o, Drop(w.rollback)));
      FinishingWithout(o, w);
    }
  }

  lemma FinishingWithout(d: Disk, w: Swap)
    requires WellNamed(w) && Finishing(d, w)
    ensures Finishing(Apply(d, Tear(w.rollback)), w) && Finishing(Apply(d, Drop(w.rollback)), w)
    ensures Finishing(Apply(d, DropJournal), w)
  {
  }

  /** Deleting a directory that is not the live tree. */
  lemma OutcomeWithout(d: Disk, n: Name, tree: FileMap)
    requires n != Live
    ensures forall e :: e == Apply(d, Tear(n)) || e == Apply(d, Drop(n)) ==>
      && e.journal == d.journal && (Resting(d, tree) ==> Resting(e, tree))
      && (!n.Rollback? && Recoverable(d) ==> Recoverable(e) && Outcome(e) == Outcome(d))
  {
  }

  lemma StagingIsIrrelevant(d: Disk, w: Swap)
    requires WellNamed(w) && (Preparing(d, w) || Moving(d, w))
    ensures forall e :: e == Apply(d, Tear(w.staging)) || e == Apply(d, Drop(w.staging)) ==>
      && (Preparing(d, w) ==> Preparing(e, w)) && (Moving(d, w) ==> Moving(e, w)) && e.journal == d.journal
  {
  }

  lemma EarlyRemains(before: iset<Disk>, after: iset<Disk>, w: Swap)
    requires WellNamed(w) && AllRemain(before, after, w.staging)
    ensures (forall d :: d in before ==> Preparing(d, w)) ==> forall d :: d in after ==> Preparing(d, w)
    ensures (forall d :: d in before ==> Moving(d, w)) ==> forall d :: d in after ==> Moving(d, w)
  {
    forall d | d in after
      ensures (forall o :: o in before ==> Preparing(o, w)) ==> Preparing(d, w)
      ensures (forall o :: o in before ==> Moving(o, w)) ==> Moving(d, w)
    {
      var o :| o in before && (d == o || d == Apply(o, Tear(w.staging)) || d == Apply(o, Drop(w.staging)));
      if Preparing(o, w) || Moving(o, w) { StagingIsIrrelevant(o, w); }
    }
  }

  /** What deleting a tree makes of an earlier crash image. */
  ghost predicate Remains(before: iset<Disk>, d: Disk, n: Name) {
    exists o :: o in before && (d == o || d == Apply(o, Tear(n)) || d == Apply(o, Drop(n)))
  }

  predicate OnlyCallsFail(r: Reply) {
    r.Failed? ==> r.why == CallFailed
  }

  /**
   What has been done: `activated` journaled and deletions asked for, ever; and
   since the last sync a rollback tree moved back, a journal removed, a recovery
   begun on a disk that was not synced.
   */
  datatype Log = Log(activations: nat, removals: set<Name>, moveBacks: nat, drops: nat, rushed: bool)

  function Logged(l: Log, op: Op): Log {
    match op
    case PutJournal(j) => if j.phase == Activated then l.(activations := l.activations + 1) else l
    case Move(from, to) => if from.Rollback? then l.(moveBacks := l.moveBacks + 1) else l
    case DropJournal => l.(drops := l.drops + 1)
    case _ => l
  }

  /** Nothing risky since the last sync. */
  predicate Clean(l: Log) {
    l.moveBacks == 0 && l.drops == 0 && !l.rushed
  }

  function AfterSync(l: Log): Log {
    l.(moveBacks := 0, drops := 0, rushed := false)
  }

  /** Since the last sync a tree was moved back and a journal removed, or recovery did not wait for a sync. */
  predicate Exposed(l: Log) {
    (l.moveBacks > 0 && l.drops > 0) || l.rushed
  }

  /** What can be restored: an archive that is refused, one that cannot be extracted whole, or a tree. */
  datatype Payload = Refused | Unextractable | Holds(tree: FileMap)

  /** Whether calls work for now: none fails and no crash happens. */
  class Filesystem {
    var works: bool

    constructor (w: bool)
      ensures works == w
    {
      works := w;
    }
  }

  class Host {
    const fs: Filesystem
    var disk: Disk
    /** The disk at the last sync and the directory operations since. */
    var synced: Disk
    var pending: seq<Op>
    /** Every disk a crash may leave when unsynced operations can be lost. */
    ghost var images: iset<Disk>
    /** The model's own record; nothing in the daemon keeps it. */
    var log: Log
    /** Covers every rollback name a crash may bring back. */
    ghost var names: iset<Name>

    ghost predicate Valid()
      reads this
    {
      disk in images && images == Images(synced, pending) && NamesCover(names, images)
    }

    predicate AtRest()
      reads this
    {
      pending == [] && synced == disk && Clean(log)
    }

    /** As after a boot: what is on disk is durable. */
    ghost predicate Synced()
      reads this
    {
      images == iset{disk} && AtRest()
    }

    constructor (d: Disk, f: Filesystem)
      ensures Valid() && Synced() && disk == d && log.activations == 0 && fs == f
      ensures names == iset n | n in d.dirs && n.Rollback?
    {
      fs, disk, synced, pending, images, log := f, d, d, [], iset{d}, Log(0, {}, 0, 0, false);
      names := iset n | n in d.dirs && n.Rollback?;
    }

    // ----- filesystem calls -----

    ghost predicate Performed(d: Disk, before: iset<Disk>, l: Log, op: Op)
      reads this
    {
      disk == Apply(d, op) && images == before + Replayed(before, op) && log == Logged(l, op)
    }

    /** A rollback directory only ever gets a name already covered. */
    ghost predicate Covered(op: Op)
      reads this
    {
      (op.Move? && op.to.Rollback? ==> op.to in names) && (op.MakeDir? ==> !op.name.Rollback?)
    }

    /** One atomic directory operation, not yet synced. */
    method Perform(op: Op) returns (r: Reply)
      requires Valid() && Covered(op)
      modifies this`disk, this`pending, this`images, this`log
      ensures Valid() && OnlyCallsFail(r) && (fs.works ==> r.Done?)
      ensures r.Done? ==> Performed(old(disk), old(images), old(log), op)
      ensures r.Failed? ==> unchanged(this)
      ensures r.Crashed? ==> unchanged(this) || Performed(old(disk), old(images), old(log), op)
    {
      if !fs.works {
        if * { return Failed(CallFailed); }
        if * { return Crashed; }
      }
      ReplayedNames(names, images, op);
      ImagesSnoc(synced, pending, op);
      images := images + Replayed(images, op);
      pending := pending + [op];
      disk := Apply(disk, op);
      log := Logged(log, op);
      if !fs.works {
        if * { return Crashed; }
      }
      return Done;
    }

    /** os.Rename refuses an existing target directory. */
    method Rename(from: Name, to: Name) returns (r: Reply)
      requires Valid() && Covered(Move(from, to))
      modifies this`disk, this`pending, this`images, this`log
      ensures Valid() && OnlyCallsFail(r)
      ensures fs.works && from in old(disk.dirs) && to !in old(disk.dirs) ==> r.Done?
      ensures r.Done? ==> from in old(disk.dirs) && to !in old(disk.dirs)
      ensures r.Done? ==> Performed(old(disk), old(images), old(log), Move(from, to))
      ensures r.Failed? ==> unchanged(this)
      ensures unchanged(this) || (from in old(disk.dirs) && to !in old(disk.dirs))
      ensures r.Crashed? ==> unchanged(this) || Performed(old(disk), old(images), old(log), Move(from, to))
    {
      if from !in disk.dirs || to in disk.dirs { return Failed(CallFailed); }
      r := Perform(Move(from, to));
    }

    method Sync() returns (r: Reply)
      requires Valid()
      modifies this`synced, this`pending, this`images, this`log
      ensures Valid() && OnlyCallsFail(r) && (fs.works ==> r.Done?)
      ensures r.Done? ==> Synced() && log == AfterSync(old(log))
      ensures r.Failed? ==> unchanged(this)
      ensures r.Crashed? ==> unchanged(this) || (Synced() && log == AfterSync(old(log)))
    {
      if !fs.works {
        if * { return Failed(CallFailed); }
        if * { return Crashed; }
      }
      synced, pending, images, log := disk, [], iset{disk}, AfterSync(log);
      if !fs.works {
        if * { return Crashed; }
      }
      return Done;
    }

    /** Deleting a tree is not atomic: any failure or crash may leave it torn. */
    method RemoveAll(n: Name) returns (r: Reply)
      requires Valid()
      modifies this`disk, this`pending, this`images, this`log
      ensures Valid() && OnlyCallsFail(r) && (fs.works ==> r.Done?)
      ensures log == old(log).(removals := old(log).removals + {n})
      ensures r.Done? ==> disk == Apply(old(disk), Drop(n))
      ensures disk == old(disk) || disk == Apply(old(disk), Tear(n)) || disk == Apply(old(disk), Drop(n))
      ensures AllRemain(old(images), images, n)
      ensures old(n in disk.dirs && disk.dirs[n].Whole?) && disk == old(disk) ==> images == old(images)
      ensures disk != old(disk) ==> AllTorn(old(images), images, n)
    {
      log := log.(removals := log.removals + {n});
      TornThenDropped(images, n);
      TearThenDrop(disk, n);
      if n !in disk.dirs { return Done; }
      r := Perform(Tear(n));
      if !r.Done? { return; }
      r := Perform(Drop(n));
    }

    method MakeStaging(n: Name) returns (r: Reply)
      requires Valid() && n.Staging?
      modifies this`disk, this`pending, this`images, this`log
      ensures Valid() && OnlyCallsFail(r)
      ensures fs.works && n !in old(disk.dirs) ==> r.Done?
      ensures r.Done? ==> n !in old(disk.dirs)
      ensures r.Done? ==> Performed(old(disk), old(images), old(log), MakeDir(n))
      ensures r.Failed? ==> unchanged(this)
      ensures r.Crashed? ==> unchanged(this) ||
                             (n !in old(disk.dirs) && Performed(old(disk), old(images), old(log), MakeDir(n)))
    {
      if n in disk.dirs { return Failed(CallFailed); }
      r := Perform(MakeDir(n));
    }

    ghost predicate JournalSynced(d: Disk, l: Log, j: Journal)
      reads this
    {
      disk == Apply(d, PutJournal(j)) && Synced() && log == AfterSync(Logged(l, PutJournal(j)))
    }

    /** The journal is written to a temporary file, renamed into place and synced. */
    method WriteJournal(j: Journal) returns (r: Reply)
      requires Valid()
      modifies this`disk, this`synced, this`pending, this`images, this`log
      ensures Valid() && OnlyCallsFail(r) && (fs.works ==> r.Done?)
      ensures r.Done? ==> JournalSynced(old(disk), old(log), j)
      ensures r.Failed? ==> unchanged(this) || Performed(old(disk), old(images), old(log), PutJournal(j))
      ensures r.Crashed? ==>
        unchanged(this) || Performed(old(disk), old(images), old(log), PutJournal(j)) ||
          JournalSynced(old(disk), old(log), j)
      ensures synced == old(synced) || Synced()
    {
      if !fs.works {
        if * { return Failed(CallFailed); }
        if * { return Crashed; }
      }
      r := Perform(PutJournal(j));
      if !r.Done? { return; }
      r := Sync();
    }

    // ----- recovery -----

    /** How the phase switch ends, whatever the disk: the slot that counts is live, or there is none. */
    predicate Kept(before: Disk, j: Journal, r: Reply)
      reads this, fs
    {
      var kept := KeptSlot(before, j);
      if kept.None? then r == Failed(NeitherTree)
      else
        && OnlyCallsFail(r) && (fs.works ==> r.Done?)
        && (r.Done? ==> Live in disk.dirs && disk.dirs[Live] == kept.value)
    }

    /** A journal that recovery will not act on; only a failing call can hide why. */
    predicate RefusedWith(r: Reply, why: Why)
      reads this, fs
    {
      r == Failed(why) || (r == Failed(CallFailed) && !fs.works)
    }

    method PathExists(n: Name, misread: set<Name>) returns (b: bool)
      ensures b == (n in disk.dirs && n !in misread)
    {
      b := n in disk.dirs && n !in misread;
    }

    /** Every crash image recovers to this tree. */
    ghost predicate AllKeep(tree: FileMap)
      reads this
    {
      forall d :: d in images ==> Recoverable(d) && Outcome(d) == Some(tree)
    }

    ghost predicate AllRest(tree: FileMap)
      reads this
    {
      forall d :: d in images ==> Resting(d, tree)
    }

    /** Some crash image has no whole live tree. */
    ghost predicate MaybeNoLive()
      reads this
    {
      exists d :: d in images && TreeAt(d, Live).None?
    }

    /** Some crash image is beyond recovery. */
    ghost predicate MaybeBeyond()
      reads this
    {
      exists d :: d in images && !Recoverable(d)
    }

    ghost predicate AllAside(b: Name, tree: FileMap)
      reads this
    {
      forall d :: d in images ==> Aside(d, b, tree)
    }

    ghost predicate AllReturning(b: Name, tree: FileMap)
      reads this
    {
      forall d :: d in images ==> Returning(d, b, tree)
    }

    // ----- what is known of the crash images between two calls -----

    /** `activated` was journaled after the last sync. */
    predicate Unsettled()
      reads this
    {
      disk.journal.Some? && disk.journal.value.phase == Activated && synced.journal != disk.journal
    }

    /** The tree is live in every crash image. */
    ghost predicate AtHome(tree: FileMap)
      reads this
    {
      AllRest(tree) && log.moveBacks == 0 && !Unsettled()
    }

    /** The tree is set aside in some crash images, moved back in others, and the journal is in all of them. */
    ghost predicate Away(b: Name, tree: FileMap)
      reads this
    {
      && AllReturning(b, tree) && log.drops == 0
      && (if log.moveBacks > 0 then MaybeNoLive() else b in disk.dirs)
      && (b in disk.dirs && Live in disk.dirs ==> AllAside(b, tree))
    }

    /** The new tree is live on disk, and the old one still decides some crash images. */
    ghost predicate Undecided(w: Swap)
      reads this
    {
      && WellNamed(w) && Unsettled() && Journaled(disk, w, Activated) && TreeAt(disk, Live) == Some(w.after)
      && (forall d :: d in images ==> Activating(d, w)) && MaybeLate(w)
      && log.moveBacks == 0
    }

    ghost predicate MaybeLate(w: Swap)
      reads this
    {
      exists d :: d in images && Journaled(d, w, LiveMoved) && w.rollback in d.dirs
    }

    ghost predicate IsUndecided()
      reads this
    {
      exists w :: Undecided(w)
    }

    /** Between two calls: exposed exactly when some crash image is beyond recovery. */
    ghost predicate Calm()
      reads this
    {
      && Valid() && Recoverable(disk)
      && var tree := Outcome(disk).value;
         if Exposed(log) then MaybeBeyond()
         else AtHome(tree) || (disk.journal.Some? && Away(disk.journal.value.rollback, tree)) || IsUndecided()
    }

    /** The trees a power loss may leave. */
    ghost function Outcomes(): iset<Option<FileMap>>
      reads this
    {
      iset d | d in images :: Outcome(d)
    }

    /** The trees the next power loss may leave, or the one in order of effects when it may leave none. */
    ghost function Possible(): iset<Option<FileMap>>
      reads this
    {
      if Exposed(log) then iset{Outcome(disk)} else Outcomes()
    }

    lemma AwayIsKept(b: Name, tree: FileMap)
      requires AllReturning(b, tree)
      ensures AllKeep(tree)
    {
      forall d | d in images ensures Recoverable(d) && Outcome(d) == Some(tree) {
        MovedBack(d, b, tree);
      }
    }

    /** Calm is exact, and unless undecided every crash image keeps the tree. */
    lemma CalmIsExact()
      requires Calm()
      ensures Exposed(log) <==> MaybeBeyond()
      ensures !Exposed(log) && !Unsettled() ==> AllKeep(Outcome(disk).value)
      ensures !Exposed(log) ==> forall d :: d in images ==> Recoverable(d)
    {
      if !Exposed(log) {
        var tree := Outcome(disk).value;
        if disk.journal.Some? && Away(disk.journal.value.rollback, tree) {
          AwayIsKept(disk.journal.value.rollback, tree);
        }
        if w :| Undecided(w) {
          forall d | d in images ensures Recoverable(d) {
            StagesAreSafe(d, w);
          }
        }
      }
    }

    /** A synced disk is calm. */
    lemma SyncedIsCalm()
      requires Valid() && Synced() && Recoverable(disk)
      ensures Calm() && !Exposed(log) && !Unsettled()
    {
    }

    ghost predicate Grown(l: Log)
      reads this
    {
      log.moveBacks >= l.moveBacks && log.drops >= l.drops && (l.rushed ==> log.rushed) &&
        log.activations == l.activations
    }

    lemma WitnessesStay(before: iset<Disk>)
      requires before <= images
      ensures (exists d :: d in before && !Recoverable(d)) ==> MaybeBeyond()
      ensures (exists d :: d in before && TreeAt(d, Live).None?) ==> MaybeNoLive()
    {
    }

    lemma AsideReturns(b: Name, tree: FileMap)
      ensures AllAside(b, tree) ==> AllReturning(b, tree)
    {
    }

    // ----- its steps -----

    method ClearLive(b: Name, ghost tree: FileMap) returns (r: Reply)
      requires Valid()
      modifies this`disk, this`pending, this`images, this`log
      ensures Valid() && OnlyCallsFail(r) && (fs.works ==> r.Done?)
      ensures log == old(log).(removals := old(log).removals + {Live}) && old(images) <= images
      ensures r.Done? ==> disk == Apply(old(disk), Drop(Live))
      ensures disk == old(disk) || disk == Apply(old(disk), Tear(Live)) || disk == Apply(old(disk), Drop(Live))
      ensures old(AllAside(b, tree)) ==> AllAside(b, tree)
    {
      ghost var before := images;
      r := RemoveAll(Live);
      forall d | d in images && old(AllAside(b, tree)) ensures Aside(d, b, tree) {
        var o :| o in before && (d == o || d == Apply(o, Tear(Live)) || d == Apply(o, Drop(Live)));
        AsideWithoutLive(o, b, tree);
      }
    }

    method DropRollback(b: Name, ghost tree: FileMap) returns (r: Reply)
      requires Valid() && b.Rollback?
      modifies this`disk, this`pending, this`images, this`log
      ensures Valid() && OnlyCallsFail(r) && (fs.works ==> r.Done?)
      ensures log == old(log).(removals := old(log).removals + {b}) && old(images) <= images
      ensures r.Done? ==> disk == Apply(old(disk), Drop(b))
      ensures disk == old(disk) || disk == Apply(old(disk), Tear(b)) || disk == Apply(old(disk), Drop(b))
      ensures disk != old(disk) ==> AllTorn(old(images), images, b)
      ensures old(b in disk.dirs && disk.dirs[b].Whole?) && disk == old(disk) ==> images == old(images)
      ensures old(AllRest(tree)) ==> AllRest(tree)
    {
      ghost var before := images;
      r := RemoveAll(b);
      forall d | d in images && old(AllRest(tree)) ensures Resting(d, tree) {
        var o :| o in before && (d == o || d == Apply(o, Tear(b)) || d == Apply(o, Drop(b)));
        OutcomeWithout(o, b, tree);
      }
    }

    lemma LateIsBeyond(w: Swap, before: iset<Disk>)
      requires exists d :: d in before && Journaled(d, w, LiveMoved) && w.rollback in d.dirs
      requires AllTorn(before, images, w.rollback)
      ensures MaybeBeyond()
    {
      var late :| late in before && Journaled(late, w, LiveMoved) && w.rollback in late.dirs;
      TornRollback(late, w);
    }

    /** Recovery drops the old tree; while `activated` is not synced this is premature. */
    method ClearRollback(b: Name, ghost tree: FileMap, ghost w: Swap) returns (r: Reply)
      requires Valid() && b.Rollback?
      modifies this`disk, this`pending, this`images, this`log
      ensures Valid() && OnlyCallsFail(r) && (fs.works ==> r.Done?)
      ensures log == old(log).(removals := log.removals, rushed := log.rushed) && old(images) <= images
      ensures log.rushed == (old(log).rushed || (old(Unsettled()) && disk != old(disk)))
      ensures r.Done? ==> disk == Apply(old(disk), Drop(b))
      ensures disk == old(disk) || disk == Apply(old(disk), Tear(b)) || disk == Apply(old(disk), Drop(b))
      ensures old(AllRest(tree)) ==> AllRest(tree)
      ensures old(Undecided(w)) && w.rollback == b ==>
        if disk == old(disk) then images == old(images) else MaybeBeyond()
    {
      ghost var before, hurried := images, Undecided(w) && w.rollback == b;
      var was, hasty := disk, Unsettled();
      r := DropRollback(b, tree);
      if hurried && disk != was { LateIsBeyond(w, before); }
      if hasty && disk != was { log := log.(rushed := true); }
    }

    method PutBack(b: Name, ghost tree: FileMap) returns (r: Reply)
      requires Valid() && b.Rollback?
      modifies this`disk, this`pending, this`images, this`log
      ensures Valid() && OnlyCallsFail(r)
      ensures fs.works && b in old(disk.dirs) && Live !in old(disk.dirs) ==> r.Done?
      ensures r.Done? ==> b in old(disk.dirs) && Live !in old(disk.dirs)
      ensures r.Done? ==> log.moveBacks > 0 && disk == Apply(old(disk), Move(b, Live)) && MaybeNoLive()
      ensures unchanged(this) ||
        (b in old(disk.dirs) && Live !in old(disk.dirs) && disk == Apply(old(disk), Move(b, Live)) &&
         log == old(log).(moveBacks := old(log).moveBacks + 1) && MaybeNoLive())
      ensures old(images) <= images
      ensures old(AllReturning(b, tree)) ==> AllReturning(b, tree)
    {
      ghost var before, all := disk, images;
      r := Rename(b, Live);
      assert before in images;
      forall d | d in images && old(AllReturning(b, tree)) ensures Returning(d, b, tree) {
        var o :| o in all && (d == o || d == Apply(o, Move(b, Live)));
        MovedBack(o, b, tree);
      }
    }

    /** Before activation the rollback tree wins, whatever is live. */
    method ReplaceLive(j: Journal, rootExists: bool, ghost tree: FileMap) returns (r: Reply)
      requires Valid() && j.rollback.Rollback? && j.phase != Activated &&
        disk.journal == Some(j) && j.rollback in disk.dirs
      requires rootExists ==> Live in disk.dirs
      modifies this`disk, this`pending, this`images, this`log
      ensures Valid() && OnlyCallsFail(r)
      ensures Grown(old(log)) && log.rushed == old(log).rushed && log.drops == old(log).drops && disk.journal == Some(j)
      ensures old(images) <= images
      ensures forall n :: n in disk.dirs && n != Live ==> n in old(disk.dirs)
      ensures TreeAt(old(disk), j.rollback) == Some(tree) && WellFormed(j) ==>
        Recoverable(disk) && Outcome(disk) == Some(tree) && (r.Done? ==> TreeAt(disk, Live) == Some(tree))
      ensures fs.works && (Live in old(disk.dirs) ==> rootExists) ==> r.Done?
      ensures r.Done? ==> j.rollback !in disk.dirs && log.moveBacks > 0 && (Live in old(disk.dirs) ==> rootExists)
      ensures r.Done? ==> Live in disk.dirs && disk.dirs[Live] == old(disk.dirs[j.rollback])
      ensures old(Away(j.rollback, tree)) ==> Away(j.rollback, tree)
      ensures old(MaybeBeyond()) ==> MaybeBeyond()
    {
      if rootExists {
        r := ClearAway(j, tree);
        if !r.Done? { return; }
      }
      ghost var before := images;
      r := PutBack(j.rollback, tree);
      WitnessesStay(before);
    }

    /** The live tree goes while the rollback tree is still the one that counts. */
    method ClearAway(j: Journal, ghost tree: FileMap) returns (r: Reply)
      requires Valid() && j.phase != Activated &&
        disk.journal == Some(j) && j.rollback in disk.dirs && Live in disk.dirs
      requires j.rollback.Rollback?
      modifies this`disk, this`pending, this`images, this`log
      ensures Valid() && OnlyCallsFail(r) && (fs.works ==> r.Done?)
      ensures log == old(log).(removals := log.removals) && disk.journal == Some(j) && j.rollback in disk.dirs
      ensures old(images) <= images && (forall n :: n in disk.dirs ==> n in old(disk.dirs))
      ensures disk.dirs[j.rollback] == old(disk.dirs[j.rollback])
      ensures r.Done? ==> Live !in disk.dirs
      ensures old(Away(j.rollback, tree)) ==> Away(j.rollback, tree)
      ensures old(MaybeBeyond()) ==> MaybeBeyond()
    {
      ghost var before := images;
      r := ClearLive(j.rollback, tree);
      WitnessesStay(before);
      AsideReturns(j.rollback, tree);
    }

    /** The right tree is in place on disk; a crash may still find it elsewhere. */
    ghost predicate Placed(j: Journal, tree: FileMap)
      reads this
    {
      && Valid() && disk.journal == Some(j) && WellFormed(j) && TreeAt(disk, Live) == Some(tree) && Recoverable(disk)
      && Outcome(disk) == Some(tree)
      && if Exposed(log) then MaybeBeyond()
         else AtHome(tree) || (Away(j.rollback, tree) && j.rollback !in disk.dirs)
    }

    /** `activated` without a live tree: the old one comes back. */
    method ReturnTree(j: Journal, ghost tree: FileMap) returns (r: Reply)
      requires Valid() && disk.journal == Some(j) &&
        j.rollback.Rollback? && j.phase == Activated && j.rollback in disk.dirs
      modifies this`disk, this`pending, this`images, this`log
      ensures Valid() && OnlyCallsFail(r) && Grown(old(log)) && disk.journal == Some(j)
      ensures forall n :: n in disk.dirs && n != Live ==> n in old(disk.dirs)
      ensures disk == old(disk) || (Live !in old(disk.dirs) && disk == Apply(old(disk), Move(j.rollback, Live)))
      ensures r.Done? ==> disk != old(disk)
      ensures fs.works && Live !in old(disk.dirs) ==> r.Done?
      ensures old(Calm()) && old(Live !in disk.dirs) && Outcome(old(disk)) == Some(tree) ==>
        Calm() && (r.Done? ==> Placed(j, tree)) && (Exposed(log) || !IsUndecided())
    {
      ghost var all := images;
      r := PutBack(j.rollback, tree);
      WitnessesStay(all);
    }

    /** `activated` with a live tree: the old one goes. */
    method ForgetTree(j: Journal, ghost tree: FileMap) returns (r: Reply)
      requires Valid() && disk.journal == Some(j) && j.rollback.Rollback? && j.phase == Activated
      requires Live in disk.dirs && j.rollback in disk.dirs
      modifies this`disk, this`pending, this`images, this`log
      ensures Valid() && OnlyCallsFail(r) && (fs.works ==> r.Done?) && Grown(old(log)) && disk.journal == Some(j)
      ensures r.Done? ==> disk == Apply(old(disk), Drop(j.rollback))
      ensures disk == old(disk) || disk == Apply(old(disk), Tear(j.rollback)) ||
        disk == Apply(old(disk), Drop(j.rollback))
      ensures old(Calm()) && Outcome(old(disk)) == Some(tree) ==>
        Calm() && (r.Done? ==> Placed(j, tree)) && (Exposed(log) || !IsUndecided() || images == old(images))
    {
      ghost var all := images;
      ghost var w := if IsUndecided() then (var w :| Undecided(w); w) else Swap(j.staging, j.rollback, tree, tree);
      ghost var late := Undecided(w);
      r := ClearRollback(j.rollback, tree, w);
      WitnessesStay(all);
      assert late && images == all ==> Undecided(w);
    }

    /** The `switch` of recoverInterruptedRestore: put the right tree in place. */
    method SettleTree(j: Journal, misread: set<Name>) returns (r: Reply)
      requires Valid() && disk.journal == Some(j) && j.rollback.Rollback?
      modifies this`disk, this`pending, this`images, this`log
      ensures Valid() && Grown(old(log)) && disk.journal == Some(j)
      ensures forall n :: n in disk.dirs && n != Live ==> n in old(disk.dirs)
      ensures old(Recoverable(disk)) && !Stranded(old(disk), misread) ==>
        && Recoverable(disk) && Outcome(disk) == old(Outcome(disk))
        && (r.Done? ==> TreeAt(disk, Live) == Outcome(disk))
        && (misread == {} ==> OnlyCallsFail(r))
        && (misread == {} && fs.works ==> r.Done?)
      ensures r.Done? && j.rollback !in misread ==> j.rollback !in disk.dirs
      ensures Stranded(old(disk), misread) && j.phase != Unknown ==> r.Done? && disk == old(disk)
      ensures old(Calm()) && misread == {} ==> Calm() && (r.Done? ==> Placed(j, old(Outcome(disk)).value))
      ensures old(Calm()) && misread == {} && IsUndecided() && !Exposed(log) ==> images == old(images)
      ensures j.phase == Unknown ==> unchanged(this) && r == Failed(UnknownPhase)
      ensures misread == {} && j.phase != Unknown ==> Kept(old(disk), j, r)
      ensures misread == {} && j.phase != Unknown && KeptSlot(old(disk), j).None? ==> unchanged(this)
    {
      ghost var tree := if Outcome(disk).Some? then Outcome(disk).value else map[];
      var rootExists := PathExists(Live, misread);
      var rollbackExists := PathExists(j.rollback, misread);
      match j.phase {
        case Activated =>
          if !rootExists {
            if !rollbackExists { return Failed(NeitherTree); }
            r := ReturnTree(j, tree);
            return;
          } else if rollbackExists {
            r := ForgetTree(j, tree);
            return;
          }
        case Prepared | LiveMoved =>
          if rollbackExists {
            r := ReplaceLive(j, rootExists, tree);
            return;
          } else if !rootExists {
            return Failed(NeitherTree);
          }
        case Unknown => return Failed(UnknownPhase);
      }
      return Done;
    }

    /** Deleting the staging directory touches nothing recovery looks at. */
    method DropStaging(j: Journal, ghost tree: FileMap) returns (r: Reply)
      requires Valid()
      modifies this`disk, this`pending, this`images, this`log
      ensures Valid() && OnlyCallsFail(r) && (fs.works ==> r.Done?)
      ensures log == old(log).(removals := old(log).removals + {j.staging}) && old(images) <= images
      ensures disk == old(disk) || disk == Apply(old(disk), Tear(j.staging)) ||
        disk == Apply(old(disk), Drop(j.staging))
      ensures r.Done? ==> disk == Apply(old(disk), Drop(j.staging))
      ensures j.staging.Staging? && old(AllRest(tree)) ==> AllRest(tree)
      ensures j.staging.Staging? && old(AllReturning(j.rollback, tree)) ==> AllReturning(j.rollback, tree)
    {
      ghost var before := images;
      r := RemoveAll(j.staging);
      if j.staging.Staging? {
        forall d | d in images && old(AllRest(tree)) ensures Resting(d, tree) {
          var o :| o in before && (d == o || d == Apply(o, Tear(j.staging)) || d == Apply(o, Drop(j.staging)));
          OutcomeWithout(o, j.staging, tree);
        }
        forall d | d in images && old(AllReturning(j.rollback, tree)) ensures Returning(d, j.rollback, tree) {
          var o :| o in before && (d == o || d == Apply(o, Tear(j.staging)) || d == Apply(o, Drop(j.staging)));
          ReturningWithout(o, j.staging, j.rollback, tree);
        }
      }
    }

    method ClearStaging(j: Journal, ghost tree: FileMap) returns (r: Reply)
      requires Valid()
      modifies this`disk, this`pending, this`images, this`log
      ensures Valid() && OnlyCallsFail(r) && (fs.works ==> r.Done?)
      ensures log == old(log).(removals := old(log).removals + {j.staging}) && old(images) <= images
      ensures disk == old(disk) || disk == Apply(old(disk), Tear(j.staging)) ||
        disk == Apply(old(disk), Drop(j.staging))
      ensures r.Done? ==> disk == Apply(old(disk), Drop(j.staging))
      ensures old(Placed(j, tree)) ==> Placed(j, tree)
    {
      ghost var before, was, placed := images, disk, Placed(j, tree);
      r := DropStaging(j, tree);
      WitnessesStay(before);
      if placed { OutcomeWithout(was, j.staging, tree); }
    }

    /** Removing the journal is safe exactly when nothing was moved back since the last sync. */
    method DropSettled(j: Journal, ghost tree: FileMap) returns (r: Reply)
      requires Valid()
      modifies this`disk, this`pending, this`images, this`log
      ensures Valid() && OnlyCallsFail(r) && (fs.works ==> r.Done?)
      ensures log == old(log) || log == old(log).(drops := old(log).drops + 1)
      ensures disk == if log == old(log) then old(disk) else Apply(old(disk), DropJournal)
      ensures log == old(log) ==> unchanged(this)
      ensures old(images) <= images
      ensures r.Done? ==> disk.journal.None?
      ensures old(Placed(j, tree)) && log != old(log) ==>
        if Exposed(log) then MaybeBeyond() else AllRest(tree) && log.moveBacks == 0
    {
      ghost var bare := if MaybeNoLive() then (var d :| d in images && TreeAt(d, Live).None?; d) else disk;
      r := Perform(DropJournal);
      if log != old(log) {
        assert Apply(bare, DropJournal) in images;
      }
    }

    lemma PlacedIsCalm(j: Journal, tree: FileMap)
      requires Placed(j, tree)
      ensures Calm() && (!Exposed(log) ==> AllKeep(tree))
    {
      if Away(j.rollback, tree) { AwayIsKept(j.rollback, tree); }
    }

    /** The tail of recoverInterruptedRestore: no directory but the staging one is touched. */
    method CloseJournal(j: Journal, ghost tree: FileMap) returns (r: Reply)
      requires Valid() && disk.journal == Some(j)
      modifies this`disk, this`synced, this`pending, this`images, this`log
      ensures Valid()
      ensures OnlyCallsFail(r) && log.activations == old(log).activations && (fs.works ==> r.Done?)
      ensures disk.journal == old(disk.journal) || disk.journal.None?
      ensures forall n :: n != j.staging ==> (n in disk.dirs <==> n in old(disk.dirs))
      ensures forall n :: n != j.staging && n in disk.dirs ==> disk.dirs[n] == old(disk.dirs[n])
      ensures j.staging in disk.dirs ==> j.staging in old(disk.dirs)
      ensures old(Placed(j, tree)) ==> Calm() && Outcome(disk) == Some(tree) && (!Exposed(log) ==> AllKeep(tree))
      ensures r.Done? ==> Synced() && disk.journal.None? && j.staging !in disk.dirs
    {
      r := ClearStaging(j, tree);
      if Placed(j, tree) { PlacedIsCalm(j, tree); }
      if !r.Done? { return; }
      r := DropAndSync(j, tree);
    }

    method DropAndSync(j: Journal, ghost tree: FileMap) returns (r: Reply)
      requires Valid() && disk.journal == Some(j)
      modifies this`disk, this`synced, this`pending, this`images, this`log
      ensures Valid()
      ensures OnlyCallsFail(r) && log.activations == old(log).activations && (fs.works ==> r.Done?)
      ensures disk.dirs == old(disk.dirs) && (disk.journal == old(disk.journal) || disk.journal.None?)
      ensures old(Placed(j, tree)) ==> Calm() && Outcome(disk) == Some(tree) && (!Exposed(log) ==> AllKeep(tree))
      ensures r.Done? ==> Synced() && disk.journal.None?
    {
      if Placed(j, tree) { PlacedIsCalm(j, tree); }
      r := DropSettled(j, tree);
      if !r.Done? { return; }
      r := Sync();
    }

    /**
     recoverInterruptedRestore. Wherever it stops it has not changed which tree
     recovery will make live, so it may itself be interrupted any number of times.
     Under lost operations it keeps Calm: some crash image is beyond recovery
     exactly when a tree was moved back and a journal removed since the last
     sync, or the old tree was deleted before its replacement was synced.
     */
    method Recover(misread: set<Name>) returns (r: Reply)
      requires Valid()
      modifies this`disk, this`synced, this`pending, this`images, this`log
      ensures Valid() && log.activations == old(log).activations
      ensures old(Recoverable(disk)) && !Stranded(old(disk), misread) ==>
        && Recoverable(disk) && Outcome(disk) == old(Outcome(disk))
        && (r.Done? ==> disk.journal.None? && TreeAt(disk, Live) == old(Outcome(disk)))
        && (misread == {} ==> OnlyCallsFail(r))
        && (misread == {} && fs.works ==> r.Done?)
      ensures misread == {} && old(NoOrphans(disk)) ==> NoOrphans(disk)
      ensures forall n :: n in disk.dirs && n != Live ==> n in old(disk.dirs)
      ensures r.Done? && old(disk.journal.Some?) ==>
        && Synced() && disk.journal.None?
        && old(disk.journal.value.staging) !in disk.dirs
        && (misread == {} ==> old(disk.journal.value.rollback) !in disk.dirs)
      ensures old(disk.journal.None?) ==> r.Done? && unchanged(this)
      ensures old(Recoverable(disk)) && Stranded(old(disk), misread) ==>
        && (fs.works ==> r.Done?)
        && (r.Done? ==> TreeAt(disk, Live) == TreeAt(old(disk), Live))
      ensures misread == {} && old(Calm()) ==> Calm() && (!Exposed(log) ==> Outcomes() <= old(Possible()))
      ensures old(disk.journal.Some?) ==>
        var j := old(disk).journal.value;
        && (!(j.staging.Staging? && j.rollback.Rollback?) ==> unchanged(this) && RefusedWith(r, ForeignJournal))
        && (j.staging.Staging? && j.rollback.Rollback? && j.phase == Unknown ==>
              unchanged(this) && RefusedWith(r, UnknownPhase))
        && (misread == {} && WellFormed(j) ==>
              if KeptSlot(old(disk), j).None? then unchanged(this) && RefusedWith(r, NeitherTree)
              else (r.Done? ==> Live in disk.dirs && disk.dirs[Live] == KeptSlot(old(disk), j).value) &&
                   (fs.works ==> r.Done?))
    {
      ghost var tree := if Outcome(disk).Some? then Outcome(disk).value else map[];
      if disk.journal.None? { return Done; }
      if !fs.works {
        if * { return Failed(CallFailed); }
      }
      var j := disk.journal.value;
      if !j.staging.Staging? || !j.rollback.Rollback? { return Failed(ForeignJournal); }
      r := SettleTree(j, misread);
      if !r.Done? { return; }
      r := CloseJournal(j, tree);
    }

    // ----- the truncating restore -----

    ghost predicate AllPreparing(w: Swap)
      reads this
    {
      forall d :: d in images ==> Preparing(d, w)
    }

    ghost predicate AllMoving(w: Swap)
      reads this
    {
      forall d :: d in images ==> Moving(d, w)
    }

    ghost predicate AllEarly(w: Swap)
      reads this
    {
      forall d :: d in images ==> Preparing(d, w) || Moving(d, w)
    }

    /** Some crash image has the old tree set aside. */
    ghost predicate MaybeAside(w: Swap)
      reads this
    {
      exists d :: d in images && SetAside(d, w)
    }

    /** Some crash image has the old tree set aside and no journal to say so. */
    ghost predicate MaybeLost(w: Swap)
      reads this
    {
      exists d :: d in images && SetAside(d, w) && d.journal.None?
    }

    ghost predicate AllOldOrNew(w: Swap)
      reads this
    {
      forall d :: d in images ==> OldOrNew(d, w)
    }

    ghost predicate Named(w: Swap)
      reads this
    {
      WellNamed(w) && w.rollback in names
    }

    /** The crash images are those of a restore being prepared, unless an earlier call exposed them. */
    ghost predicate Guarded(w: Swap)
      reads this
    {
      if Exposed(log) then MaybeBeyond() else AllPreparing(w) && log.moveBacks == 0
    }

    lemma PreparingIsCalm(w: Swap)
      requires Valid() && WellNamed(w) && Preparing(disk, w) && OwnJournal(disk, w) && Guarded(w)
      ensures Shielded(w)
    {
      if !Exposed(log) {
        EarlyIsSafe(w);
      }
    }

    /** The old tree is on its way aside or back. */
    lemma MovingIsCalm(w: Swap)
      requires Valid() && WellNamed(w) && AllMoving(w) && log.drops == 0 && !log.rushed
      requires if log.moveBacks > 0 then MaybeAside(w) else SetAside(disk, w)
      ensures Away(w.rollback, w.before) && Shielded(w)
    {
      EarlyIsSafe(w);
      forall d | d in images ensures Returning(d, w.rollback, w.before) {
        assert Moving(d, w);
      }
      if d :| d in images && SetAside(d, w) {
        assert TreeAt(d, Live).None?;
      }
    }

    /** Extract into the staging directory. */
    method Extract(w: Swap) returns (r: Reply)
      requires Valid() && Named(w) && Preparing(disk, w) && disk.journal.None?
      requires w.staging in disk.dirs
      modifies this`disk, this`pending, this`images, this`log
      ensures old(NoStray(disk, w)) ==> NoStray(disk, w)
      ensures Valid() && OnlyCallsFail(r) && log == old(log) && (fs.works ==> r.Done?)
      ensures Preparing(disk, w) && disk.journal.None?
      ensures old(Guarded(w)) ==> Guarded(w)
      ensures r.Done? ==> TreeAt(disk, w.staging) == Some(w.after)
    {
      ghost var before, all := images, AllPreparing(w);
      r := Perform(Fill(w.staging, w.after));
      forall d | d in images && all ensures Preparing(d, w) {
        var o :| o in before && (d == o || d == Apply(o, Fill(w.staging, w.after)));
        assert Preparing(o, w);
      }
      if !all { WitnessesStay(before); }
    }

    /** Extract into the staging directory and journal `prepared`. */
    method Prepare(w: Swap) returns (r: Reply)
      requires Valid() && Named(w) && Preparing(disk, w) && disk.journal.None?
      requires w.staging in disk.dirs
      modifies this`disk, this`synced, this`pending, this`images, this`log
      ensures old(NoStray(disk, w)) ==> NoStray(disk, w)
      ensures Valid() && OnlyCallsFail(r) && (log == old(log) || log == AfterSync(old(log))) && (fs.works ==> r.Done?)
      ensures Preparing(disk, w) && OwnJournal(disk, w)
      ensures old(Guarded(w)) ==> Guarded(w)
      ensures old(!Exposed(log)) ==> !Exposed(log)
      ensures r.Done? ==> Synced() && Journaled(disk, w, Prepared) && TreeAt(disk, w.staging) == Some(w.after)
    {
      r := Extract(w);
      if !r.Done? { return; }
      ghost var before := images;
      r := WriteJournal(Journal(w.staging, w.rollback, Prepared));
      if before <= images { WitnessesStay(before); }
    }

    /** Undo the move of the live tree; no sync follows. */
    method MoveBack(w: Swap) returns (r: Reply)
      requires Valid() && Named(w) && SetAside(disk, w) && AllMoving(w)
      modifies this`disk, this`pending, this`images, this`log
      ensures old(NoStray(disk, w)) ==> NoStray(disk, w)
      ensures Valid() && OnlyCallsFail(r) && disk.journal == old(disk.journal)
      ensures Moving(disk, w) && AllMoving(w) && MaybeAside(w)
      ensures r.Done? ==> TreeAt(disk, Live) == Some(w.before) && w.rollback !in disk.dirs
      ensures r.Done? ==> log == old(log).(moveBacks := old(log).moveBacks + 1)
      ensures r.Failed? ==> log == old(log)
      ensures log == old(log) || log == old(log).(moveBacks := old(log).moveBacks + 1)
      ensures log == old(log) ==> unchanged(this)
    {
      assert Moving(disk, w);
      ghost var aside := disk;
      r := Rename(w.rollback, Live);
      assert aside in images && SetAside(aside, w);
    }

    /** Rename the live tree to the rollback name. */
    method MoveAside(w: Swap) returns (r: Reply)
      requires Valid() && Synced() && Named(w) && Preparing(disk, w) && Journaled(disk, w, Prepared)
      requires TreeAt(disk, w.staging) == Some(w.after)
      modifies this`disk, this`pending, this`images, this`log
      ensures old(NoStray(disk, w)) ==> NoStray(disk, w)
      ensures Valid() && OnlyCallsFail(r) && log == old(log) && (fs.works ==> r.Done?)
      ensures Journaled(disk, w, Prepared)
      ensures forall d :: d in images ==> Moving(d, w) && TreeAt(d, w.staging) == Some(w.after)
      ensures r.Done? ==> Live !in disk.dirs
      ensures unchanged(this) || SetAside(disk, w)
      ensures r.Failed? ==> unchanged(this)
    {
      r := Rename(Live, w.rollback);
    }

    /** Journal `live-moved`; on failure put the live tree back. */
    method RecordMove(w: Swap) returns (r: Reply, movedBack: bool)
      requires Valid() && Clean(log) && Named(w) && Journaled(disk, w, Prepared) && Live !in disk.dirs
      requires forall d :: d in images ==> Moving(d, w) && TreeAt(d, w.staging) == Some(w.after)
      modifies this`disk, this`synced, this`pending, this`images, this`log
      ensures old(NoStray(disk, w)) ==> NoStray(disk, w)
      ensures Valid() && OnlyCallsFail(r) && (fs.works ==> r.Done?)
      ensures log == old(log).(moveBacks := log.moveBacks)
      ensures r.Failed? ==> movedBack == (log.moveBacks > 0)
      ensures AllMoving(w) && if log.moveBacks > 0 then MaybeAside(w) else SetAside(disk, w)
      ensures movedBack ==> r.Failed? && MaybeAside(w)
      ensures movedBack ==> TreeAt(disk, Live) == Some(w.before) && w.rollback !in disk.dirs
      ensures r.Done? ==> Synced() && log == old(log) && Journaled(disk, w, LiveMoved)
      ensures r.Done? ==> SetAside(disk, w) && TreeAt(disk, w.staging) == Some(w.after)
    {
      movedBack := false;
      r := WriteJournal(Journal(w.staging, w.rollback, LiveMoved));
      if r.Failed? {
        assert SetAside(disk, w);
        var back := MoveBack(w);
        if back.Crashed? { return back, false; }
        movedBack := back.Done?;
      }
    }

    /** The staged tree goes live. */
    method RenameStaged(w: Swap) returns (r: Reply)
      requires Valid() && Synced() && Named(w) && Journaled(disk, w, LiveMoved)
      requires SetAside(disk, w) && TreeAt(disk, w.staging) == Some(w.after)
      modifies this`disk, this`pending, this`images, this`log
      ensures old(NoStray(disk, w)) ==> NoStray(disk, w)
      ensures Valid() && OnlyCallsFail(r) && log == old(log) && (fs.works ==> r.Done?)
      ensures Journaled(disk, w, LiveMoved)
      ensures forall d :: d in images ==> Activating(d, w) && Journaled(d, w, LiveMoved)
      ensures r.Failed? ==> unchanged(this)
      ensures r.Done? ==> TreeAt(disk, Live) == Some(w.after) && w.staging !in disk.dirs
    {
      r := Rename(w.staging, Live);
    }

    lemma RenamedIsAway(w: Swap)
      requires WellNamed(w) && log.drops == 0 && log.moveBacks == 0 && Valid()
      requires forall d :: d in images ==> Activating(d, w) && Journaled(d, w, LiveMoved)
      ensures Away(w.rollback, w.before)
    {
    }

    /** Until the entry is synced, some crash images still say `live-moved`. */
    method JournalActivation(w: Swap) returns (r: Reply)
      requires Valid() && Named(w) && Clean(log) && TreeAt(disk, Live) == Some(w.after) && synced.journal != None
      requires synced.journal.value.phase == LiveMoved && w.staging !in disk.dirs
      requires forall d :: d in images ==> Activating(d, w) && Journaled(d, w, LiveMoved)
      modifies this`disk, this`synced, this`pending, this`images, this`log
      ensures Valid() && OnlyCallsFail(r) && (fs.works ==> r.Done?) && disk.dirs == old(disk.dirs)
      ensures (forall d :: d in images ==> Activating(d, w)) && Clean(log)
      ensures if log.activations == old(log).activations then unchanged(this)
              else log.activations > old(log).activations && Journaled(disk, w, Activated) && (Synced() || Undecided(w))
      ensures r.Done? ==> log.activations > old(log).activations
    {
      ghost var late := disk;
      r := WriteJournal(Journal(w.staging, w.rollback, Activated));
      assert late in images ==> Journaled(late, w, LiveMoved) && w.rollback in late.dirs;
    }

    /** Make the staged tree live and journal `activated`. */
    method Activate(w: Swap) returns (r: Reply, renamed: bool, movedBack: bool)
      requires Valid() && Synced() && Named(w) && Journaled(disk, w, LiveMoved)
      requires SetAside(disk, w) && TreeAt(disk, w.staging) == Some(w.after)
      modifies this`disk, this`synced, this`pending, this`images, this`log
      ensures old(NoStray(disk, w)) ==> NoStray(disk, w)
      ensures Valid() && OnlyCallsFail(r) && (fs.works ==> r.Done?)
      ensures forall d :: d in images ==> Moving(d, w) || Activating(d, w)
      ensures log.drops == 0 && !log.rushed && log.activations >= old(log).activations
      ensures r.Failed? && !renamed ==> log.activations == old(log).activations && AllMoving(w)
      ensures r.Failed? && !renamed ==> movedBack == (log.moveBacks > 0)
      ensures movedBack ==> r.Failed? && !renamed && MaybeAside(w)
      ensures movedBack ==> TreeAt(disk, Live) == Some(w.before) && w.rollback !in disk.dirs
      ensures if log.activations == old(log).activations
        then Journaled(disk, w, LiveMoved) && Away(w.rollback, w.before)
              else Journaled(disk, w, Activated) && TreeAt(disk, Live) == Some(w.after) && (Synced() || Undecided(w))
      ensures r.Done? ==> renamed && Synced() && log.activations > old(log).activations
      ensures renamed ==> log.moveBacks == 0 && w.staging !in disk.dirs
    {
      movedBack, renamed := false, false;
      r := RenameStaged(w);
      if r.Failed? {
        var back := MoveBack(w);
        MovingIsCalm(w);
        if back.Crashed? { return back, false, false; }
        movedBack := back.Done?;
        return;
      }
      RenamedIsAway(w);
      if r.Crashed? { return; }
      renamed := true;
      r := JournalActivation(w);
      if !r.Done? { return; }
      r := Sync();
    }

    method DropOld(w: Swap) returns (r: Reply)
      requires Valid() && Synced() && Named(w) && Journaled(disk, w, Activated)
      requires TreeAt(disk, Live) == Some(w.after)
      modifies this`disk, this`pending, this`images, this`log
      ensures old(NoStray(disk, w)) ==> NoStray(disk, w)
      ensures Valid() && OnlyCallsFail(r) && (fs.works ==> r.Done?)
      ensures log == old(log).(removals := old(log).removals + {w.rollback})
      ensures Finishing(disk, w) && disk.journal == old(disk.journal) && AllFinishing(w)
      ensures w.staging in disk.dirs ==> w.staging in old(disk.dirs)
      ensures r.Done? ==> w.rollback !in disk.dirs
    {
      r := DropTree(w);
    }

    method DropTree(w: Swap) returns (r: Reply)
      requires Valid() && WellNamed(w) && AllFinishing(w)
      modifies this`disk, this`pending, this`images, this`log
      ensures Valid() && OnlyCallsFail(r) && (fs.works ==> r.Done?)
      ensures log == old(log).(removals := old(log).removals + {w.rollback})
      ensures r.Done? ==> disk == Apply(old(disk), Drop(w.rollback))
      ensures disk == old(disk) || disk == Apply(old(disk), Tear(w.rollback)) ||
        disk == Apply(old(disk), Drop(w.rollback))
      ensures AllFinishing(w)
    {
      ghost var before := images;
      r := RemoveAll(w.rollback);
      FinishingRemains(before, images, w);
    }

    /** Drop the old tree and the journal. (The deferred removal then finds no journal.) */
    method Finish(w: Swap) returns (r: Reply)
      requires Valid() && Synced() && Named(w) && Journaled(disk, w, Activated)
      requires TreeAt(disk, Live) == Some(w.after)
      modifies this`disk, this`synced, this`pending, this`images, this`log
      ensures old(NoStray(disk, w)) ==> NoStray(disk, w)
      ensures Valid() && OnlyCallsFail(r) && (fs.works ==> r.Done?)
      ensures log.activations == old(log).activations && log.moveBacks == 0 && !log.rushed
      ensures Finishing(disk, w) && AllFinishing(w)
      ensures disk.journal.None? ==> w.rollback !in disk.dirs
      ensures disk.journal.Some? ==> synced.journal == disk.journal
      ensures w.staging in disk.dirs ==> w.staging in old(disk.dirs)
      ensures r.Done? ==> disk.journal.None? && Synced()
    {
      r := DropOld(w);
      if !r.Done? { return; }
      r := Perform(DropJournal);
      if !r.Done? { return; }
      r := Sync();
    }

    ghost predicate AllFinishing(w: Swap)
      reads this
    {
      forall d :: d in images ==> Finishing(d, w)
    }

    // ----- deferred clean-up, last registered first -----

    /** Remove the journal of a restore that never activated; no sync follows. */
    method RetractJournal(w: Swap) returns (r: Reply)
      requires Valid() && TreeAt(disk, Live) == Some(w.before) && w.rollback !in disk.dirs && Started(disk, w)
      requires AllPreparing(w) || (AllMoving(w) && MaybeAside(w))
      modifies this`disk, this`pending, this`images, this`log
      ensures old(NoStray(disk, w)) ==> NoStray(disk, w)
      ensures Valid() && OnlyCallsFail(r) && Started(disk, w)
      ensures log == old(log) || log == old(log).(drops := old(log).drops + 1)
      ensures log == old(log) ==> unchanged(this)
      ensures (r.Done? ==> disk.journal.None?) && (fs.works ==> r.Done?)
      ensures old(images) <= images && disk.dirs == old(disk.dirs)
      ensures old(AllPreparing(w)) ==> AllPreparing(w)
      ensures old(MaybeAside(w)) && log != old(log) ==> MaybeLost(w)
    {
      ghost var aside := if MaybeAside(w) then (var d :| d in images && SetAside(d, w); d) else disk;
      r := Perform(DropJournal);
      if log != old(log) {
        assert Apply(aside, DropJournal) in images;
        assert SetAside(aside, w) ==> SetAside(Apply(aside, DropJournal), w);
      }
    }

    method RemoveStaging(w: Swap) returns (r: Reply)
      requires Valid() && WellNamed(w) && Started(disk, w)
      modifies this`disk, this`pending, this`images, this`log
      ensures old(NoStray(disk, w)) ==> NoStray(disk, w)
      ensures Valid() && OnlyCallsFail(r) && log == old(log).(removals := old(log).removals + {w.staging})
      ensures r.Done? ==> w.staging !in disk.dirs
      ensures old(images) <= images && Started(disk, w) && disk.journal == old(disk.journal)
      ensures old(AllMoving(w)) ==> AllMoving(w)
      ensures old(AllPreparing(w)) ==> AllPreparing(w)
      ensures w.rollback in disk.dirs <==> w.rollback in old(disk.dirs)
    {
      ghost var was := disk;
      StagingIsIrrelevant(was, w);
      r := DropStagingTree(w);
    }

    method DropStagingTree(w: Swap) returns (r: Reply)
      requires Valid() && WellNamed(w)
      modifies this`disk, this`pending, this`images, this`log
      ensures Valid() && OnlyCallsFail(r) && log == old(log).(removals := old(log).removals + {w.staging})
      ensures r.Done? ==> disk == Apply(old(disk), Drop(w.staging))
      ensures disk == old(disk) || disk == Apply(old(disk), Tear(w.staging)) ||
        disk == Apply(old(disk), Drop(w.staging))
      ensures old(images) <= images
      ensures old(AllMoving(w)) ==> AllMoving(w)
      ensures old(AllPreparing(w)) ==> AllPreparing(w)
    {
      ghost var before := images;
      r := RemoveAll(w.staging);
      EarlyRemains(before, images, w);
    }

    method Unwind(w: Swap, dropJournal: bool) returns (r: Reply)
      requires Valid() && WellNamed(w) && Started(disk, w)
      requires dropJournal ==> TreeAt(disk, Live) == Some(w.before) && w.rollback !in disk.dirs
      requires dropJournal ==> AllPreparing(w) || (AllMoving(w) && MaybeAside(w))
      modifies this`disk, this`pending, this`images, this`log
      ensures old(NoStray(disk, w)) ==> NoStray(disk, w)
      ensures Valid() && (r.Crashed? || r == Failed(CallFailed)) && Started(disk, w)
      ensures log == old(log).(removals := log.removals, drops := log.drops) && log.drops >= old(log).drops
      ensures log.drops == old(log).drops ==> disk.journal == old(disk.journal)
      ensures old(AllMoving(w)) && log.drops == old(log).drops ==> AllMoving(w)
      ensures old(AllPreparing(w)) ==> AllPreparing(w)
      ensures old(images) <= images && (w.rollback in disk.dirs <==> w.rollback in old(disk.dirs))
      ensures old(MaybeAside(w)) && log.drops > old(log).drops ==> MaybeLost(w)
      ensures !dropJournal ==> log.drops == old(log).drops
      ensures dropJournal && fs.works ==> disk.journal.None?
      ensures r.Failed? ==> w.staging in log.removals
    {
      r := Failed(CallFailed);
      if dropJournal {
        var dropped := RetractJournal(w);
        if dropped.Crashed? { return dropped; }
      }
      var removed := RemoveStaging(w);
      if removed.Crashed? { r := removed; }
    }

    // ----- a whole restore -----

    /** The restore stopped before the staged tree went live. */
    ghost predicate Early(w: Swap, dropJournal: bool, l: Log)
      reads this
    {
      && Started(disk, w) && log.activations == l.activations
      && (dropJournal ==> TreeAt(disk, Live) == Some(w.before) && w.rollback !in disk.dirs)
      && (dropJournal ==> log.drops == 0 && !log.rushed)
      && (dropJournal ==>
        if log.moveBacks > 0 then AllMoving(w) && MaybeAside(w) && disk.journal.Some? else AllPreparing(w))
    }

    /** It stopped there with the journal, if any, left to recovery. */
    ghost predicate Sheltered(w: Swap)
      reads this
    {
      Guarded(w) || (AllMoving(w) && Clean(log) && disk.journal.Some? && w.rollback in disk.dirs)
    }

    /** The restore stopped later, or crashed. */
    ghost predicate Late(w: Swap, l: Log)
      reads this
    {
      && Recoverable(disk) && Outcome(disk) == Some(if log.activations == l.activations then w.before else w.after)
      && log.activations >= l.activations
      && (disk.journal.None? ==> w.rollback !in disk.dirs)
      && (disk.journal.Some? ==> disk.journal.value.rollback == w.rollback)
    }

    /** Under lost operations a restore is safe unless exposed. */
    ghost predicate Shielded(w: Swap)
      reads this
    {
      Calm() && (Exposed(log) || AllOldOrNew(w))
    }

    lemma EarlyIsSafe(w: Swap)
      requires WellNamed(w)
      ensures AllEarly(w) ==> AllOldOrNew(w)
      ensures MaybeLost(w) ==> !AllOldOrNew(w)
    {
      forall d | d in images && (Preparing(d, w) || Moving(d, w)) ensures OldOrNew(d, w) {
        StagesAreSafe(d, w);
      }
    }

    /** From a durable `live-moved` to the end. */
    method Install(w: Swap) returns (r: Reply, renamed: bool, movedBack: bool)
      requires Valid() && Synced() && Named(w) && Journaled(disk, w, LiveMoved)
      requires SetAside(disk, w) && TreeAt(disk, w.staging) == Some(w.after)
      modifies this`disk, this`synced, this`pending, this`images, this`log
      ensures old(NoStray(disk, w)) ==> NoStray(disk, w)
      ensures Valid() && OnlyCallsFail(r) && (fs.works ==> r.Done?)
      ensures if r.Failed? && !renamed then Early(w, movedBack, old(log)) && (!movedBack ==> Sheltered(w))
        else Late(w, old(log)) && Shielded(w)
      ensures !Exposed(log)
      ensures renamed ==> w.staging !in disk.dirs
      ensures r.Done? ==> Synced() && disk.journal.None? && log.activations > old(log).activations
    {
      r, renamed, movedBack := Activate(w);
      InstallIsSafe(w);
      if !r.Done? {
        assert log.activations > old(log).activations && !Synced() ==> Undecided(w);
        return;
      }
      r := Finish(w);
      InstallIsSafe(w);
    }

    lemma InstallIsSafe(w: Swap)
      requires WellNamed(w)
      ensures (forall d :: d in images ==> Moving(d, w) || Activating(d, w)) ==> AllOldOrNew(w)
      ensures AllFinishing(w) ==> AllOldOrNew(w) && AllRest(w.after)
    {
      forall d | d in images && (Moving(d, w) || Activating(d, w) || Finishing(d, w)) ensures OldOrNew(d, w) {
        StagesAreSafe(d, w);
      }
    }

    /** The swap as far as the rename of the live tree. */
    method PrepareAndMove(w: Swap) returns (r: Reply, dropJournal: bool)
      requires Valid() && Named(w) && Preparing(disk, w) && disk.journal.None?
      requires w.staging in disk.dirs
      modifies this`disk, this`synced, this`pending, this`images, this`log
      ensures old(NoStray(disk, w)) ==> NoStray(disk, w)
      ensures Valid() && OnlyCallsFail(r) && (fs.works ==> r.Done?)
      ensures r.Failed? ==> Early(w, dropJournal, old(log)) && (old(Guarded(w)) && !dropJournal ==> Sheltered(w))
      ensures r.Crashed? ==> Late(w, old(log)) && (old(Guarded(w)) ==> Shielded(w))
      ensures old(!Exposed(log)) ==> !Exposed(log)
      ensures log.activations == old(log).activations
      ensures r.Done? ==> Clean(log) && Journaled(disk, w, Prepared) && Live !in disk.dirs
      ensures r.Done? ==> forall d :: d in images ==> Moving(d, w) && TreeAt(d, w.staging) == Some(w.after)
    {
      dropJournal := false;
      r := Prepare(w);
      if !r.Done? {
        if Guarded(w) { PreparingIsCalm(w); }
        return;
      }
      r := MoveAside(w);
      if !r.Done? {
        if SetAside(disk, w) { MovingIsCalm(w); } else { PreparingIsCalm(w); }
        dropJournal := r.Failed?;
      }
    }

    /** The swap up to its return statement, before the deferred clean-up. */
    method MoveTrees(w: Swap) returns (r: Reply, renamed: bool, dropJournal: bool)
      requires Valid() && Named(w) && Preparing(disk, w) && disk.journal.None?
      requires w.staging in disk.dirs
      modifies this`disk, this`synced, this`pending, this`images, this`log
      ensures old(NoStray(disk, w)) ==> NoStray(disk, w)
      ensures Valid() && OnlyCallsFail(r) && (fs.works ==> r.Done?)
      ensures if r.Failed? && !renamed
        then Early(w, dropJournal, old(log)) && (old(Guarded(w)) && !dropJournal ==> Sheltered(w))
        else Late(w, old(log)) && (old(Guarded(w)) ==> Shielded(w))
      ensures old(!Exposed(log)) ==> !Exposed(log)
      ensures renamed ==> w.staging !in disk.dirs
      ensures r.Done? ==> Synced() && disk.journal.None? && log.activations > old(log).activations
    {
      renamed := false;
      r, dropJournal := PrepareAndMove(w);
      if !r.Done? { return; }
      r, dropJournal := RecordMove(w);
      if !r.Done? {
        MovingIsCalm(w);
        return;
      }
      r, renamed, dropJournal := Install(w);
    }

    /** The swap proper with its deferred clean-up: everything after the staging directory exists. */
    method SwapTrees(w: Swap) returns (r: Reply)
      requires Valid() && Named(w) && Preparing(disk, w) && disk.journal.None?
      requires w.staging in disk.dirs
      modifies this`disk, this`synced, this`pending, this`images, this`log
      ensures old(NoStray(disk, w)) ==> NoStray(disk, w)
      ensures Valid() && OnlyCallsFail(r) && (fs.works ==> r.Done?)
      ensures Late(w, old(log))
      ensures old(Guarded(w)) ==> Shielded(w)
      ensures old(Guarded(w) && !Exposed(log)) ==> (AllOldOrNew(w) <==> !Exposed(log))
      ensures r.Failed? && w.staging in disk.dirs ==> w.staging in log.removals
      ensures r.Done? ==> Synced() && disk.journal.None? && log.activations > old(log).activations
    {
      var renamed, dropJournal;
      r, renamed, dropJournal := MoveTrees(w);
      if r.Failed? && !renamed {
        r := CleanUp(w, dropJournal);
      }
    }

    /** The deferred clean-up of a restore that never activated. */
    method CleanUp(w: Swap, dropJournal: bool) returns (r: Reply)
      requires Valid() && WellNamed(w) && Early(w, dropJournal, log)
      modifies this`disk, this`pending, this`images, this`log
      ensures old(NoStray(disk, w)) ==> NoStray(disk, w)
      ensures Valid() && (r.Crashed? || r == Failed(CallFailed))
      ensures Late(w, old(log)) && log.activations == old(log).activations
      ensures dropJournal || old(Sheltered(w)) ==> Shielded(w)
      ensures old(!Exposed(log)) && (dropJournal || old(Sheltered(w))) ==> (AllOldOrNew(w) <==> !Exposed(log))
      ensures r.Failed? ==> w.staging in log.removals
    {
      ghost var before, sheltered := images, Sheltered(w);
      r := Unwind(w, dropJournal);
      WitnessesStay(before);
      if dropJournal || sheltered { UnwoundIsCalm(w); }
    }

    /** What the clean-up leaves. */
    lemma UnwoundIsCalm(w: Swap)
      requires Valid() && WellNamed(w) && Started(disk, w)
      requires
        || (Exposed(log) && MaybeBeyond())
        || (Exposed(log) && MaybeLost(w))
        || (!Exposed(log) && AllPreparing(w) && log.moveBacks == 0)
        || (AllMoving(w) && log.drops == 0 && !log.rushed &&
          if log.moveBacks > 0 then MaybeAside(w) else w.rollback in disk.dirs)
      ensures Shielded(w) && (MaybeLost(w) ==> !AllOldOrNew(w))
    {
      EarlyIsSafe(w);
      if MaybeLost(w) { LostIsBeyond(w); }
      if !Exposed(log) && AllPreparing(w) && log.moveBacks == 0 {
        PreparingIsCalm(w);
      } else if !Exposed(log) {
        assert Moving(disk, w);
        MovingIsCalm(w);
      }
    }

    lemma LostIsBeyond(w: Swap)
      requires MaybeLost(w)
      ensures MaybeBeyond()
    {
      var d :| d in images && SetAside(d, w) && d.journal.None?;
      assert !Recoverable(d);
    }

    method OpenStaging(w: Swap) returns (r: Reply)
      requires Valid() && Named(w) && Preparing(disk, w) && disk.journal.None?
      modifies this`disk, this`pending, this`images, this`log
      ensures old(NoStray(disk, w)) ==> NoStray(disk, w)
      ensures Valid() && OnlyCallsFail(r) && log == old(log)
      ensures Preparing(disk, w) && disk.journal.None?
      ensures old(Guarded(w)) ==> Guarded(w)
      ensures fs.works && w.staging !in old(disk.dirs) ==> r.Done?
      ensures r.Done? ==> w.staging in disk.dirs
      ensures r.Failed? ==> disk == old(disk)
    {
      ghost var before := images;
      r := MakeStaging(w.staging);
      WitnessesStay(before);
    }

    /** From the staging directory on: an archive that cannot be extracted stops there. */
    method Replace(w: Swap, payload: Payload) returns (r: Reply)
      requires Valid() && Named(w) && Preparing(disk, w) && disk.journal.None?
      requires !payload.Refused? && (payload.Holds? ==> payload.tree == w.after)
      modifies this`disk, this`synced, this`pending, this`images, this`log
      ensures old(NoStray(disk, w)) ==> NoStray(disk, w)
      ensures Valid() && OnlyCallsFail(r)
      ensures Late(w, old(log)) && (log.activations > old(log).activations ==> payload.Holds?)
      ensures old(Guarded(w)) ==> Shielded(w)
      ensures old(Guarded(w) && !Exposed(log)) ==> (AllOldOrNew(w) <==> !Exposed(log))
      ensures r.Failed? && w.staging in disk.dirs ==> w.staging in old(disk.dirs) || w.staging in log.removals
      ensures fs.works && w.staging !in old(disk.dirs) && payload.Holds? ==> r.Done?
      ensures r.Done? ==> Synced() && disk.journal.None? && log.activations > old(log).activations
    {
      r := OpenStaging(w);
      if !r.Done? {
        if Guarded(w) { PreparingIsCalm(w); }
        return;
      }
      if payload.Unextractable? {
        r := CleanUp(w, false);
        return;
      }
      r := SwapTrees(w);
    }

    /** No crash can bring back a directory of that name. */
    ghost predicate StampIsNew(stamp: nat)
      reads this
    {
      forall d :: d in images ==> Rollback(stamp) !in d.dirs
    }

    lemma KeptByOutcomes(tree: FileMap)
      ensures AllKeep(tree) ==> Outcomes() <= iset{Some(tree)}
      ensures Outcomes() <= iset{Some(tree)} && (forall d :: d in images ==> Recoverable(d)) ==> AllKeep(tree)
    {
      forall d | d in images ensures Outcome(d) in Outcomes() {
      }
    }

    /** The recovery at the start of a restore. */
    method RecoverFirst(ghost stamp: nat) returns (r: Reply)
      requires Valid() && Recoverable(disk) && Rollback(stamp) !in disk.dirs
      modifies this`disk, this`synced, this`pending, this`images, this`log
      ensures Valid() && Recoverable(disk) && Rollback(stamp) !in disk.dirs &&
        OnlyCallsFail(r) && (fs.works ==> r.Done?)
      ensures log.activations == old(log).activations && Outcome(disk) == old(Outcome(disk))
      ensures forall n :: n in disk.dirs && n != Live ==> n in old(disk.dirs)
      ensures old(NoOrphans(disk)) ==> NoOrphans(disk)
      ensures r.Done? ==> disk.journal.None? && TreeAt(disk, Live) == Outcome(disk)
      ensures r.Done? && old(disk.journal.Some?) ==> old(disk.journal.value.staging) !in disk.dirs
      ensures old(Calm()) ==> Calm() && (!Exposed(log) ==> Outcomes() <= old(Possible()))
      ensures old(StampIsNew(stamp)) && r.Done? ==> StampIsNew(stamp)
      ensures old(Calm() && !Exposed(log) && !Unsettled()) && !Exposed(log) ==> AllKeep(Outcome(disk).value)
    {
      ghost var before, calm := Outcome(disk).value, Calm();
      if calm { CalmIsExact(); }
      KeptByOutcomes(before);
      r := Recover({});
      if calm { CalmIsExact(); }
      KeptByOutcomes(before);
    }

    ghost function TreesOf(payload: Payload): iset<Option<FileMap>> {
      if payload.Holds? then iset{Some(payload.tree)} else iset{}
    }

    /** The swap a restore makes of the tree recovery left. */
    ghost function SwapOf(payload: Payload, id: nat, stamp: nat, before: FileMap): Swap {
      Swap(Staging(id), Rollback(stamp), before, if payload.Holds? then payload.tree else before)
    }

    /**
     LocalBackup.Restore with truncate set. In order: the tree recovery will make
     live is the old one, or the restored one once `activated` reached the journal.
     Lossy: it keeps Calm, so every crash image has one of the trees that were
     possible before or the restored one, unless exposed, and then some image has none.
     */
    method Restore(payload: Payload, id: nat, stamp: nat) returns (r: Reply)
      requires Valid() && Recoverable(disk) && Rollback(stamp) !in disk.dirs
      modifies this`disk, this`synced, this`pending, this`images, this`log, this`names
      ensures Valid() && OnlyCallsFail(r)
      ensures names <= old(names) + iset{Rollback(stamp)}
      ensures Recoverable(disk) && (old(NoOrphans(disk)) ==> NoOrphans(disk))
      ensures log.activations == old(log).activations ==> Outcome(disk) == old(Outcome(disk))
      ensures log.activations != old(log).activations ==> payload.Holds? && Outcome(disk) == Some(payload.tree)
      ensures r.Done? ==> payload.Holds? && Synced() && disk.journal.None? && TreeAt(disk, Live) == Some(payload.tree)
      ensures fs.works && payload.Holds? && old(StagingIsFree(disk, Staging(id))) ==> r.Done?
      ensures r.Failed? && Staging(id) in disk.dirs && Staging(id) !in old(disk.dirs) ==> Staging(id) in log.removals
      ensures old(Calm() && StampIsNew(stamp)) ==> Calm()
      ensures old(Calm() && StampIsNew(stamp)) && !Exposed(log) ==> Outcomes() <= old(Possible()) + TreesOf(payload)
      ensures old(Calm() && StampIsNew(stamp) && !Exposed(log) && !Unsettled()) ==>
        (AllOldOrNew(SwapOf(payload, id, stamp, old(Outcome(disk)).value)) <==> !Exposed(log))
    {
      ghost var before := Outcome(disk).value;
      r := RecoverFirst(stamp);
      KeptIsOldOrNew(SwapOf(payload, id, stamp, before));
      if !r.Done? { return; }
      // Opening, validating and checksumming the archive change nothing.
      if payload.Refused? { return Failed(CallFailed); }
      var live := disk.dirs[Live].tree;
      var w := Swap(Staging(id), Rollback(stamp), live, if payload.Holds? then payload.tree else live);
      names := names + iset{w.rollback};
      r := Replace(w, payload);
      OldOrNewOutcomes(w);
    }

    lemma OldOrNewOutcomes(w: Swap)
      ensures AllOldOrNew(w) ==> Outcomes() <= iset{Some(w.before), Some(w.after)}
    {
    }

    lemma KeptIsOldOrNew(w: Swap)
      ensures AllKeep(w.before) ==> AllOldOrNew(w)
      ensures MaybeBeyond() ==> !AllOldOrNew(w)
    {
    }

    /** The power fails and the machine comes back: each operation since the last sync took place or was lost. */
    method PowerLoss()
      requires Valid()
      modifies this`disk, this`synced, this`pending, this`images, this`log
      ensures Valid() && Synced() && log == AfterSync(old(log))
      ensures disk in old(images)
    {
      var kept := synced;
      for i := 0 to |pending|
        invariant kept in Images(synced, pending[..i])
      {
        assert pending[..i + 1][..i] == pending[..i];
        if * { kept := Apply(kept, pending[i]); }
      }
      assert pending[..|pending|] == pending;
      disk, synced, pending, images, log := kept, kept, [], iset{kept}, AfterSync(log);
    }

    // ----- any number of restores, crashes, reboots and power losses -----

    /** What is known between two commands. */
    ghost predicate Shows(v: View)
      reads this
    {
      && Calm() && Outcome(disk) == Some(v.tree) && v.tree in v.maybe && v.exposed == Exposed(log)
      && forall o :: o in Possible() ==> o.Some? && o.value in v.maybe
    }

    method BootStep(works: bool, ghost v: View) returns (r: Reply, ghost after: View)
      requires Shows(v)
      modifies fs, this`disk, this`synced, this`pending, this`images, this`log
      ensures Shows(after) && StepAllowed(Boot(works), r, v, after)
    {
      fs.works := works;
      r := Recover({});
      SyncedOutcomes();
      after := View(v.tree, if Synced() then {v.tree} else v.maybe, Exposed(log));
    }

    method RestoreStep(c: Command, ghost v: View) returns (r: Reply, ghost after: View)
      requires Shows(v) && c.RestoreTo? && StampIsNew(c.stamp)
      modifies this, fs
      ensures Shows(after) && StepAllowed(c, r, v, after)
      ensures names <= old(names) + iset{Rollback(c.stamp)}
    {
      fs.works := c.works;
      r := Restore(c.payload, c.id, c.stamp);
      SyncedOutcomes();
      after := View(
        Outcome(disk).value,
        if r.Done? then {Outcome(disk).value}
        else v.maybe + if c.payload.Holds? then {c.payload.tree} else {},
        Exposed(log));
    }

    method PowerStep(ghost v: View) returns (ghost after: View)
      requires Shows(v) && !v.exposed
      modifies this`disk, this`synced, this`pending, this`images, this`log
      ensures Shows(after) && StepAllowed(Command.PowerLoss, Done, v, after)
    {
      CalmIsExact();
      PowerLoss();
      SyncedIsCalm();
      SyncedOutcomes();
      after := View(Outcome(disk).value, {Outcome(disk).value}, false);
    }

    lemma SyncedOutcomes()
      requires Valid()
      ensures Synced() ==> Outcomes() == iset{Outcome(disk)}
    {
      assert Outcome(disk) in Outcomes();
    }

    /** One command. */
    method Step(c: Command, ghost v: View) returns (r: Reply, ghost after: View)
      requires Shows(v) && (c.RestoreTo? ==> StampIsNew(c.stamp)) && (c.PowerLoss? ==> !v.exposed)
      modifies this, fs
      ensures Shows(after) && StepAllowed(c, r, v, after)
      ensures names <= old(names) + Stamps([c])
    {
      match c {
        case Boot(works) => r, after := BootStep(works, v);
        case RestoreTo(_, _, _, _) =>
          assert [c][0] == c;
          r, after := RestoreStep(c, v);
        case PowerLoss =>
          r := Done;
          after := PowerStep(v);
      }
    }

    /**
     A run of boots, restores and power losses. A process that crashes inside a
     boot or a restore carries on with the next command: another boot or restore
     on the disk as it is, or a power loss that undoes unsynced operations. The
     run ends early only at a power loss while exposed.
     */
    method Operate(commands: seq<Command>) returns (replies: seq<Reply>, ghost views: seq<View>)
      requires Valid() && Synced() && Recoverable(disk)
      requires FreshStamps(commands, names)
      modifies this, fs
      ensures |replies| <= |commands| && |views| == |replies| + 1
      ensures views[0] == View(old(Outcome(disk)).value, {old(Outcome(disk)).value}, false) && Shows(views[|replies|])
      ensures forall i :: 0 <= i < |replies| ==> StepAllowed(commands[i], replies[i], views[i], views[i + 1])
      ensures |replies| < |commands| ==> commands[|replies|].PowerLoss? && views[|replies|].exposed
    {
      var tree := Outcome(disk).value;
      ghost var used := names;
      replies, views := [], [View(tree, {tree}, false)];
      for i := 0 to |commands|
        invariant |replies| == i && |views| == i + 1
        invariant views[0] == View(tree, {tree}, false) && Shows(views[i])
        invariant forall k :: 0 <= k < i ==> StepAllowed(commands[k], replies[k], views[k], views[k + 1])
        invariant names <= used + Stamps(commands[..i])
      {
        if commands[i].PowerLoss? && Exposed(log) { return; }
        StampsSnoc(commands, i, used);
        var r;
        ghost var after;
        r, after := Step(commands[i], views[i]);
        replies, views := replies + [r], views + [after];
      }
    }

    lemma StampsSnoc(commands: seq<Command>, i: nat, used: iset<Name>)
      requires Valid() && i < |commands| && FreshStamps(commands, used)
      requires names <= used + Stamps(commands[..i])
      ensures commands[i].RestoreTo? ==> StampIsNew(commands[i].stamp)
      ensures names + Stamps([commands[i]]) <= used + Stamps(commands[..i + 1])
    {
      assert commands[..i + 1] == commands[..i] + [commands[i]];
    }

    /** One Lstat that fails on the rollback tree, and nothing else wrong: recovery completes with the wrong tree. */
    method MisreadRun(w: Swap) returns (r: Reply, live: Option<FileMap>, promised: Option<FileMap>)
      requires WellNamed(w)
      modifies this, fs
      ensures r.Done? && live == Some(w.after) && promised == Some(w.before)
    {
      fs.works, log, names := true, Log(0, {}, 0, 0, false), iset{w.rollback};
      disk := Apply(ReadyToActivate(w), Move(w.staging, Live));
      synced, pending, images := disk, [], iset{disk};
      promised := Outcome(disk);
      r := Recover({w.rollback});
      live := TreeAt(disk, Live);
    }
  }

  /** Boots and restores say whether the filesystem works this time. */
  datatype Command =
    | Boot(works: bool)
    | RestoreTo(payload: Payload, id: nat, stamp: nat, works: bool)
    | PowerLoss

  /** The tree recovery would make live, the trees a power loss may leave instead, and whether it may leave none. */
  datatype View = View(tree: FileMap, maybe: set<FileMap>, exposed: bool)

  ghost function Stamps(commands: seq<Command>): iset<Name> {
    iset i | 0 <= i < |commands| && commands[i].RestoreTo? :: Rollback(commands[i].stamp)
  }

  /** Rollback names carry the time in nanoseconds, so none is used twice. */
  ghost predicate FreshStamps(commands: seq<Command>, names: iset<Name>) {
    && (forall i :: 0 <= i < |commands| && commands[i].RestoreTo? ==> Rollback(commands[i].stamp) !in names)
    && (forall i, j :: 0 <= i < j < |commands| && commands[i].RestoreTo? && commands[j].RestoreTo? ==>
          commands[i].stamp != commands[j].stamp)
  }

  /**
   A boot keeps the tree; a restore keeps it or installs its own, and its success
   is durable; a power loss leaves one of the trees that were possible.
   */
  ghost predicate StepAllowed(c: Command, r: Reply, v: View, after: View) {
    OnlyCallsFail(r) &&
    match c
    case Boot(works) =>
      && after.tree == v.tree && after.maybe <= v.maybe
      && (works ==> r.Done?) && (r.Done? && !v.exposed ==> !after.exposed)
    case RestoreTo(payload, _, _, _) =>
      && (after.tree == v.tree || payload == Holds(after.tree))
      && after.maybe <= v.maybe + (if payload.Holds? then {payload.tree} else {})
      && (r.Done? ==> payload.Holds? && after == View(payload.tree, {payload.tree}, false))
    case PowerLoss =>
      r.Done? && !v.exposed && after.tree in v.maybe && after == View(after.tree, {after.tree}, false)
  }
}
