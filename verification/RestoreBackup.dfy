/** From an archive to the live tree: validation and extraction feed the swap. */
module RestoreBackup {
  import opened Wrappers
  import opened FileTree
  import opened Strings
  import opened Rootfs
  import opened Archive
  import opened Extract
  import opened Backup
  import opened RestoreSwap

  ghost predicate Restorable(entries: seq<Entry>) {
    Acceptable(entries) && forall e :: e in entries ==> !SecondColon(Base(e))
  }

  /** The tree recovery makes live is what the archive holds. */
  ghost predicate Installed(d: Disk, entries: seq<Entry>) {
    exists tree :: Outcome(d) == Some(tree) && IsContents(tree, entries)
  }

  /**
   Restore of an archive into a live root. Extraction fills a staging root that
   only the swap can make live, so an archive that is refused or cannot be
   extracted leaves the live tree alone.
   */
  method RestoreArchive(host: Host, entries: seq<Entry>, id: nat, stamp: nat) returns (r: Reply)
    requires host.Valid() && Recoverable(host.disk)
    requires Rollback(stamp) !in host.disk.dirs
    modifies host
    ensures host.Valid() && Recoverable(host.disk) && OnlyCallsFail(r)
    ensures Outcome(host.disk) == old(Outcome(host.disk)) || (Restorable(entries) && Installed(host.disk, entries))
    ensures r.Done? ==> Restorable(entries) && Installed(host.disk, entries) && host.disk.journal.None? && host.Synced()
    ensures old(host.fs.works && StagingIsFree(host.disk, Staging(id))) && Restorable(entries) ==> r.Done?
  {
    var payload := Refused;
    var err := ValidateArchive(entries);
    if err.None? {
      var root := new Root();
      var ok := ExtractArchive(root, entries);
      payload := if ok then Holds(root.tree) else Unextractable;
      assert ok ==> IsContents(root.tree, entries);
    }
    r := host.Restore(payload, id, stamp);
  }

  ghost predicate AllOpenable(tree: FileMap, ignored: string -> bool) {
    forall p :: BackedUp(tree, ignored, p) ==> Openable(p)
  }

  lemma BackupIsRestorable(entries: seq<Entry>, paths: seq<Path>, tree: FileMap, ignored: string -> bool)
    requires Archives(entries, paths, tree, ignored)
    ensures Restorable(entries) <==> AllOpenable(tree, ignored)
  {
    ArchiveIsAcceptable(entries, paths, tree);
    forall i | 0 <= i < |paths| ensures Base(entries[i]) == Join(paths[i], '/') && entries[i] in entries {
      assert paths[i] in paths;
      EntryParts(tree, paths[i]);
    }
  }

  lemma InstalledIsTheBackup(d: Disk, entries: seq<Entry>, paths: seq<Path>, tree: FileMap, ignored: string -> bool)
    requires Archives(entries, paths, tree, ignored) && Installed(d, entries)
    ensures Outcome(d) == Some(BackedUpTree(tree, ignored))
  {
    var t :| Outcome(d) == Some(t) && IsContents(t, entries);
    ContentsAreTheBackup(t, entries, paths, tree, ignored);
  }

  /** Backing up a tree and restoring the archive: the live tree becomes the backed-up part, or stays. */
  method RestoreItsBackup(host: Host, tree: FileMap, ignored: string -> bool, id: nat, stamp: nat) returns (r: Reply)
    requires IsTree(tree) && host.Valid() && Recoverable(host.disk)
    requires Rollback(stamp) !in host.disk.dirs
    modifies host
    ensures host.Valid() && Recoverable(host.disk) && OnlyCallsFail(r)
    ensures Outcome(host.disk) == old(Outcome(host.disk)) || Outcome(host.disk) == Some(BackedUpTree(tree, ignored))
    ensures r.Done? ==>
      && AllOpenable(tree, ignored) && host.disk.journal.None? && host.Synced()
      && Outcome(host.disk) == Some(BackedUpTree(tree, ignored))
    ensures old(host.fs.works && StagingIsFree(host.disk, Staging(id))) && AllOpenable(tree, ignored) ==> r.Done?
    ensures !AllOpenable(tree, ignored) ==> Outcome(host.disk) == old(Outcome(host.disk))
  {
    var ok, entries;
    ghost var paths;
    ok, entries, paths := Create(tree, ignored);
    if !ok { return Failed(CallFailed); }
    BackupIsRestorable(entries, paths, tree, ignored);
    r := RestoreArchive(host, entries, id, stamp);
    if Installed(host.disk, entries) {
      InstalledIsTheBackup(host.disk, entries, paths, tree, ignored);
    }
  }
}
