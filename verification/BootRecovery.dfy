/** Boot-time recovery: every interrupted restore below the data root is reconciled before servers start. */
module BootRecovery {
  import opened Wrappers
  import opened FileTree
  import opened RestoreSwap
  import opened Strings

  const SUFFIX := ".restore-journal.json"

  predicate ValidNamespace(ns: string) {
    0 < |ns| <= 128 &&
    forall c :: c in ns ==> 'a' <= c <= 'z' || 'A' <= c <= 'Z' || '0' <= c <= '9' || c == '-' || c == '_'
  }

  datatype Listed = Listed(name: string, isDir: bool)

  /** The loop's filter and trimming: None is an entry that is skipped. */
  function NamespaceOf(entry: Listed, suffix: string): Option<string> {
    if entry.isDir || !HasPrefix(entry.name, ".") || !HasSuffix(entry.name, suffix) then None
    else Some(TrimSuffix(entry.name[1..], suffix))
  }

  /** Restore's journal name is read back as its namespace. */
  lemma JournalNameIsRead(ns: string, suffix: string)
    ensures NamespaceOf(Listed("." + ns + suffix, false), suffix) == Some(ns)
  {
    var name := "." + ns + suffix;
    assert name[..1] == "." && name[1..] == ns + suffix;
    assert name[|name| - |suffix|..] == suffix && (ns + suffix)[|ns|..] == suffix;
  }

  lemma TailKeepsSuffix(s: string, suffix: string)
    requires HasSuffix(s, suffix) && |suffix| < |s|
    ensures s == [s[0]] + TrimSuffix(s[1..], suffix) + suffix
  {
    assert s[1..][|s| - 1 - |suffix|..] == s[|s| - |suffix|..];
  }

  /** And no other entry is read as a valid namespace, provided the suffix has a dot inside it. */
  lemma OnlyJournalNames(entry: Listed, ns: string, suffix: string, dot: nat)
    requires NamespaceOf(entry, suffix) == Some(ns) && ValidNamespace(ns)
    requires 0 < dot < |suffix| && suffix[dot] == '.'
    ensures entry == Listed("." + ns + suffix, false)
  {
    var name := entry.name;
    if |name| == |suffix| { BareSuffix(name, suffix, dot); }
    TailKeepsSuffix(name, suffix);
    assert name[..1] == ".";
  }

  /** What is left of the suffix alone has a dot in it. */
  lemma BareSuffix(name: string, suffix: string, dot: nat)
    requires HasSuffix(name, suffix) && |name| == |suffix| && 0 < dot < |suffix| && suffix[dot] == '.'
    ensures TrimSuffix(name[1..], suffix) == name[1..] && '.' in name[1..]
  {
    assert name == suffix && name[1..][dot - 1] == '.';
  }

  datatype BootError = InvalidName(name: string) | RecoverFailed(ns: string, why: Why)

  /** No journal is left and the tree recovery promised is live. */
  ghost predicate Settled(was: Disk, now: Disk) {
    now.journal.None? && (Recoverable(was) ==> TreeAt(now, Live) == Outcome(was))
  }

  ghost predicate Sound(d: Disk, tree: Option<FileMap>) {
    Recoverable(d) && Outcome(d) == tree
  }

  ghost predicate Reported(ns: string, errors: seq<BootError>) {
    exists why :: RecoverFailed(ns, why) in errors
  }

  /** No two servers share a disk. */
  ghost predicate Separate(hosts: map<string, Host>) {
    forall a, b :: a in hosts && b in hosts && hosts[a] == hosts[b] ==> a == b
  }

  /** A namespace of the daemon, letter by letter. */
  predicate Legal(ns: string) {
    0 < |ns| <= 128 &&
    forall i :: 0 <= i < |ns| ==>
      'a' <= ns[i] <= 'z' || 'A' <= ns[i] <= 'Z' || '0' <= ns[i] <= '9' || ns[i] == '-' || ns[i] == '_'
  }

  /** The entry is the journal of this namespace. */
  predicate Names(entry: Listed, ns: string) {
    Legal(ns) && entry == Listed("." + ns + ".restore-journal.json", false)
  }

  lemma LegalIsValid(ns: string)
    ensures ValidNamespace(ns) <==> Legal(ns)
  {
    assert forall i :: 0 <= i < |ns| ==> ns[i] in ns;
  }

  /** Reading an entry finds the namespace it belongs to, and no valid one otherwise. */
  lemma EntryIsRead(entry: Listed)
    ensures forall ns :: Names(entry, ns) <==> NamespaceOf(entry, SUFFIX) == Some(ns) && ValidNamespace(ns)
  {
    assert 0 < 16 < |SUFFIX| && SUFFIX[16] == '.';
    forall ns ensures Names(entry, ns) <==> NamespaceOf(entry, SUFFIX) == Some(ns) && ValidNamespace(ns) {
      LegalIsValid(ns);
      JournalNameIsRead(ns, SUFFIX);
      if NamespaceOf(entry, SUFFIX) == Some(ns) && ValidNamespace(ns) {
        OnlyJournalNames(entry, ns, SUFFIX, 16);
      }
    }
  }

  /** What one directory entry may do to one server. */
  ghost predicate Handled(before: Disk, after: Disk, ns: string, entry: Listed, errors: seq<BootError>) {
    if !Names(entry, ns) then after == before else Settled(before, after) || Reported(ns, errors)
  }

  /** After some entries: a server whose journal was listed has been settled or reported. */
  ghost predicate Progress(was: Disk, d: Disk, ns: string, seen: seq<Listed>, errors: seq<BootError>) {
    (exists e :: e in seen && Names(e, ns)) ==> Settled(was, d) || Reported(ns, errors)
  }

  ghost predicate AllProgress(was: map<string, Disk>, now: map<string, Disk>, seen: seq<Listed>,
                              errors: seq<BootError>) {
    now.Keys == was.Keys && forall ns :: ns in was ==> Progress(was[ns], now[ns], ns, seen, errors)
  }

  ghost predicate AllHandled(before: map<string, Disk>, after: map<string, Disk>, entry: Listed,
                             errors: seq<BootError>) {
    after.Keys == before.Keys && forall ns :: ns in before ==> Handled(before[ns], after[ns], ns, entry, errors)
  }

  /** The server whose journal this is, if it is one. */
  ghost predicate Known(entry: Listed, servers: set<string>) {
    forall ns :: Names(entry, ns) ==> ns in servers
  }

  ghost predicate AllKnown(entries: seq<Listed>, servers: set<string>) {
    forall e :: e in entries ==> Known(e, servers)
  }

  lemma NoneHandled(disks: map<string, Disk>, entry: Listed, errors: seq<BootError>)
    requires forall ns :: !Names(entry, ns)
    ensures AllKept(disks, disks) && AllHandled(disks, disks, entry, errors)
  {
  }

  lemma OneHandled(before: map<string, Disk>, ns: string, d: Disk, entry: Listed, errors: seq<BootError>)
    requires Names(entry, ns) && ns in before && Kept(before[ns], d)
    ensures AllKept(before, before[ns := d])
    ensures Settled(before[ns], d) || Reported(ns, errors) ==>
      AllHandled(before, before[ns := d], entry, errors)
  {
    EntryIsRead(entry);
  }

  /**
   No server that can be recovered changes outcome; those without a journal, or
   with one that recovery must not act on, do not change at all.
   */
  ghost predicate AllKept(was: map<string, Disk>, now: map<string, Disk>) {
    now.Keys == was.Keys && forall ns :: ns in was ==> Kept(was[ns], now[ns])
  }

  ghost predicate Kept(was: Disk, now: Disk) {
    && (Recoverable(was) ==> Sound(now, Outcome(was)))
    && (was.journal.None? || !WellFormed(was.journal.value) ==> now == was)
  }

  lemma KeptTwice(was: map<string, Disk>, before: map<string, Disk>, after: map<string, Disk>)
    requires AllKept(was, before) && AllKept(before, after)
    ensures AllKept(was, after)
  {
    forall ns | ns in was ensures Kept(was[ns], after[ns]) {
      assert Kept(was[ns], before[ns]) && Kept(before[ns], after[ns]);
    }
  }

  lemma EntryKeepsProgress(was: map<string, Disk>, before: map<string, Disk>, after: map<string, Disk>,
                           entries: seq<Listed>, i: nat, errors: seq<BootError>, more: seq<BootError>)
    requires i < |entries| && AllProgress(was, before, entries[..i], errors) && AllKept(was, before) && errors <= more
    requires AllHandled(before, after, entries[i], more) && AllKept(before, after)
    ensures AllProgress(was, after, entries[..i + 1], more)
  {
    assert entries[..i + 1] == entries[..i] + [entries[i]];
    forall ns | ns in was ensures Progress(was[ns], after[ns], ns, entries[..i + 1], more) {
      assert Reported(ns, errors) ==> Reported(ns, more);
      assert Kept(was[ns], before[ns]) && Kept(before[ns], after[ns]);
    }
  }

  /** Every server was recovered or is in the list of errors. */
  ghost predicate AllRecovered(was: map<string, Disk>, now: map<string, Disk>, errors: seq<BootError>) {
    now.Keys == was.Keys && forall ns :: ns in was ==> Settled(was[ns], now[ns]) || Reported(ns, errors)
  }

  /** The directory listing is true of these servers. */
  ghost predicate JournalsListed(disks: map<string, Disk>, entries: seq<Listed>) {
    forall ns :: ns in disks && disks[ns].journal.Some? ==> exists e :: e in entries && Names(e, ns)
  }

  lemma AllListed(was: map<string, Disk>, now: map<string, Disk>, entries: seq<Listed>, errors: seq<BootError>)
    requires JournalsListed(was, entries)
    requires AllKept(was, now) && AllProgress(was, now, entries, errors)
    ensures AllRecovered(was, now, errors)
  {
    forall ns | ns in was ensures Settled(was[ns], now[ns]) || Reported(ns, errors) {
      assert Kept(was[ns], now[ns]) && Progress(was[ns], now[ns], ns, entries, errors);
    }
  }

  function Disks(hosts: map<string, Host>): map<string, Disk>
    reads hosts.Values
  {
    map ns | ns in hosts :: hosts[ns].disk
  }

  /** An error is a misnamed journal, a failed call on a broken filesystem, or a server that cannot be recovered. */
  ghost predicate Explains(error: BootError, entry: Listed, was: map<string, Disk>, broken: set<string>) {
    match error
    case InvalidName(name) => entry == Listed(name, false) && Misnamed(entry)
    case RecoverFailed(ns, why) =>
      && Names(entry, ns) && (why == CallFailed ==> ns in broken)
      && (why != CallFailed ==> ns in was && !Recoverable(was[ns]))
  }

  /** A file with the marks of a journal that belongs to no namespace. */
  ghost predicate Misnamed(entry: Listed) {
    && !entry.isDir && HasPrefix(entry.name, ".") && HasSuffix(entry.name, ".restore-journal.json")
    && forall ns :: !Names(entry, ns)
  }

  ghost predicate AllExplained(errors: seq<BootError>, entries: seq<Listed>, was: map<string, Disk>,
                               broken: set<string>) {
    forall error :: error in errors ==> exists entry :: entry in entries && Explains(error, entry, was, broken)
  }

  ghost predicate Adds(errors: seq<BootError>, more: seq<BootError>, entry: Listed, was: map<string, Disk>,
                       broken: set<string>) {
    exists error :: more == errors + [error] && Explains(error, entry, was, broken)
  }

  /** Every misnamed file so far is in the list of errors. */
  ghost predicate AllNoted(seen: seq<Listed>, errors: seq<BootError>) {
    forall e :: e in seen && Misnamed(e) ==> InvalidName(e.name) in errors
  }

  lemma NotedSnoc(entries: seq<Listed>, i: nat, errors: seq<BootError>, more: seq<BootError>)
    requires i < |entries| && AllNoted(entries[..i], errors) && errors <= more
    requires Misnamed(entries[i]) ==> InvalidName(entries[i].name) in more
    ensures AllNoted(entries[..i + 1], more)
  {
    assert entries[..i + 1] == entries[..i] + [entries[i]];
  }

  lemma AddsExplained(errors: seq<BootError>, more: seq<BootError>, entries: seq<Listed>, entry: Listed,
                      was: map<string, Disk>, broken: set<string>)
    requires AllExplained(errors, entries, was, broken) && entry in entries
    requires more == errors || Adds(errors, more, entry, was, broken)
    ensures AllExplained(more, entries, was, broken) && errors <= more
  {
  }

  ghost predicate AllValid(hosts: map<string, Host>)
    reads hosts.Values
  {
    forall ns :: ns in hosts ==> hosts[ns].Valid()
  }

  /** Recovery of one server among many, with every Lstat correct. */
  method RecoverServer(host: Host, ghost ns: string, ghost hosts: map<string, Host>) returns (reply: Reply)
    requires ns in hosts && hosts[ns] == host && Separate(hosts) && AllValid(hosts)
    modifies host`disk, host`synced, host`pending, host`images, host`log
    ensures AllValid(hosts) && Disks(hosts) == old(Disks(hosts))[ns := host.disk]
    ensures Kept(old(host.disk), host.disk) && (reply.Done? ==> Settled(old(host.disk), host.disk))
    ensures reply.Crashed? || reply == Failed(CallFailed) ==> !host.fs.works
    ensures reply.Failed? && reply.why != CallFailed ==> !Recoverable(old(host.disk))
  {
    assert host.Valid();
    reply := host.Recover({});
  }

  /** One turn of the loop. */
  method RecoverEntry(entry: Listed, hosts: map<string, Host>, errors: seq<BootError>,
                      ghost was: map<string, Disk>, ghost broken: set<string>)
    returns (more: seq<BootError>, crashed: bool)
    requires Separate(hosts) && AllValid(hosts) && AllKept(was, Disks(hosts))
    requires Known(entry, hosts.Keys) && forall ns :: ns in hosts && !hosts[ns].fs.works ==> ns in broken
    modifies hosts.Values`disk, hosts.Values`synced, hosts.Values`pending, hosts.Values`images, hosts.Values`log
    ensures more == errors || Adds(errors, more, entry, was, broken)
    ensures crashed ==> broken != {}
    ensures AllValid(hosts) && AllKept(old(Disks(hosts)), Disks(hosts))
    ensures !crashed ==> AllHandled(old(Disks(hosts)), Disks(hosts), entry, more)
    ensures Misnamed(entry) ==> more == errors + [InvalidName(entry.name)]
  {
    more, crashed := errors, false;
    ghost var before := Disks(hosts);
    EntryIsRead(entry);
    var found := NamespaceOf(entry, SUFFIX);
    if found.None? || !ValidNamespace(found.value) {
      if found.Some? {
        more := errors + [InvalidName(entry.name)];
        assert Explains(InvalidName(entry.name), entry, was, broken);
      }
      NoneHandled(before, entry, more);
      return;
    }
    var ns := found.value;
    assert before[ns] == hosts[ns].disk && Kept(was[ns], before[ns]);
    var reply := RecoverServer(hosts[ns], ns, hosts);
    crashed := reply.Crashed?;
    if reply.Failed? {
      assert Explains(RecoverFailed(ns, reply.why), entry, was, broken);
      more := errors + [RecoverFailed(ns, reply.why)];
    }
    OneHandled(before, ns, hosts[ns].disk, entry, more);
  }

  /**
   RecoverRestoreJournals over the servers of one data root. A server whose
   recovery fails is reported and does not keep the others from recovering.
   */
  method RecoverRestoreJournals(entries: seq<Listed>, hosts: map<string, Host>, ghost broken: set<string>)
    returns (errors: seq<BootError>, crashed: bool)
    requires Separate(hosts) && AllValid(hosts)
    requires JournalsListed(Disks(hosts), entries) && AllKnown(entries, hosts.Keys)
    requires forall ns :: ns in hosts && !hosts[ns].fs.works ==> ns in broken
    modifies hosts.Values`disk, hosts.Values`synced, hosts.Values`pending, hosts.Values`images, hosts.Values`log
    ensures AllValid(hosts) && AllKept(old(Disks(hosts)), Disks(hosts))
    ensures !crashed ==> AllRecovered(old(Disks(hosts)), Disks(hosts), errors) && AllNoted(entries, errors)
    ensures AllExplained(errors, entries, old(Disks(hosts)), broken)
    ensures crashed ==> broken != {}
  {
    errors, crashed := [], false;
    ghost var was := Disks(hosts);
    for i := 0 to |entries|
      invariant AllValid(hosts) && AllKept(was, Disks(hosts))
      invariant AllProgress(was, Disks(hosts), entries[..i], errors) && AllNoted(entries[..i], errors)
      invariant AllExplained(errors, entries, was, broken)
    {
      ghost var before, so := Disks(hosts), errors;
      errors, crashed := RecoverEntry(entries[i], hosts, errors, was, broken);
      AddsExplained(so, errors, entries, entries[i], was, broken);
      KeptTwice(was, before, Disks(hosts));
      if crashed { return; }
      EntryKeepsProgress(was, before, Disks(hosts), entries, i, so, errors);
      NotedSnoc(entries, i, so, errors);
    }
    assert entries[..|entries|] == entries;
    AllListed(was, Disks(hosts), entries, errors);
  }
}
