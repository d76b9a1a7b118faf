/**
 The replay cache: a bounded map that is proved to answer as an unbounded log of
 every accepted nonce would.
 */
module NonceCache {
  type Time = int

  const NONCE_LEN := 32
  const MAX_SKEW: int := 300 * 1_000_000_000

  predicate IsHex(c: char) {
    '0' <= c <= '9' || 'a' <= c <= 'f' || 'A' <= c <= 'F'
  }

  predicate ValidNonce(nonce: string) {
    |nonce| == NONCE_LEN && forall i :: 0 <= i < |nonce| ==> IsHex(nonce[i])
  }

  // ----- the unbounded log -----

  datatype Accepted = Accepted(nonce: string, at: Time, expires: Time)

  ghost function LiveNonces(log: seq<Accepted>, now: Time): set<string> {
    set i | 0 <= i < |log| && log[i].expires > now :: log[i].nonce
  }

  ghost predicate Live(log: seq<Accepted>, nonce: string, now: Time) {
    nonce in LiveNonces(log, now)
  }

  /** Thirty-two hexadecimal digits. */
  ghost predicate WellFormed(nonce: string) {
    |nonce| == 32 && forall c :: c in nonce ==> '0' <= c <= '9' || 'a' <= c <= 'f' || 'A' <= c <= 'F'
  }

  lemma ValidIsWellFormed(nonce: string)
    ensures ValidNonce(nonce) <==> WellFormed(nonce)
  {
    assert forall i :: 0 <= i < |nonce| ==> nonce[i] in nonce;
  }

  /** What the log alone says about a nonce. */
  ghost predicate Verdict(log: seq<Accepted>, nonce: string, now: Time, room: int) {
    WellFormed(nonce) && !Live(log, nonce, now) && |LiveNonces(log, now)| < room
  }

  /** A usable nonce that is turned away for lack of room. */
  ghost predicate Refused(log: seq<Accepted>, nonce: string, now: Time, room: int) {
    WellFormed(nonce) && !Live(log, nonce, now) && |LiveNonces(log, now)| >= room
  }

  /** No nonce was accepted again before its earlier acceptance ran out. */
  ghost predicate NoReplay(log: seq<Accepted>) {
    && (forall i :: 0 <= i < |log| ==> log[i].at < log[i].expires)
    && (forall i, j :: 0 <= i < j < |log| && log[i].nonce == log[j].nonce ==> log[i].expires <= log[j].at)
  }

  // ----- the cache against the log -----

  /** When each nonce's last acceptance runs out. */
  ghost function Latest(log: seq<Accepted>): map<string, Time> {
    if log == [] then map[]
    else
      var n := |log| - 1;
      Latest(log[..n])[log[n].nonce := log[n].expires]
  }

  /** Every entry is the last acceptance of its nonce, and every one that outlives `now` has its entry. */
  ghost predicate Represents(entries: map<string, Time>, log: seq<Accepted>, now: Time) {
    && (forall n :: n in entries ==> n in Latest(log) && entries[n] == Latest(log)[n])
    && (forall n :: n in Latest(log) && Latest(log)[n] > now ==> n in entries)
  }

  /** A later acceptance of a nonce runs out later. */
  lemma {:induction false} LatestIsLast(log: seq<Accepted>, i: nat)
    requires NoReplay(log) && i < |log|
    ensures log[i].nonce in Latest(log) && log[i].expires <= Latest(log)[log[i].nonce]
  {
    var n := |log| - 1;
    if i < n {
      assert log[..n][i] == log[i];
      LatestIsLast(log[..n], i);
    }
  }

  lemma {:induction false} LatestIsAccepted(log: seq<Accepted>, nonce: string) returns (i: nat)
    requires nonce in Latest(log)
    ensures i < |log| && log[i] == Accepted(nonce, log[i].at, Latest(log)[nonce])
  {
    var n := |log| - 1;
    if log[n].nonce == nonce {
      i := n;
    } else {
      i := LatestIsAccepted(log[..n], nonce);
    }
  }

  /** The live nonces are those whose last acceptance has not run out. */
  lemma LiveAreLatest(log: seq<Accepted>, now: Time, nonce: string)
    requires NoReplay(log)
    ensures nonce in LiveNonces(log, now) <==> nonce in Latest(log) && Latest(log)[nonce] > now
  {
    if nonce in LiveNonces(log, now) {
      var i :| 0 <= i < |log| && log[i].expires > now && log[i].nonce == nonce;
      LatestIsLast(log, i);
    }
    if nonce in Latest(log) && Latest(log)[nonce] > now {
      var i := LatestIsAccepted(log, nonce);
    }
  }

  ghost function Swept(entries: map<string, Time>, now: Time): map<string, Time> {
    map n | n in entries && entries[n] > now :: entries[n]
  }

  /** After a sweep the cache holds exactly the live nonces. */
  lemma SweptAreLive(entries: map<string, Time>, log: seq<Accepted>, before: Time, now: Time)
    requires Represents(entries, log, before) && NoReplay(log) && before <= now
    ensures Represents(Swept(entries, now), log, now)
    ensures Swept(entries, now).Keys == LiveNonces(log, now)
  {
    forall n ensures n in Swept(entries, now) <==> n in LiveNonces(log, now) {
      LiveAreLatest(log, now, n);
    }
  }

  lemma RepresentsLater(entries: map<string, Time>, log: seq<Accepted>, before: Time, now: Time)
    requires Represents(entries, log, before) && NoReplay(log) && before <= now
    ensures Represents(entries, log, now) && LiveNonces(log, now) <= entries.Keys
  {
    forall n | n in LiveNonces(log, now) ensures n in entries {
      LiveAreLatest(log, now, n);
    }
  }

  lemma AcceptedIsRepresented(entries: map<string, Time>, log: seq<Accepted>, now: Time, a: Accepted)
    requires Represents(entries, log, now) && a.nonce !in entries && NoReplay(log) && a.at == now < a.expires
    ensures Represents(entries[a.nonce := a.expires], log + [a], now) && NoReplay(log + [a])
  {
    assert (log + [a])[..|log|] == log;
    forall i | 0 <= i < |log| && log[i].nonce == a.nonce ensures log[i].expires <= now {
      LatestIsLast(log, i);
    }
  }

  /** Once accepted a nonce is refused until its acceptance runs out, whatever is accepted in between. */
  lemma ReplayIsRefused(log: seq<Accepted>, a: Accepted, later: seq<Accepted>, now: Time, room: int)
    requires now < a.expires
    ensures !Verdict(log + [a] + later, a.nonce, now, room)
  {
    var all := log + [a] + later;
    assert all[|log|] == a;
    assert a.nonce in LiveNonces(all, now);
  }

  /** And when it has run out the nonce is taken again, if there is room. */
  lemma RunOutIsForgotten(log: seq<Accepted>, nonce: string, now: Time, room: int)
    requires WellFormed(nonce) && |LiveNonces(log, now)| < room
    requires forall a :: a in log && a.nonce == nonce ==> a.expires <= now
    ensures Verdict(log, nonce, now, room)
  {
    forall i | 0 <= i < |log| && log[i].nonce == nonce ensures log[i].expires <= now {
      assert log[i] in log;
    }
  }

  class NonceCache {
    const window: int
    const maxEntry: int
    var entries: map<string, Time>
    var overflow: bool
    /** Every acceptance so far, and the latest time the cache was used. */
    ghost var log: seq<Accepted>
    ghost var last: Time

    ghost predicate Valid()
      reads this
    {
      window > 0 && maxEntry > 0 && |entries| <= maxEntry && Represents(entries, log, last) && NoReplay(log)
    }

    constructor (maxEntries: int, w: int, now: Time)
      ensures Valid() && log == [] && last == now && !overflow
      ensures maxEntry == (if maxEntries <= 0 then 8192 else maxEntries)
      ensures window == (if w <= 0 || w > 300 * 1_000_000_000 then 300 * 1_000_000_000 else w)
    {
      maxEntry := if maxEntries <= 0 then 8192 else maxEntries;
      window := if w <= 0 || w > MAX_SKEW then MAX_SKEW else w;
      entries, overflow, log, last := map[], false, [], now;
    }

    /** Go may delete from a map while ranging over it, in any order. */
    method Sweep(now: Time)
      modifies this`entries
      ensures entries == Swept(old(entries), now)
    {
      var todo := entries.Keys;
      while todo != {}
        invariant todo <= entries.Keys <= old(entries).Keys
        invariant forall n :: n in entries ==> entries[n] == old(entries)[n]
        invariant forall n :: n in old(entries) && n !in todo ==> (n in entries <==> old(entries)[n] > now)
      {
        var nonce :| nonce in todo;
        todo := todo - {nonce};
        if entries[nonce] <= now { entries := entries - {nonce}; }
      }
    }

    /** After the sweep at the start of Use the keys are the live nonces. */
    method Refresh(now: Time)
      requires Valid() && last <= now
      modifies this`entries, this`last
      ensures Valid() && last == now && entries.Keys == LiveNonces(log, now)
    {
      SweptAreLive(entries, log, last, now);
      FewerKeys(Swept(entries, now), entries);
      Sweep(now);
      last := now;
    }

    /** Remember one more acceptance. */
    method Insert(nonce: string, expires: Time, now: Time)
      requires Valid() && last == now < expires && nonce !in entries && |entries| < maxEntry
      modifies this`entries, this`log
      ensures Valid() && old(entries).Keys <= entries.Keys
      ensures log == old(log) + [Accepted(nonce, now, expires)]
    {
      AcceptedIsRepresented(entries, log, now, Accepted(nonce, now, expires));
      OneMoreKey(entries, nonce, expires);
      entries, log := entries[nonce := expires], log + [Accepted(nonce, now, expires)];
    }

    /** Use once the nonce is well formed and the cache is swept to the live nonces. */
    method Record(nonce: string, issued: Time, now: Time, ghost live: set<string>) returns (ok: bool)
      requires Valid() && last == now && entries.Keys == live
      modifies this`entries, this`log, this`overflow
      ensures Valid() && live <= entries.Keys
      ensures ok <==> nonce !in live && |live| < maxEntry
      ensures ok ==>
        var expires := if issued + window > now then issued + window else now + window;
        log == old(log) + [Accepted(nonce, now, expires)]
      ensures !ok ==> log == old(log)
      ensures overflow <==> old(overflow) || (nonce !in live && |live| >= maxEntry)
    {
      assert |entries| == |live|;
      if nonce in entries { return false; }
      if |entries| >= maxEntry {
        overflow := true;
        return false;
      }
      var expires := issued + window;
      if expires <= now { expires := now + window; }
      Insert(nonce, expires, now);
      return true;
    }

    /** Time goes by and nothing is recorded. */
    ghost method Pass(now: Time)
      requires Valid() && last <= now
      modifies this`last
      ensures Valid() && last == now && LiveNonces(log, now) <= entries.Keys
    {
      RepresentsLater(entries, log, last, now);
      last := now;
    }

    /**
     The answer is the log's verdict; an accepted nonce stays live for a positive time, a live one is
     never evicted.
    */
    method Use(nonce: string, issued: Time, now: Time) returns (ok: bool)
      requires Valid() && last <= now
      modifies this
      ensures Valid() && last == now
      ensures ok <==> Verdict(old(log), nonce, now, maxEntry)
      ensures ok ==>
        var expires := if issued + window > now then issued + window else now + window;
        log == old(log) + [Accepted(nonce, now, expires)]
      ensures !ok ==> log == old(log)
      ensures overflow <==> old(overflow) || Refused(old(log), nonce, now, maxEntry)
      ensures LiveNonces(old(log), now) <= entries.Keys
    {
      ok := false;
      ValidIsWellFormed(nonce);
      if ValidNonce(nonce) {
        ghost var live := LiveNonces(log, now);
        Refresh(now);
        ok := Record(nonce, issued, now, live);
      } else {
        Pass(now);
      }
    }
  }

  lemma OneMoreKey(m: map<string, Time>, k: string, v: Time)
    requires k !in m
    ensures |m[k := v]| == |m| + 1 && m.Keys <= m[k := v].Keys
  {
    assert m[k := v].Keys == m.Keys + {k};
    assert |m[k := v]| == |m[k := v].Keys|;
  }

  lemma FewerKeys(small: map<string, Time>, large: map<string, Time>)
    requires small.Keys <= large.Keys
    ensures |small| <= |large|
  {
    var s, l := small.Keys, large.Keys;
    assert l == s + (l - s);
  }
}
