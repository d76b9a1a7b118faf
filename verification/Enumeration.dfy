/** Visiting a finite set of keys in some order, as Go does when it ranges over a map. */
module Enumeration {
  ghost predicate Distinct(order: seq<string>) {
    forall i, j :: 0 <= i < j < |order| ==> order[i] != order[j]
  }

  /** The order visits each of the keys once. */
  ghost predicate Enumerates(order: seq<string>, keys: set<string>) {
    Distinct(order) && forall k :: k in order <==> k in keys
  }

  lemma EnumeratesSnoc(done: seq<string>, keys: set<string>, k: string)
    requires Enumerates(done, keys) && k !in keys
    ensures Enumerates(done + [k], keys + {k})
  {
  }

  lemma HeadIsMember(s: seq<string>)
    ensures s != [] ==> s[0] in s
  {
  }

  lemma OnlyKey(order: seq<string>, k: string)
    requires Enumerates(order, {k})
    ensures order == [k]
  {
    assert k in order && (|order| > 1 ==> order[0] != order[1]);
    forall i | 0 <= i < |order| ensures order[i] == k {
      assert order[i] in order;
    }
  }

  lemma {:induction false} SomeOrder(keys: set<string>) returns (order: seq<string>)
    ensures Enumerates(order, keys)
    decreases |keys|
  {
    order := [];
    if k :| k in keys {
      var front := SomeOrder(keys - {k});
      EnumeratesSnoc(front, keys - {k}, k);
      assert keys - {k} + {k} == keys;
      order := front + [k];
    }
  }

  /** Any key can come last. */
  lemma EndingIn(keys: set<string>, k: string) returns (front: seq<string>)
    requires k in keys
    ensures Enumerates(front + [k], keys)
  {
    front := SomeOrder(keys - {k});
    EnumeratesSnoc(front, keys - {k}, k);
    assert keys - {k} + {k} == keys;
  }
}
