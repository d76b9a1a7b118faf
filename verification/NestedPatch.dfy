/**
 What setNestedValue and the patch loops of applyJsonPatch and applyYamlPatch
 make of a document, as values: when two paths can be set in either order, and
 why the order in which Go iterates over the replacements does not matter.
 */
module NestedPatch {
  import opened Wrappers
  import opened Strings
  import opened Strconv
  import opened Enumeration

  datatype Scalar = Null | Number(n: int) | Bool(b: bool) | Float(text: string) | Text(text: string)

  datatype Value = Leaf(scalar: Scalar) | Object(fields: Fields) | Array(items: seq<Value>)

  type Fields = map<string, Value>

  // ----- paths -----

  /** One part of a dotted path; Broken is a bracket whose index is not a number. */
  datatype Step = Key(key: string) | Item(key: string, index: int) | Broken

  function ParsePart(part: string): Step {
    var open, close := Index(part, '['), Index(part, ']');
    if open != -1 && close != -1 && open < close then
      match Atoi(part[open + 1..close])
      case None => Broken
      case Some(i) => Item(part[..open], i)
    else Key(part)
  }

  function ParseParts(parts: seq<string>): seq<Step> {
    seq(|parts|, i requires 0 <= i < |parts| => ParsePart(parts[i]))
  }

  function ParsePath(path: string): (steps: seq<Step>)
    ensures steps != []
  {
    ParseParts(Split(path, '.'))
  }

  /** A negative index panics; such paths are outside the model. */
  predicate InRange(steps: seq<Step>) {
    forall i :: 0 <= i < |steps| ==> StepInRange(steps[i])
  }

  // ----- setNestedValue on values -----

  function FieldsAt(fields: Fields, key: string): Fields {
    if key in fields && fields[key].Object? then fields[key].fields else map[]
  }

  function ItemsAt(fields: Fields, key: string): seq<Value> {
    if key in fields && fields[key].Array? then fields[key].items else []
  }

  /** Grow to n items with empty objects. */
  function Padded(items: seq<Value>, n: nat): (r: seq<Value>)
    ensures |r| == if n > |items| then n else |items|
  {
    items + seq(if n > |items| then n - |items| else 0, _ => Object(map[]))
  }

  predicate StepInRange(s: Step) {
    s.Item? ==> s.index >= 0
  }

  /** The object the walk enters at a step; a missing or different value counts as an empty object. */
  function Child(fields: Fields, s: Step): Fields
    requires StepInRange(s)
  {
    match s
    case Broken => map[]
    case Key(k) => FieldsAt(fields, k)
    case Item(k, i) =>
      var items := Padded(ItemsAt(fields, k), i + 1);
      if items[i].Object? then items[i].fields else map[]
  }

  /** What a step stores under its key, which depends only on what is under that key. */
  function Placed(fields: Fields, s: Step, x: Value): Value
    requires StepInRange(s) && !s.Broken?
  {
    match s
    case Key(k) => x
    case Item(k, i) => Array(Padded(ItemsAt(fields, k), i + 1)[i := x])
  }

  /** Store x where the step points. */
  function Place(fields: Fields, s: Step, x: Value): Fields
    requires StepInRange(s)
  {
    if s.Broken? then fields else fields[s.key := Placed(fields, s, x)]
  }

  function Set(fields: Fields, steps: seq<Step>, v: Value): Fields
    requires steps != [] && InRange(steps)
    decreases |steps|
  {
    var rest := steps[1..];
    if rest == [] then Place(fields, steps[0], v)
    else Place(fields, steps[0], Object(Set(Child(fields, steps[0]), rest, v)))
  }

  function Get(fields: Fields, steps: seq<Step>): Option<Value>
    requires InRange(steps)
    decreases |steps|
  {
    if steps == [] then None
    else
      var found := match steps[0]
        case Broken => None
        case Key(k) => if k in fields then Some(fields[k]) else None
        case Item(k, i) => if i < |ItemsAt(fields, k)| then Some(ItemsAt(fields, k)[i]) else None;
      if |steps| == 1 || found.None? then found
      else if found.value.Object? then Get(found.value.fields, steps[1..]) else None
  }

  // ----- which paths are independent -----

  /** Two steps at the same object that touch different places. */
  predicate Apart(a: Step, b: Step) {
    || a.Broken? || b.Broken?
    || a.key != b.key
    || (a.Item? && b.Item? && a.index != b.index)
  }

  predicate Divergent(p: seq<Step>, q: seq<Step>) {
    && p != [] && q != []
    && (Apart(p[0], q[0]) || (p[0] == q[0] && Divergent(p[1..], q[1..])))
  }

  predicate Unbroken(p: seq<Step>) {
    forall i :: 0 <= i < |p| ==> !p[i].Broken?
  }

  // ----- one step -----

  lemma ChildOfPlace(fields: Fields, s: Step, g: Fields)
    requires StepInRange(s) && !s.Broken?
    ensures Child(Place(fields, s, Object(g)), s) == g
  {
  }

  lemma PlaceTwice(fields: Fields, s: Step, x: Value, y: Value)
    requires StepInRange(s)
    ensures Place(Place(fields, s, x), s, y) == Place(fields, s, y)
  {
    if s.Item? {
      var items := Padded(ItemsAt(fields, s.key), s.index + 1);
      assert Padded(items[s.index := x], s.index + 1) == items[s.index := x];
      assert items[s.index := x][s.index := y] == items[s.index := y];
    }
  }

  lemma ItemsApart(items: seq<Value>, i: nat, x: Value, j: nat, y: Value)
    requires i != j
    ensures Padded(Padded(items, i + 1)[i := x], j + 1)[j := y] == Padded(Padded(items, j + 1)[j := y], i + 1)[i := x]
    ensures Padded(Padded(items, i + 1)[i := x], j + 1)[j] == Padded(items, j + 1)[j]
  {
  }

  lemma SlotsApart(fields: Fields, key: string, i: nat, x: Value, j: nat, y: Value)
    requires i != j
    ensures var s, t := Item(key, i), Item(key, j);
      Place(Place(fields, s, x), t, y) == Place(Place(fields, t, y), s, x) &&
        Child(Place(fields, s, x), t) == Child(fields, t)
  {
    ItemsApart(ItemsAt(fields, key), i, x, j, y);
  }

  lemma PlaceApart(fields: Fields, s: Step, x: Value, t: Step, y: Value)
    requires StepInRange(s) && StepInRange(t) && Apart(s, t)
    ensures Place(Place(fields, s, x), t, y) == Place(Place(fields, t, y), s, x)
    ensures !t.Broken? ==> Child(Place(fields, s, x), t) == Child(fields, t)
  {
    if s.Item? && t.Item? && s.key == t.key {
      SlotsApart(fields, s.key, s.index, x, t.index, y);
    } else if !s.Broken? && !t.Broken? {
      KeysApart(fields, s, x, t, y);
    }
  }

  lemma OtherKey(fields: Fields, key: string, z: Value, t: Step, y: Value)
    requires StepInRange(t) && !t.Broken? && t.key != key
    ensures Placed(fields[key := z], t, y) == Placed(fields, t, y)
    ensures Child(fields[key := z], t) == Child(fields, t)
  {
    assert ItemsAt(fields[key := z], t.key) == ItemsAt(fields, t.key);
  }

  lemma KeysApart(fields: Fields, s: Step, x: Value, t: Step, y: Value)
    requires StepInRange(s) && StepInRange(t) && !s.Broken? && !t.Broken? && s.key != t.key
    ensures Place(Place(fields, s, x), t, y) == Place(Place(fields, t, y), s, x)
    ensures Child(Place(fields, s, x), t) == Child(fields, t)
  {
    var a, b := Placed(fields, s, x), Placed(fields, t, y);
    OtherKey(fields, s.key, a, t, y);
    OtherKey(fields, t.key, b, s, x);
    assert fields[s.key := a][t.key := b] == fields[t.key := b][s.key := a];
  }

  // ----- set and get -----

  lemma {:induction false} GetAfterSet(fields: Fields, p: seq<Step>, v: Value)
    requires p != [] && InRange(p) && Unbroken(p)
    ensures Get(Set(fields, p, v), p) == Some(v)
    decreases |p|
  {
    assert !p[0].Broken?;
    if |p| > 1 {
      GetAfterSet(Child(fields, p[0]), p[1..], v);
    }
  }

  /** A value found at a divergent path survives. */
  lemma {:induction false} SetKeepsDivergent(fields: Fields, p: seq<Step>, v: Value, q: seq<Step>)
    requires InRange(p) && InRange(q) && Divergent(p, q) && Get(fields, q).Some?
    ensures Get(Set(fields, p, v), q) == Get(fields, q)
    decreases |p|
  {
    if !Apart(p[0], q[0]) {
      assert |p| > 1 && |q| > 1;
      SetKeepsDivergent(Child(fields, p[0]), p[1..], v, q[1..]);
    }
  }

  lemma {:induction false} DivergentSetsCommute(fields: Fields, p: seq<Step>, v: Value, q: seq<Step>, w: Value)
    requires InRange(p) && InRange(q) && Divergent(p, q)
    ensures Set(Set(fields, p, v), q, w) == Set(Set(fields, q, w), p, v)
    decreases |p|
  {
    var s, t := p[0], q[0];
    var x := if |p| == 1 then v else Object(Set(Child(fields, s), p[1..], v));
    var y := if |q| == 1 then w else Object(Set(Child(fields, t), q[1..], w));
    if Apart(s, t) {
      PlaceApart(fields, s, x, t, y);
      PlaceApart(fields, t, y, s, x);
    } else {
      var inner := Child(fields, s);
      assert |p| > 1 && |q| > 1;
      DivergentSetsCommute(inner, p[1..], v, q[1..], w);
      var a, b := Set(inner, p[1..], v), Set(inner, q[1..], w);
      ChildOfPlace(fields, s, a);
      ChildOfPlace(fields, s, b);
      PlaceTwice(fields, s, Object(a), Object(Set(a, q[1..], w)));
      PlaceTwice(fields, s, Object(b), Object(Set(b, p[1..], v)));
    }
  }

  lemma {:induction false} DivergentIsSymmetric(p: seq<Step>, q: seq<Step>)
    ensures Divergent(p, q) <==> Divergent(q, p)
  {
    if p != [] && q != [] {
      DivergentIsSymmetric(p[1..], q[1..]);
    }
  }

  /** Two scalars readable at once in one document sit at divergent paths, or at the same one. */
  lemma {:induction false} ReadableTogether(fields: Fields, p: seq<Step>, v: Scalar, q: seq<Step>, w: Scalar)
    requires p != [] && q != [] && InRange(p) && InRange(q)
    requires Get(fields, p) == Some(Leaf(v)) && Get(fields, q) == Some(Leaf(w))
    ensures Divergent(p, q) || (p == q && v == w)
    decreases |p|
  {
    if !Apart(p[0], q[0]) {
      assert p[0] == q[0];
      if |p| > 1 && |q| > 1 {
        ReadableTogether(Child(fields, p[0]), p[1..], v, q[1..], w);
        assert p == [p[0]] + p[1..] && q == [q[0]] + q[1..];
      } else {
        assert p == [p[0]] && q == [q[0]];
      }
    }
  }

  /** Exactly when two writes of scalars commute: the paths diverge, or it is the same write. */
  lemma SetsCommuteIff(fields: Fields, p: seq<Step>, v: Scalar, q: seq<Step>, w: Scalar)
    requires p != [] && q != [] && InRange(p) && InRange(q) && Unbroken(p) && Unbroken(q)
    ensures Set(Set(fields, p, Leaf(v)), q, Leaf(w)) == Set(Set(fields, q, Leaf(w)), p, Leaf(v)) <==>
            Divergent(p, q) || (p == q && v == w)
  {
    var one, two := Set(Set(fields, p, Leaf(v)), q, Leaf(w)), Set(Set(fields, q, Leaf(w)), p, Leaf(v));
    if Divergent(p, q) {
      DivergentSetsCommute(fields, p, Leaf(v), q, Leaf(w));
    } else if one == two {
      GetAfterSet(Set(fields, p, Leaf(v)), q, Leaf(w));
      GetAfterSet(Set(fields, q, Leaf(w)), p, Leaf(v));
      ReadableTogether(one, p, v, q, w);
    }
  }

  // ----- coerceValue -----

  function LowerChar(c: char): char {
    if 'A' <= c <= 'Z' then (c as int + 32) as char else c
  }

  function ToLower(s: string): string {
    seq(|s|, i requires 0 <= i < |s| => LowerChar(s[i]))
  }

  /** `parsesAsFloat` stands for strconv.ParseFloat accepting the text. */
  function CoerceValue(value: string, parsesAsFloat: string -> bool): Value {
    Leaf(
      match Atoi(value)
      case Some(n) => Number(n)
      case None =>
        if ToLower(value) == "true" then Bool(true)
        else if ToLower(value) == "false" then Bool(false)
        else if '.' in value && parsesAsFloat(value) then Float(value)
        else Text(value))
  }

  // ----- patching with a whole map of replacements -----

  /** Replacements after coercion; keys with a wildcard are skipped by the patch loop. */
  type Patch = map<string, Value>

  /** Two keys that can be set in either order: divergent paths, or one path given one value. */
  ghost predicate Agree(patch: Patch, a: string, b: string)
    requires a in patch && b in patch
  {
    Divergent(ParsePath(a), ParsePath(b)) || (ParsePath(a) == ParsePath(b) && patch[a] == patch[b])
  }

  ghost predicate PairwiseAgreeing(patch: Patch) {
    && (forall k :: k in patch ==> InRange(ParsePath(k)))
    && (forall a, b :: a in patch && b in patch && a != b ==> Agree(patch, a, b))
  }

  /** Set the paths one after the other. */
  function ApplyInOrder(doc: Fields, order: seq<string>, patch: Patch): Fields
    requires forall k :: k in order ==> k in patch && InRange(ParsePath(k))
    decreases |order|
  {
    if order == [] then doc
    else ApplyInOrder(Set(doc, ParsePath(order[0]), patch[order[0]]), order[1..], patch)
  }

  lemma {:induction false} MoveToFront(doc: Fields, order: seq<string>, patch: Patch, i: nat)
    requires forall k :: k in order ==> k in patch
    requires PairwiseAgreeing(patch) && Distinct(order) && i < |order|
    ensures var moved := [order[i]] + (order[..i] + order[i + 1..]);
      (forall k :: k in moved ==> k in order) &&
      ApplyInOrder(doc, order, patch) == ApplyInOrder(doc, moved, patch)
    decreases i
  {
    var moved := [order[i]] + (order[..i] + order[i + 1..]);
    forall k | k in moved ensures k in order {
    }
    if i == 0 {
      assert moved == order;
    } else {
      var first, second := order[0], order[i];
      var rest := order[1..];
      var tail := rest[..i - 1] + rest[i..];
      assert rest[i - 1] == second;
      assert order[..i] + order[i + 1..] == [first] + tail;
      MoveToFront(Set(doc, ParsePath(first), patch[first]), rest, patch, i - 1);
      assert moved[1..] == [first] + tail && moved[1..][1..] == tail && ([second] + tail)[1..] == tail;
      assert first != second && Agree(patch, first, second);
      if Divergent(ParsePath(first), ParsePath(second)) {
        DivergentSetsCommute(doc, ParsePath(first), patch[first], ParsePath(second), patch[second]);
      }
    }
  }

  /** Go's map iteration order cannot be observed: every order gives the same document. */
  lemma {:induction false} OrderDoesNotMatter(doc: Fields, one: seq<string>, two: seq<string>, patch: Patch,
                                              keys: set<string>)
    requires keys <= patch.Keys && PairwiseAgreeing(patch)
    requires Enumerates(one, keys) && Enumerates(two, keys)
    ensures ApplyInOrder(doc, one, patch) == ApplyInOrder(doc, two, patch)
    decreases |one|
  {
    if one == [] {
      HeadIsMember(two);
    } else {
      var k := one[0];
      assert k in two;
      var i :| 0 <= i < |two| && two[i] == k;
      MoveToFront(doc, two, patch, i);
      var tail := two[..i] + two[i + 1..];
      assert ([k] + tail)[1..] == tail;
      EnumeratesTail(one, two, i, keys);
      OrderDoesNotMatter(Set(doc, ParsePath(k), patch[k]), one[1..], tail, patch, keys - {k});
    }
  }

  lemma EnumeratesTail(one: seq<string>, two: seq<string>, i: nat, keys: set<string>)
    requires Enumerates(one, keys) && Enumerates(two, keys) && i < |two| && one != [] && two[i] == one[0]
    ensures Enumerates(one[1..], keys - {one[0]}) && Enumerates(two[..i] + two[i + 1..], keys - {one[0]})
  {
    var k, tail := one[0], two[..i] + two[i + 1..];
    forall x ensures x in tail <==> x in keys - {k} {
      if x in keys && x != k {
        assert x in two;
        var j :| 0 <= j < |two| && two[j] == x;
        assert j < i ==> tail[j] == x;
        assert j > i ==> tail[j - 1] == x;
      }
      if x in tail {
        var j :| 0 <= j < |tail| && tail[j] == x;
        assert x == two[if j < i then j else j + 1];
      }
    }
    forall x ensures x in one[1..] <==> x in keys - {k} {
      if x in keys && x != k {
        assert x in one;
        var j :| 0 <= j < |one| && one[j] == x;
        assert one[1..][j - 1] == x;
      }
    }
  }

  lemma {:induction false} NotApart(p: seq<Step>)
    requires Unbroken(p)
    ensures !Divergent(p, p)
  {
    if p != [] {
      assert !p[0].Broken?;
      NotApart(p[1..]);
    }
  }

  lemma SamePathSameValue(patch: Patch, a: string, b: string)
    requires PairwiseAgreeing(patch) && a in patch && b in patch
    requires ParsePath(a) == ParsePath(b) && Unbroken(ParsePath(a))
    ensures patch[a] == patch[b]
  {
    NotApart(ParsePath(a));
    assert a != b ==> Agree(patch, a, b);
  }

  /** After the patch every path reads the value it was given, and divergent paths read what they did before. */
  lemma {:induction false} PatchIsReadBack(doc: Fields, order: seq<string>, patch: Patch, q: seq<Step>)
    requires forall k :: k in order ==> k in patch
    requires PairwiseAgreeing(patch) && Distinct(order) && q != [] && InRange(q)
    ensures Get(doc, q).Some? && (forall k :: k in order ==> Divergent(ParsePath(k), q)) ==>
      Get(ApplyInOrder(doc, order, patch), q) == Get(doc, q)
    ensures forall k :: k in order && ParsePath(k) == q && Unbroken(q) ==>
      Get(ApplyInOrder(doc, order, patch), q) == Some(patch[k])
    decreases |order|
  {
    if order != [] {
      var first := order[0];
      var next := Set(doc, ParsePath(first), patch[first]);
      PatchIsReadBack(next, order[1..], patch, q);
      if Divergent(ParsePath(first), q) && Get(doc, q).Some? {
        SetKeepsDivergent(doc, ParsePath(first), patch[first], q);
      }
      if ParsePath(first) == q && Unbroken(q) {
        GetAfterSet(doc, q, patch[first]);
        forall k | k in order[1..] && ParsePath(k) != q ensures Divergent(ParsePath(k), q) {
          assert k != first && Agree(patch, k, first);
        }
        if k :| k in order[1..] && ParsePath(k) == q {
          SamePathSameValue(patch, k, first);
        }
      }
    }
  }

  /** The replacements that are not skipped, coerced. */
  function Plain(replacements: map<string, string>, parsesAsFloat: string -> bool): Patch {
    map k | k in replacements && '*' !in k :: CoerceValue(replacements[k], parsesAsFloat)
  }

  /** What a patch leaves, whichever order the paths were set in: every order agrees, every path reads back. */
  lemma PatchIsOrderFree(doc: Fields, done: seq<string>, order: seq<string>, patch: Patch, k: string)
    requires PairwiseAgreeing(patch) && Enumerates(done, patch.Keys) && Enumerates(order, patch.Keys)
    ensures ApplyInOrder(doc, done, patch) == ApplyInOrder(doc, order, patch)
    ensures k in patch && Unbroken(ParsePath(k)) ==>
      Get(ApplyInOrder(doc, done, patch), ParsePath(k)) == Some(patch[k])
  {
    OrderDoesNotMatter(doc, done, order, patch, patch.Keys);
    if k in patch && Unbroken(ParsePath(k)) {
      PatchIsReadBack(doc, done, patch, ParsePath(k));
    }
  }

  /** The path set last is read back, whatever came before. */
  lemma LastIsReadBack(doc: Fields, front: seq<string>, k: string, patch: Patch)
    requires forall x :: x in front + [k] ==> x in patch && InRange(ParsePath(x))
    requires Unbroken(ParsePath(k))
    ensures Get(ApplyInOrder(doc, front + [k], patch), ParsePath(k)) == Some(patch[k])
  {
    ApplySnoc(doc, front, patch, k);
    GetAfterSet(ApplyInOrder(doc, front, patch), ParsePath(k), patch[k]);
  }

  /** Every order of the whole patch gives the same document. */
  ghost predicate OrderFree(doc: Fields, patch: Patch)
    requires forall k :: k in patch ==> InRange(ParsePath(k))
  {
    forall one, two :: Enumerates(one, patch.Keys) && Enumerates(two, patch.Keys) ==>
      ApplyInOrder(doc, one, patch) == ApplyInOrder(doc, two, patch)
  }

  lemma OrderFreeAgrees(doc: Fields, patch: Patch, a: string, b: string)
    requires forall k :: k in patch ==> InRange(ParsePath(k)) && Unbroken(ParsePath(k)) && patch[k].Leaf?
    requires a in patch && b in patch && OrderFree(doc, patch)
    ensures Agree(patch, a, b)
  {
    var order := SomeOrder(patch.Keys);
    var after := ApplyInOrder(doc, order, patch);
    CanBeLast(doc, patch, a, after);
    CanBeLast(doc, patch, b, after);
    ReadableTogether(after, ParsePath(a), patch[a].scalar, ParsePath(b), patch[b].scalar);
  }

  /** Some order sets this key last, and all orders end in the same document. */
  lemma CanBeLast(doc: Fields, patch: Patch, k: string, after: Fields)
    requires forall x :: x in patch ==> InRange(ParsePath(x))
    requires k in patch && Unbroken(ParsePath(k)) && OrderFree(doc, patch)
    requires exists order :: Enumerates(order, patch.Keys) && ApplyInOrder(doc, order, patch) == after
    ensures Get(after, ParsePath(k)) == Some(patch[k])
  {
    var order :| Enumerates(order, patch.Keys) && ApplyInOrder(doc, order, patch) == after;
    var front := EndingIn(patch.Keys, k);
    LastIsReadBack(doc, front, k, patch);
    assert ApplyInOrder(doc, front + [k], patch) == after;
  }

  /** For scalar values at unbroken paths: Go's map order cannot be observed exactly when all pairs agree. */
  lemma OrderFreeIff(doc: Fields, patch: Patch)
    requires forall k :: k in patch ==> InRange(ParsePath(k)) && Unbroken(ParsePath(k)) && patch[k].Leaf?
    ensures OrderFree(doc, patch) <==> PairwiseAgreeing(patch)
  {
    if PairwiseAgreeing(patch) {
      forall one, two | Enumerates(one, patch.Keys) && Enumerates(two, patch.Keys)
        ensures ApplyInOrder(doc, one, patch) == ApplyInOrder(doc, two, patch)
      {
        OrderDoesNotMatter(doc, one, two, patch, patch.Keys);
      }
    }
    if OrderFree(doc, patch) {
      forall a, b | a in patch && b in patch && a != b ensures Agree(patch, a, b) {
        OrderFreeAgrees(doc, patch, a, b);
      }
    }
  }

  lemma {:induction false} ApplySnoc(doc: Fields, order: seq<string>, patch: Patch, k: string)
    requires forall x :: x in order + [k] ==> x in patch && InRange(ParsePath(x))
    ensures (forall x :: x in order ==> x in patch && InRange(ParsePath(x))) && k in patch && InRange(ParsePath(k))
    ensures ApplyInOrder(doc, order + [k], patch) == Set(ApplyInOrder(doc, order, patch), ParsePath(k), patch[k])
    decreases |order|
  {
    assert k in order + [k] && forall x :: x in order ==> x in order + [k];
    if order == [] {
      assert order + [k] == [k] && [k][1..] == [];
    } else {
      assert (order + [k])[1..] == order[1..] + [k];
      ApplySnoc(Set(doc, ParsePath(order[0]), patch[order[0]]), order[1..], patch, k);
    }
  }

  // ----- paths, sets and values as text -----

  /** A part without brackets is a key, one with a number in brackets an item, with anything else in them broken. */
  lemma PartIsRead(key: string, index: string, rest: string)
    requires '[' !in key && ']' !in key && ']' !in index
    ensures ParsePart(key) == Key(key)
    ensures ParsePart(key + "[" + index + "]" + rest) ==
      if Atoi(index).Some? then Item(key, Atoi(index).value) else Broken
  {
    var part := key + "[" + index + "]" + rest;
    assert part[|key|] == '[' && part[..|key|] == key;
    IndexIs(part, '[', |key|);
    var close := |key| + 1 + |index|;
    assert part[..close] == key + "[" + index && part[close] == ']' && part[|key| + 1..close] == index;
    IndexIs(part, ']', close);
  }

  /** Dots separate the parts. */
  lemma PathIsRead(parts: seq<string>)
    requires parts != [] && forall p :: p in parts ==> '.' !in p
    ensures |ParsePath(Join(parts, '.'))| == |parts|
    ensures forall i :: 0 <= i < |parts| ==> ParsePath(Join(parts, '.'))[i] == ParsePart(parts[i])
  {
    SplitJoin(parts, '.');
  }

  /** Setting under a key: at the end the value replaces what is there, on the way a non-object becomes an object. */
  lemma KeyIsSet(fields: Fields, k: string, rest: seq<Step>, v: Value)
    requires InRange(rest)
    ensures InRange([Key(k)] + rest)
    ensures Set(fields, [Key(k)], v) == fields[k := v]
    ensures rest != [] ==>
      Set(fields, [Key(k)] + rest, v) ==
        fields[k := Object(Set(if k in fields && fields[k].Object? then fields[k].fields else map[], rest, v))]
  {
    assert ([Key(k)] + rest)[1..] == rest && [Key(k)][1..] == [];
  }

  /** Only the array under the key changes, which reaches the index and is filled up with empty objects. */
  ghost predicate OnlyItem(before: Fields, after: Fields, k: string, i: nat, x: Value) {
    && after.Keys == before.Keys + {k} && (forall l :: l in before && l != k ==> after[l] == before[l])
    && after[k].Array?
    && var was, now := if k in before && before[k].Array? then before[k].items else [], after[k].items;
       && |now| == (if i < |was| then |was| else i + 1) && now[i] == x
       && (forall j :: 0 <= j < |now| && j != i ==> now[j] == if j < |was| then was[j] else Object(map[]))
  }

  /** Setting at an index: at the end the value itself, on the way the set goes into the object there or a new one. */
  lemma ItemIsSet(fields: Fields, k: string, i: nat, rest: seq<Step>, v: Value)
    requires InRange(rest)
    ensures InRange([Item(k, i)]) && InRange([Item(k, i)] + rest)
    ensures OnlyItem(fields, Set(fields, [Item(k, i)], v), k, i, v)
    ensures rest != [] ==>
      var was := if k in fields && fields[k].Array? then fields[k].items else [];
      var entered := if i < |was| && was[i].Object? then was[i].fields else map[];
      OnlyItem(fields, Set(fields, [Item(k, i)] + rest, v), k, i, Object(Set(entered, rest, v)))
  {
    assert ([Item(k, i)] + rest)[1..] == rest && [Item(k, i)][1..] == [];
  }

  /** A broken part ends the walk: what was set up on the way to it stays, nothing else changes. */
  lemma BrokenIsNotSet(fields: Fields, rest: seq<Step>, v: Value)
    requires InRange(rest)
    ensures InRange([Broken] + rest) && Set(fields, [Broken] + rest, v) == fields
  {
  }

  /** The four letters of true, in any case. */
  predicate SpellsTrue(s: string) {
    |s| == 4 && (s[0] == 't' || s[0] == 'T') && (s[1] == 'r' || s[1] == 'R') && (s[2] == 'u' || s[2] == 'U') &&
    (s[3] == 'e' || s[3] == 'E')
  }

  predicate SpellsFalse(s: string) {
    |s| == 5 && (s[0] == 'f' || s[0] == 'F') && (s[1] == 'a' || s[1] == 'A') && (s[2] == 'l' || s[2] == 'L') &&
    (s[3] == 's' || s[3] == 'S') && (s[4] == 'e' || s[4] == 'E')
  }

  /** Integers, booleans, then what has a point and parses as a float; the rest stays text. */
  lemma ValueIsCoerced(value: string, parsesAsFloat: string -> bool, n: nat)
    ensures n <= 0x7FFF_FFFF_FFFF_FFFF ==> CoerceValue(Itoa(n), parsesAsFloat) == Leaf(Number(n))
    ensures n <= 0x8000_0000_0000_0000 ==> CoerceValue("-" + Itoa(n), parsesAsFloat) == Leaf(Number(0 - n))
    ensures SpellsTrue(value) ==> CoerceValue(value, parsesAsFloat) == Leaf(Bool(true))
    ensures SpellsFalse(value) ==> CoerceValue(value, parsesAsFloat) == Leaf(Bool(false))
    ensures Atoi(value).None? && !SpellsTrue(value) && !SpellsFalse(value) ==>
      CoerceValue(value, parsesAsFloat) ==
        Leaf(if '.' in value && parsesAsFloat(value) then Float(value) else Text(value))
  {
    AtoiOfNumeral(n);
    LowerIsTrue(value);
    LowerIsFalse(value);
    if SpellsTrue(value) || SpellsFalse(value) {
      AtoiNeedsDigits(value, 0);
    }
  }

  lemma LowerIsTrue(value: string)
    ensures ToLower(value) == "true" <==> SpellsTrue(value)
  {
    var low := ToLower(value);
    if |value| == 4 {
      assert low == "true" <==> low[0] == 't' && low[1] == 'r' && low[2] == 'u' && low[3] == 'e';
    }
  }

  lemma LowerIsFalse(value: string)
    ensures ToLower(value) == "false" <==> SpellsFalse(value)
  {
    var low := ToLower(value);
    if |value| == 5 {
      assert low == "false" <==> low[0] == 'f' && low[1] == 'a' && low[2] == 'l' && low[3] == 's' && low[4] == 'e';
    }
  }
}
