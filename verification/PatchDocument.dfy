/**
 setNestedValue in place: a decoded JSON or YAML document is a tree of mutable
 objects, and the walk changes the one it stands on. A ghost Shape records which
 object sits where, so the whole document can be read as a value of NestedPatch.
 */
module PatchDocument {
  import opened Strings
  import opened Enumeration
  import opened NestedPatch

  /** A map[string]any; slices are stored back whole whenever they change. */
  class Doc {
    var fields: map<string, Cell>

    constructor ()
      ensures fields == map[]
    {
      fields := map[];
    }
  }

  datatype Cell = Flat(scalar: Scalar) | Slice(cells: seq<Cell>) | Ref(doc: Doc)

  /** A document with the identity of every object in it. */
  datatype Shape = Single(scalar: Scalar) | Row(items: seq<Shape>) | Tree(doc: Doc, kids: map<string, Shape>)

  type Heap = map<Doc, map<string, Cell>>

  function CellOf(s: Shape): Cell {
    match s
    case Single(x) => Flat(x)
    case Row(items) => Slice(CellsOf(items))
    case Tree(doc, _) => Ref(doc)
  }

  function CellsOf(items: seq<Shape>): seq<Cell> {
    seq(|items|, i requires 0 <= i < |items| => CellOf(items[i]))
  }

  function CellMap(kids: map<string, Shape>): map<string, Cell> {
    map k | k in kids :: CellOf(kids[k])
  }

  ghost function ValueOf(s: Shape): Value {
    match s
    case Single(x) => Leaf(x)
    case Row(items) => Array(seq(|items|, i requires 0 <= i < |items| => ValueOf(items[i])))
    case Tree(_, kids) => Object(map k | k in kids :: ValueOf(kids[k]))
  }

  ghost function FieldsOf(kids: map<string, Shape>): Fields {
    map k | k in kids :: ValueOf(kids[k])
  }

  ghost function Docs(s: Shape): set<Doc> {
    match s
    case Single(_) => {}
    case Row(items) => set i, d | 0 <= i < |items| && d in Docs(items[i]) :: d
    case Tree(doc, kids) => {doc} + set k, d | k in kids && d in Docs(kids[k]) :: d
  }

  /** No object is reachable twice. */
  ghost predicate Unshared(s: Shape) {
    match s
    case Single(_) => true
    case Row(items) =>
      (forall i :: 0 <= i < |items| ==> Unshared(items[i])) &&
      (forall i, j :: 0 <= i < j < |items| ==> Docs(items[i]) !! Docs(items[j]))
    case Tree(doc, kids) =>
      (forall k :: k in kids ==> Unshared(kids[k]) && doc !in Docs(kids[k])) &&
      (forall k, l :: k in kids && l in kids && k != l ==> Docs(kids[k]) !! Docs(kids[l]))
  }

  /** The objects of a heap store exactly this shape. */
  ghost predicate Stored(s: Shape, h: Heap) {
    match s
    case Single(_) => true
    case Row(items) => forall i :: 0 <= i < |items| ==> Stored(items[i], h)
    case Tree(doc, kids) =>
      doc in h && h[doc] == CellMap(kids) && forall k :: k in kids ==> Stored(kids[k], h)
  }

  lemma {:induction false} StoredFrame(s: Shape, h: Heap, g: Heap)
    requires Stored(s, h) && forall d :: d in Docs(s) ==> d in g && d in h && g[d] == h[d]
    ensures Stored(s, g)
  {
    match s
    case Single(_) =>
    case Row(items) =>
      forall i | 0 <= i < |items| ensures Stored(items[i], g) {
        StoredFrame(items[i], h, g);
      }
    case Tree(doc, kids) =>
      forall k | k in kids ensures Stored(kids[k], g) {
        StoredFrame(kids[k], h, g);
      }
  }

  // ----- one step down -----

  /** The step leads from this object to another object. */
  predicate HasSub(s: Shape, step: Step) {
    s.Tree? && !step.Broken? && step.key in s.kids &&
    var kid := s.kids[step.key];
    if step.Key? then kid.Tree?
    else kid.Row? && 0 <= step.index < |kid.items| && kid.items[step.index].Tree?
  }

  function Sub(s: Shape, step: Step): Shape
    requires HasSub(s, step)
  {
    var kid := s.kids[step.key];
    if step.Key? then kid else kid.items[step.index]
  }

  function WithSub(s: Shape, step: Step, x: Shape): Shape
    requires HasSub(s, step)
  {
    var kid := s.kids[step.key];
    Tree(s.doc, s.kids[step.key := if step.Key? then x else Row(kid.items[step.index := x])])
  }

  lemma SubDocs(s: Shape, step: Step)
    requires HasSub(s, step)
    ensures Docs(Sub(s, step)) <= Docs(s.kids[step.key]) <= Docs(s)
    ensures Unshared(s) ==> Unshared(s.kids[step.key]) && Unshared(Sub(s, step)) && s.doc !in Docs(Sub(s, step))
  {
    var kid := s.kids[step.key];
    if step.Item? {
      forall d | d in Docs(Sub(s, step)) ensures d in Docs(kid) {
      }
    }
    forall d | d in Docs(kid) ensures d in Docs(s) {
    }
  }

  /** The value model's view of a step. */
  lemma SubIsChild(s: Shape, step: Step, x: Shape)
    requires HasSub(s, step) && x.Tree?
    ensures StepInRange(step) && Child(FieldsOf(s.kids), step) == FieldsOf(Sub(s, step).kids)
    ensures FieldsOf(WithSub(s, step, x).kids) == Place(FieldsOf(s.kids), step, Object(FieldsOf(x.kids)))
  {
    var fields, kid := FieldsOf(s.kids), s.kids[step.key];
    assert ValueOf(x) == Object(FieldsOf(x.kids)) && ValueOf(Sub(s, step)) == Object(FieldsOf(Sub(s, step).kids));
    if step.Item? {
      var items := ValueOf(kid).items;
      assert ItemsAt(fields, step.key) == items == Padded(items, step.index + 1);
      assert ValueOf(Row(kid.items[step.index := x])).items == items[step.index := ValueOf(x)];
    }
    assert ValueOf(WithSub(s, step, x).kids[step.key]) == Placed(fields, step, ValueOf(x));
  }

  lemma ItemUnshared(items: seq<Shape>, i: nat, x: Shape)
    requires i < |items| && Unshared(Row(items)) && Unshared(x) && Docs(x) * Docs(Row(items)) <= Docs(items[i])
    ensures Unshared(Row(items[i := x])) && Docs(Row(items[i := x])) <= Docs(Row(items)) + Docs(x)
  {
    var all := items[i := x];
    forall j | 0 <= j < |items| && j != i ensures Docs(items[j]) !! Docs(x) {
      assert Docs(items[j]) <= Docs(Row(items)) && Docs(items[j]) !! Docs(items[i]);
    }
    forall d | d in Docs(Row(all)) ensures d in Docs(Row(items)) + Docs(x) {
      var j :| 0 <= j < |all| && d in Docs(all[j]);
      assert j != i ==> d in Docs(items[j]);
    }
  }

  ghost function KidDocs(s: Shape, key: string): set<Doc>
    requires s.Tree?
  {
    if key in s.kids then Docs(s.kids[key]) else {}
  }

  lemma KidUnshared(s: Shape, key: string, x: Shape)
    requires s.Tree? && Unshared(s) && Unshared(x) && Docs(x) * Docs(s) <= KidDocs(s, key)
    ensures var t := Tree(s.doc, s.kids[key := x]);
      Unshared(t) && Docs(t) <= Docs(s) + Docs(x)
    ensures s.doc !in Docs(x)
  {
    var t := Tree(s.doc, s.kids[key := x]);
    forall k | k in s.kids && k != key ensures Docs(s.kids[k]) !! Docs(x) {
      assert Docs(s.kids[k]) <= Docs(s) && Docs(s.kids[k]) !! KidDocs(s, key);
    }
    assert s.doc in Docs(s);
    forall d | d in Docs(t) ensures d in Docs(s) + Docs(x) {
      if d != s.doc {
        var k :| k in t.kids && d in Docs(t.kids[k]);
        assert k != key ==> d in Docs(s.kids[k]);
      }
    }
  }

  lemma WithSubUnshared(s: Shape, step: Step, x: Shape)
    requires HasSub(s, step) && Unshared(s) && Unshared(x) && Docs(x) * Docs(s) <= Docs(Sub(s, step))
    ensures Unshared(WithSub(s, step, x)) && Docs(WithSub(s, step, x)) <= Docs(s) + Docs(x)
  {
    SubDocs(s, step);
    var kid := s.kids[step.key];
    if step.Item? {
      ItemUnshared(kid.items, step.index, x);
      KidUnshared(s, step.key, Row(kid.items[step.index := x]));
    } else {
      KidUnshared(s, step.key, x);
    }
  }

  /** Replacing a slice element by a shape rooted at the same object leaves the slice's cells alone. */
  lemma ItemStored(items: seq<Shape>, i: nat, x: Shape, h: Heap, g: Heap)
    requires i < |items| && Unshared(Row(items)) && Stored(Row(items), h) && Stored(x, g) &&
      CellOf(x) == CellOf(items[i])
    requires forall d :: d in Docs(Row(items)) && d !in Docs(items[i]) ==> d in g && d in h && g[d] == h[d]
    ensures Stored(Row(items[i := x]), g) && CellOf(Row(items[i := x])) == CellOf(Row(items))
  {
    forall j | 0 <= j < |items| && j != i ensures Stored(items[j], g) {
      assert Docs(items[j]) !! Docs(items[i]);
      forall d | d in Docs(items[j]) ensures d in Docs(Row(items)) {
      }
      StoredFrame(items[j], h, g);
    }
    assert CellsOf(items[i := x]) == CellsOf(items);
  }

  /** Storing a cell under a key changes that kid and nothing else. */
  lemma KidStored(s: Shape, key: string, x: Shape, h: Heap, g: Heap)
    requires s.Tree? && Unshared(s) && Stored(s, h) && Stored(x, g)
    requires s.doc in g && g[s.doc] == h[s.doc][key := CellOf(x)]
    requires forall d :: d in Docs(s) && d !in KidDocs(s, key) && d != s.doc ==> d in g && d in h && g[d] == h[d]
    ensures Stored(Tree(s.doc, s.kids[key := x]), g)
  {
    forall k | k in s.kids && k != key ensures Stored(s.kids[k], g) {
      forall d | d in Docs(s.kids[k]) ensures d in Docs(s) && d !in KidDocs(s, key) && d != s.doc {
      }
      StoredFrame(s.kids[k], h, g);
    }
    assert CellMap(s.kids[key := x]) == CellMap(s.kids)[key := CellOf(x)];
  }

  lemma KidReplaced(s: Shape, key: string, x: Shape, h: Heap, g: Heap)
    requires s.Tree? && key in s.kids && Unshared(s) && Stored(s, h) && Stored(x, g) && CellOf(x) == CellOf(s.kids[key])
    requires forall d :: d in Docs(s) && d !in Docs(s.kids[key]) ==> d in g && d in h && g[d] == h[d]
    ensures Stored(Tree(s.doc, s.kids[key := x]), g)
  {
    assert s.doc in Docs(s) && s.doc !in Docs(s.kids[key]);
    assert h[s.doc] == h[s.doc][key := CellOf(x)];
    KidStored(s, key, x, h, g);
  }

  lemma WithSubStored(s: Shape, step: Step, x: Shape, h: Heap, g: Heap)
    requires HasSub(s, step) && Unshared(s) && Stored(s, h)
    requires Stored(x, g) && x.Tree? && x.doc == Sub(s, step).doc
    requires forall d :: d in Docs(s) && d !in Docs(Sub(s, step)) ==> d in g && d in h && g[d] == h[d]
    ensures Stored(WithSub(s, step, x), g)
  {
    SubDocs(s, step);
    var kid := s.kids[step.key];
    if step.Item? {
      ItemStored(kid.items, step.index, x, h, g);
      KidReplaced(s, step.key, Row(kid.items[step.index := x]), h, g);
    } else {
      KidReplaced(s, step.key, x, h, g);
    }
  }

  // ----- a path down -----

  predicate Leads(t: Shape, p: seq<Step>) {
    t.Tree? && (p == [] || (HasSub(t, p[0]) && Leads(Sub(t, p[0]), p[1..])))
  }

  function At(t: Shape, p: seq<Step>): (r: Shape)
    requires Leads(t, p)
    ensures r.Tree?
  {
    if p == [] then t else At(Sub(t, p[0]), p[1..])
  }

  function Plug(t: Shape, p: seq<Step>, u: Shape): Shape
    requires Leads(t, p)
  {
    if p == [] then u else WithSub(t, p[0], Plug(Sub(t, p[0]), p[1..], u))
  }

  lemma {:induction false} PlugLeads(t: Shape, p: seq<Step>, u: Shape)
    requires Leads(t, p) && u.Tree? && u.doc == At(t, p).doc
    ensures Leads(Plug(t, p, u), p) && At(Plug(t, p, u), p) == u && Plug(t, p, u).doc == t.doc
  {
    if p != [] {
      PlugLeads(Sub(t, p[0]), p[1..], u);
    }
  }

  lemma {:induction false} AtDocs(t: Shape, p: seq<Step>)
    requires Leads(t, p)
    ensures Docs(At(t, p)) <= Docs(t) && (Unshared(t) ==> Unshared(At(t, p)))
  {
    if p != [] {
      SubDocs(t, p[0]);
      AtDocs(Sub(t, p[0]), p[1..]);
    }
  }

  lemma {:induction false} PlugUnshared(t: Shape, p: seq<Step>, u: Shape)
    requires Leads(t, p) && Unshared(t) && Unshared(u) && Docs(u) * Docs(t) <= Docs(At(t, p))
    ensures Unshared(Plug(t, p, u)) && Docs(Plug(t, p, u)) <= Docs(t) + Docs(u)
  {
    if p != [] {
      SubDocs(t, p[0]);
      AtDocs(Sub(t, p[0]), p[1..]);
      PlugUnshared(Sub(t, p[0]), p[1..], u);
      WithSubUnshared(t, p[0], Plug(Sub(t, p[0]), p[1..], u));
    }
  }

  lemma {:induction false} PlugStored(t: Shape, p: seq<Step>, u: Shape, h: Heap, g: Heap)
    requires Leads(t, p) && Unshared(t) && Stored(t, h) && Stored(u, g) && u.Tree? && u.doc == At(t, p).doc
    requires forall d :: d in Docs(t) && d !in Docs(At(t, p)) ==> d in g && d in h && g[d] == h[d]
    ensures Stored(Plug(t, p, u), g)
  {
    if p != [] {
      var sub := Sub(t, p[0]);
      SubDocs(t, p[0]);
      AtDocs(sub, p[1..]);
      PlugStored(sub, p[1..], u, h, g);
      PlugLeads(sub, p[1..], u);
      WithSubStored(t, p[0], Plug(sub, p[1..], u), h, g);
    }
  }

  /** Setting below a path is setting at the object the path leads to. */
  lemma {:induction false} PlugValue(t: Shape, p: seq<Step>, u: Shape, q: seq<Step>, v: Value)
    requires Leads(t, p) && u.Tree? && u.doc == At(t, p).doc && q != [] && InRange(p + q)
    ensures InRange(q)
    ensures var before, after, all := FieldsOf(t.kids), FieldsOf(Plug(t, p, u).kids), Set(FieldsOf(t.kids), p + q, v);
      && (FieldsOf(u.kids) == Set(FieldsOf(At(t, p).kids), q, v) ==> after == all)
      && (Set(FieldsOf(u.kids), q, v) == Set(FieldsOf(At(t, p).kids), q, v) ==> Set(after, p + q, v) == all)
  {
    if p == [] {
      assert p + q == q;
    } else {
      var step, sub := p[0], Sub(t, p[0]);
      assert (p + q)[1..] == p[1..] + q && (p + q)[0] == step;
      PlugValue(sub, p[1..], u, q, v);
      PlugLeads(sub, p[1..], u);
      var x := Plug(sub, p[1..], u);
      SubIsChild(t, step, x);
      ChildOfPlace(FieldsOf(t.kids), step, FieldsOf(x.kids));
      PlaceTwice(FieldsOf(t.kids), step, Object(FieldsOf(x.kids)), Object(Set(FieldsOf(x.kids), p[1..] + q, v)));
    }
  }

  // ----- the walk -----

  ghost function HeapOf(docs: set<Doc>): Heap
    reads docs
  {
    map d | d in docs :: d.fields
  }

  /** A document in memory has this shape. */
  ghost predicate Held(doc: Doc, s: Shape)
    reads Docs(s)
  {
    s.Tree? && s.doc == doc && Unshared(s) && Stored(s, HeapOf(Docs(s)))
  }

  /** The elements of the slice under a key; anything else counts as an empty slice. */
  ghost function RowAt(s: Shape, key: string): seq<Shape>
    requires s.Tree?
  {
    if key in s.kids && s.kids[key].Row? then s.kids[key].items else []
  }

  lemma RowAtKey(s: Shape, key: string)
    requires s.Tree? && Unshared(s)
    ensures Unshared(Row(RowAt(s, key))) && Docs(Row(RowAt(s, key))) <= KidDocs(s, key) <= Docs(s)
    ensures ItemsAt(FieldsOf(s.kids), key) == ValueOf(Row(RowAt(s, key))).items
  {
  }

  lemma AssignedIs(u: Shape, key: string, y: Shape, h: Heap, k: Heap, g: Heap)
    requires u.Tree? && Unshared(u) && Stored(u, h) && Unshared(y) && Stored(y, k) &&
      Docs(y) * Docs(u) <= KidDocs(u, key)
    requires forall d :: d in Docs(y) ==> d in g && d in k && g[d] == k[d]
    requires forall d :: d in Docs(u) ==>
      d in g && d in h && g[d] == if d == u.doc then h[d][key := CellOf(y)] else h[d]
    ensures var w := Tree(u.doc, u.kids[key := y]);
      && Unshared(w) && Docs(w) <= Docs(u) + Docs(y) && Stored(w, g)
      && FieldsOf(w.kids) == FieldsOf(u.kids)[key := ValueOf(y)]
  {
    KidUnshared(u, key, y);
    StoredFrame(y, k, g);
    assert u.doc in Docs(u);
    KidStored(u, key, y, h, g);
  }

  lemma OwnerIsOutside(u: Shape, key: string, y: Shape)
    requires u.Tree? && Unshared(u) && Docs(y) * Docs(u) <= KidDocs(u, key)
    ensures u.doc in Docs(u) && u.doc !in Docs(y)
  {
  }

  /** cur[key] = cell, where the cell holds the shape y. */
  method Assign(cur: Doc, key: string, cell: Cell, ghost u: Shape, ghost y: Shape) returns (ghost w: Shape)
    requires Held(cur, u) && cell == CellOf(y) && Unshared(y) && Stored(y, HeapOf(Docs(y)))
    requires Docs(y) * Docs(u) <= KidDocs(u, key)
    modifies cur
    ensures w == Tree(cur, u.kids[key := y]) && Held(cur, w)
    ensures Docs(w) <= Docs(u) + Docs(y)
    ensures FieldsOf(w.kids) == FieldsOf(u.kids)[key := ValueOf(y)]
  {
    ghost var h, k := HeapOf(Docs(u)), HeapOf(Docs(y));
    OwnerIsOutside(u, key, y);
    cur.fields := cur.fields[key := cell];
    w := Tree(cur, u.kids[key := y]);
    ghost var g := HeapOf(Docs(u) + Docs(y));
    AssignedIs(u, key, y, h, k, g);
    StoredFrame(w, g, HeapOf(Docs(w)));
  }

  /** A slice in memory has these elements. */
  ghost predicate HeldRow(cells: seq<Cell>, items: seq<Shape>)
    reads Docs(Row(items))
  {
    cells == CellsOf(items) && Unshared(Row(items)) && Stored(Row(items), HeapOf(Docs(Row(items))))
  }

  ghost function ValuesOf(items: seq<Shape>): seq<Value> {
    ValueOf(Row(items)).items
  }

  lemma AppendedIs(items: seq<Shape>, d: Doc, h: Heap, g: Heap)
    requires Unshared(Row(items)) && Stored(Row(items), h) && d !in Docs(Row(items)) && d in g && g[d] == map[]
    requires forall e :: e in Docs(Row(items)) ==> e in g && e in h && g[e] == h[e]
    ensures var all := items + [Tree(d, map[])];
      && Unshared(Row(all)) && Docs(Row(all)) == Docs(Row(items)) + {d} && Stored(Row(all), g)
      && CellsOf(all) == CellsOf(items) + [Ref(d)] && ValuesOf(all) == ValuesOf(items) + [Object(map[])]
  {
    var all := items + [Tree(d, map[])];
    StoredFrame(Row(items), h, g);
    assert all[|items|] == Tree(d, map[]) && Docs(all[|items|]) == {d};
    forall i, j | 0 <= i < j < |all| ensures Docs(all[i]) !! Docs(all[j]) {
      if j == |items| {
        assert Docs(items[i]) <= Docs(Row(items));
      }
    }
    forall e | e in Docs(Row(all)) ensures e in Docs(Row(items)) + {d} {
      var i :| 0 <= i < |all| && e in Docs(all[i]);
      assert i < |items| ==> all[i] == items[i];
    }
    forall e | e in Docs(Row(items)) + {d} ensures e in Docs(Row(all)) {
      if e != d {
        var i :| 0 <= i < |items| && e in Docs(items[i]);
        assert all[i] == items[i];
      }
    }
    forall i | 0 <= i < |all| ensures ValuesOf(all)[i] == (ValuesOf(items) + [Object(map[])])[i] {
      assert ValuesOf(all)[i] == ValueOf(all[i]);
    }
  }

  lemma EmptyObject(d: Doc, h: Heap)
    requires d in h && h[d] == map[]
    ensures var x := Tree(d, map[]); Docs(x) == {d} && Unshared(x) && Stored(x, h) && ValueOf(x) == Object(map[])
  {
  }

  method AppendEmpty(cells: seq<Cell>, ghost items: seq<Shape>, ghost live: set<Doc>)
    returns (r: seq<Cell>, ghost grown: seq<Shape>, ghost d: Doc)
    requires HeldRow(cells, items)
    ensures HeldRow(r, grown) && Docs(Row(grown)) == Docs(Row(items)) + {d}
    ensures fresh(d) && d !in live && HeapOf(live) == old(HeapOf(live))
    ensures |r| == |cells| + 1 && ValuesOf(grown) == ValuesOf(items) + [Object(map[])]
  {
    ghost var h := HeapOf(Docs(Row(items)));
    var n := new Doc();
    d := n;
    AppendedIs(items, d, h, HeapOf(Docs(Row(items)) + {d}));
    r, grown := cells + [Ref(n)], items + [Tree(d, map[])];
  }

  /** Append empty objects until the slice has n elements. */
  method Grow(cells: seq<Cell>, n: nat, ghost items: seq<Shape>, ghost live: set<Doc>)
    returns (r: seq<Cell>, ghost grown: seq<Shape>, ghost more: set<Doc>)
    requires HeldRow(cells, items)
    ensures HeldRow(r, grown) && Docs(Row(grown)) == Docs(Row(items)) + more
    ensures fresh(more) && more !! live && HeapOf(live) == old(HeapOf(live))
    ensures ValuesOf(grown) == Padded(ValuesOf(items), n)
  {
    r, grown, more := cells, items, {};
    while |r| < n
      invariant HeldRow(r, grown) && Docs(Row(grown)) == Docs(Row(items)) + more
      invariant fresh(more) && more !! live && HeapOf(live) == old(HeapOf(live))
      invariant |r| <= n || |r| == |cells|
      invariant ValuesOf(grown) == Padded(ValuesOf(items), |r|)
    {
      ghost var d;
      r, grown, d := AppendEmpty(r, grown, live);
      more := more + {d};
    }
  }

  /** cur[key] = map[string]any{} */
  method Create(cur: Doc, key: string, ghost u: Shape) returns (next: Doc, ghost w: Shape)
    requires Held(cur, u)
    modifies cur
    ensures Held(cur, w) && fresh(next) && w == Tree(cur, u.kids[key := Tree(next, map[])])
    ensures Docs(w) <= Docs(u) + {next}
    ensures FieldsOf(w.kids) == FieldsOf(u.kids)[key := Object(map[])]
  {
    ghost var docs, h := Docs(u), HeapOf(Docs(u));
    next := new Doc();
    EmptyObject(next, HeapOf({next}));
    assert next !in docs && HeapOf(docs) == h;
    w := Assign(cur, key, Ref(next), u, Tree(next, map[]));
  }

  /** Enter the object under a plain key, creating it when there is none. */
  method EnterKey(cur: Doc, key: string, ghost u: Shape) returns (next: Doc, ghost w: Shape)
    requires Held(cur, u)
    modifies cur
    ensures Held(cur, w) && fresh(Docs(w) - Docs(u))
    ensures HasSub(w, Key(key)) && Sub(w, Key(key)).doc == next
    ensures FieldsOf(w.kids) == Place(FieldsOf(u.kids), Key(key), Object(Child(FieldsOf(u.kids), Key(key))))
  {
    if key in cur.fields && cur.fields[key].Ref? {
      next, w := cur.fields[key].doc, u;
      SubIsChild(u, Key(key), Sub(u, Key(key)));
      assert u.kids[key := u.kids[key]] == u.kids;
    } else {
      next, w := Create(cur, key, u);
    }
  }

  /** Overwriting one slice element. */
  lemma ReplacedIs(items: seq<Shape>, i: nat, x: Shape, h: Heap, g: Heap)
    requires i < |items| && Unshared(Row(items)) && Stored(Row(items), h)
    requires Unshared(x) && Stored(x, g) && Docs(x) !! Docs(Row(items))
    requires forall d :: d in Docs(Row(items)) ==> d in g && d in h && g[d] == h[d]
    ensures var all := items[i := x];
      && Unshared(Row(all)) && Docs(Row(all)) <= Docs(Row(items)) + Docs(x) && Stored(Row(all), g)
      && CellsOf(all) == CellsOf(items)[i := CellOf(x)] && ValuesOf(all) == ValuesOf(items)[i := ValueOf(x)]
  {
    StoredFrame(Row(items), h, g);
    ItemUnshared(items, i, x);
    var cells, values := CellsOf(items[i := x]), ValuesOf(items[i := x]);
    assert forall j :: 0 <= j < |items| ==> cells[j] == CellOf(items[i := x][j]);
    assert forall j :: 0 <= j < |items| ==> values[j] == ValueOf(items[i := x][j]);
  }

  /** The object at an index of a slice; anything else there is overwritten by an empty object. */
  method ObjectAt(cells: seq<Cell>, index: nat, ghost items: seq<Shape>, ghost live: set<Doc>)
    returns (next: Doc, r: seq<Cell>, ghost after: seq<Shape>, ghost more: set<Doc>)
    requires HeldRow(cells, items) && index < |cells|
    ensures HeldRow(r, after) && Docs(Row(after)) <= Docs(Row(items)) + more
    ensures fresh(more) && more !! live && HeapOf(live) == old(HeapOf(live))
    ensures |after| == |items| && after[index].Tree? && after[index].doc == next
    ensures var was := ValuesOf(items)[index];
      ValuesOf(after) == ValuesOf(items)[index := if was.Object? then was else Object(map[])]
  {
    r, after, more := cells, items, {};
    assert CellOf(items[index]) == cells[index] && ValuesOf(items)[index] == ValueOf(items[index]);
    if cells[index].Ref? {
      next := cells[index].doc;
      assert ValuesOf(items)[index := ValuesOf(items)[index]] == ValuesOf(items);
    } else {
      ghost var docs, h := Docs(Row(items)), HeapOf(Docs(Row(items)));
      next := new Doc();
      more := {next};
      ghost var g := HeapOf(docs + {next});
      EmptyObject(next, g);
      assert next !in docs && next !in live;
      r, after := r[index := Ref(next)], items[index := Tree(next, map[])];
      ReplacedIs(items, index, Tree(next, map[]), h, g);
      StoredFrame(Row(after), g, HeapOf(Docs(Row(after))));
    }
  }

  /** arr, _ := cur[key].([]any), grown to n elements. */
  method SliceAt(cur: Doc, key: string, n: nat, ghost u: Shape)
    returns (cells: seq<Cell>, ghost items: seq<Shape>, ghost more: set<Doc>)
    requires Held(cur, u)
    ensures HeldRow(cells, items) && Docs(Row(items)) <= KidDocs(u, key) + more
    ensures fresh(more) && more !! Docs(u) && HeapOf(Docs(u)) == old(HeapOf(Docs(u)))
    ensures ValuesOf(items) == Padded(ItemsAt(FieldsOf(u.kids), key), n)
  {
    cells := if key in cur.fields && cur.fields[key].Slice? then cur.fields[key].cells else [];
    items := RowAt(u, key);
    RowAtKey(u, key);
    StoredFrame(Row(items), HeapOf(Docs(u)), HeapOf(Docs(Row(items))));
    cells, items, more := Grow(cells, n, items, Docs(u));
  }

  /** cur[key] = arr */
  method StoreSlice(cur: Doc, key: string, cells: seq<Cell>, ghost u: Shape, ghost items: seq<Shape>,
                    ghost more: set<Doc>)
    returns (ghost w: Shape)
    requires u.Tree? && u.doc == cur && Unshared(u) && Stored(u, HeapOf(Docs(u)))
    requires HeldRow(cells, items) && Docs(Row(items)) <= KidDocs(u, key) + more && more !! Docs(u)
    modifies cur
    ensures w == Tree(cur, u.kids[key := Row(items)]) && Held(cur, w) && Docs(w) <= Docs(u) + more
    ensures FieldsOf(w.kids) == FieldsOf(u.kids)[key := Array(ValuesOf(items))]
  {
    KidDocsWithin(u, key);
    w := Assign(cur, key, Slice(cells), u, Row(items));
  }

  lemma KidDocsWithin(u: Shape, key: string)
    requires u.Tree?
    ensures KidDocs(u, key) <= Docs(u)
  {
  }

  /** The slice under a key with an object at the index. */
  method SlotAt(cur: Doc, key: string, index: nat, ghost u: Shape)
    returns (next: Doc, cells: seq<Cell>, ghost items: seq<Shape>, ghost more: set<Doc>)
    requires Held(cur, u)
    ensures HeldRow(cells, items) && Docs(Row(items)) <= KidDocs(u, key) + more
    ensures fresh(more) && more !! Docs(u) && HeapOf(Docs(u)) == old(HeapOf(Docs(u)))
    ensures index < |items| && items[index].Tree? && items[index].doc == next
    ensures ValuesOf(items) == SlotValues(FieldsOf(u.kids), key, index)
  {
    ghost var again;
    cells, items, more := SliceAt(cur, key, index + 1, u);
    next, cells, items, again := ObjectAt(cells, index, items, Docs(u));
    more := more + again;
  }

  function SlotValues(fields: Fields, key: string, index: nat): seq<Value> {
    var items := Padded(ItemsAt(fields, key), index + 1);
    items[index := if items[index].Object? then items[index] else Object(map[])]
  }

  lemma SlotIsPlace(fields: Fields, key: string, index: nat)
    ensures fields[key := Array(SlotValues(fields, key, index))] ==
      Place(fields, Item(key, index), Object(Child(fields, Item(key, index))))
  {
  }

  /** Enter the object at an index of the slice under a key, growing the slice when it is short. */
  method EnterItem(cur: Doc, key: string, index: nat, ghost u: Shape) returns (next: Doc, ghost w: Shape)
    requires Held(cur, u)
    modifies cur
    ensures Held(cur, w) && fresh(Docs(w) - Docs(u))
    ensures HasSub(w, Item(key, index)) && Sub(w, Item(key, index)).doc == next
    ensures FieldsOf(w.kids) ==
      Place(FieldsOf(u.kids), Item(key, index), Object(Child(FieldsOf(u.kids), Item(key, index))))
  {
    var cells;
    ghost var items, more;
    next, cells, items, more := SlotAt(cur, key, index, u);
    SlotIsPlace(FieldsOf(u.kids), key, index);
    w := StoreSlice(cur, key, cells, u, items, more);
  }

  /** The slice under a key with a value at the index. */
  method ValueAt(cur: Doc, key: string, index: nat, x: Scalar, ghost u: Shape)
    returns (cells: seq<Cell>, ghost items: seq<Shape>, ghost more: set<Doc>)
    requires Held(cur, u)
    ensures HeldRow(cells, items) && Docs(Row(items)) <= KidDocs(u, key) + more
    ensures fresh(more) && more !! Docs(u) && HeapOf(Docs(u)) == old(HeapOf(Docs(u)))
    ensures ValuesOf(items) == Padded(ItemsAt(FieldsOf(u.kids), key), index + 1)[index := Leaf(x)]
  {
    cells, items, more := SliceAt(cur, key, index + 1, u);
    ghost var h := HeapOf(Docs(Row(items)));
    ReplacedIs(items, index, Single(x), h, h);
    cells, items := cells[index := Flat(x)], items[index := Single(x)];
    StoredFrame(Row(items), h, HeapOf(Docs(Row(items))));
  }

  method PutItem(cur: Doc, key: string, index: nat, x: Scalar, ghost u: Shape) returns (ghost w: Shape)
    requires Held(cur, u)
    modifies cur
    ensures Held(cur, w) && fresh(Docs(w) - Docs(u))
    ensures FieldsOf(w.kids) == Place(FieldsOf(u.kids), Item(key, index), Leaf(x))
  {
    var cells;
    ghost var items, more;
    cells, items, more := ValueAt(cur, key, index, x, u);
    w := StoreSlice(cur, key, cells, u, items, more);
  }

  /** Store a coerced value at the last step of a path. */
  method Put(cur: Doc, step: Step, x: Scalar, ghost u: Shape) returns (ghost w: Shape)
    requires Held(cur, u) && StepInRange(step) && !step.Broken?
    modifies cur
    ensures Held(cur, w) && fresh(Docs(w) - Docs(u))
    ensures FieldsOf(w.kids) == Place(FieldsOf(u.kids), step, Leaf(x))
  {
    match step {
      case Key(key) => w := Assign(cur, key, Flat(x), u, Single(x));
      case Item(key, index) => w := PutItem(cur, key, index, x, u);
    }
  }

  /** Follow one step that is not the last. */
  method Enter(cur: Doc, step: Step, ghost u: Shape) returns (next: Doc, ghost w: Shape)
    requires Held(cur, u) && StepInRange(step) && !step.Broken?
    modifies cur
    ensures Held(cur, w) && fresh(Docs(w) - Docs(u))
    ensures HasSub(w, step) && Sub(w, step).doc == next
    ensures FieldsOf(w.kids) == Place(FieldsOf(u.kids), step, Object(Child(FieldsOf(u.kids), step)))
  {
    match step {
      case Key(key) => next, w := EnterKey(cur, key, u);
      case Item(key, index) => next, w := EnterItem(cur, key, index, u);
    }
  }

  /** The part of a document a path leads to is held by the object there. */
  lemma {:induction false} PartStored(t: Shape, p: seq<Step>, h: Heap)
    requires Leads(t, p) && Stored(t, h)
    ensures Stored(At(t, p), h)
  {
    if p != [] {
      PartStored(Sub(t, p[0]), p[1..], h);
    }
  }

  lemma PartHeld(t: Shape, p: seq<Step>)
    requires Leads(t, p) && Held(t.doc, t)
    ensures At(t, p).doc in Docs(t) && Held(At(t, p).doc, At(t, p)) && Docs(At(t, p)) <= Docs(t)
  {
    var u := At(t, p);
    AtDocs(t, p);
    PartStored(t, p, HeapOf(Docs(t)));
    assert u.doc in Docs(u);
    StoredFrame(u, HeapOf(Docs(t)), HeapOf(Docs(u)));
  }

  /** A change to one object of a document, seen from its root. */
  lemma WholeStored(t: Shape, p: seq<Step>, w: Shape, h: Heap, g: Heap)
    requires Leads(t, p) && Unshared(t) && Stored(t, h)
    requires w.Tree? && w.doc == At(t, p).doc && Unshared(w) && Stored(w, g) && Docs(w) * Docs(t) <= Docs(At(t, p))
    requires forall d :: d in Docs(t) && d != w.doc ==> d in g && d in h && g[d] == h[d]
    ensures var all := Plug(t, p, w);
      && all.Tree? && all.doc == t.doc && Unshared(all) && Stored(all, g) && Docs(all) <= Docs(t) + Docs(w)
      && Leads(all, p) && At(all, p) == w
  {
    AtDocs(t, p);
    PlugLeads(t, p, w);
    PlugUnshared(t, p, w);
    assert w.doc in Docs(At(t, p));
    PlugStored(t, p, w, h, g);
  }

  lemma {:induction false} LeadsSnoc(t: Shape, p: seq<Step>, step: Step)
    requires Leads(t, p) && HasSub(At(t, p), step)
    ensures Leads(t, p + [step]) && At(t, p + [step]) == Sub(At(t, p), step)
  {
    if p == [] {
      assert p + [step] == [step] && [step][1..] == [];
    } else {
      assert (p + [step])[1..] == p[1..] + [step];
      LeadsSnoc(Sub(t, p[0]), p[1..], step);
    }
  }

  /** The document t with the object at the end of p changed to w. */
  ghost predicate Changed(t: Shape, p: seq<Step>, w: Shape, after: Shape)
    reads Docs(after)
  {
    && Leads(t, p) && w.Tree? && w.doc == At(t, p).doc && after == Plug(t, p, w) && after.Tree?
    && Held(t.doc, after) && Leads(after, p) && At(after, p) == w
  }

  /** A turn of the loop before the last part: enter the next object. */
  method Descend(cur: Doc, step: Step, ghost t: Shape, ghost p: seq<Step>)
    returns (next: Doc, ghost w: Shape, ghost after: Shape)
    requires t.Tree? && Held(t.doc, t) && Leads(t, p) && At(t, p).doc == cur
    requires StepInRange(step) && !step.Broken?
    modifies cur
    ensures Changed(t, p, w, after) && fresh(Docs(after) - Docs(t))
    ensures HasSub(w, step) && Sub(w, step).doc == next
    ensures var fields := FieldsOf(At(t, p).kids); FieldsOf(w.kids) == Place(fields, step, Object(Child(fields, step)))
  {
    ghost var u, docs, h := At(t, p), Docs(t), HeapOf(Docs(t));
    PartHeld(t, p);
    next, w := Enter(cur, step, u);
    assert forall d :: d in Docs(w) && d in docs ==> d in Docs(u);
    ghost var g := HeapOf(docs + Docs(w));
    StoredFrame(w, HeapOf(Docs(w)), g);
    WholeStored(t, p, w, h, g);
    after := Plug(t, p, w);
    StoredFrame(after, g, HeapOf(Docs(after)));
  }

  /** The last turn: store the value. */
  method Store(cur: Doc, step: Step, x: Scalar, ghost t: Shape, ghost p: seq<Step>)
    returns (ghost w: Shape, ghost after: Shape)
    requires t.Tree? && Held(t.doc, t) && Leads(t, p) && At(t, p).doc == cur
    requires StepInRange(step) && !step.Broken?
    modifies cur
    ensures Changed(t, p, w, after) && fresh(Docs(after) - Docs(t))
    ensures FieldsOf(w.kids) == Place(FieldsOf(At(t, p).kids), step, Leaf(x))
  {
    ghost var u, docs, h := At(t, p), Docs(t), HeapOf(Docs(t));
    PartHeld(t, p);
    w := Put(cur, step, x, u);
    assert forall d :: d in Docs(w) && d in docs ==> d in Docs(u);
    ghost var g := HeapOf(docs + Docs(w));
    StoredFrame(w, HeapOf(Docs(w)), g);
    WholeStored(t, p, w, h, g);
    after := Plug(t, p, w);
    StoredFrame(after, g, HeapOf(Docs(after)));
  }

  /** Entering an object does not change what the whole path will set. */
  lemma EnteringIsNeutral(fields: Fields, step: Step, q: seq<Step>, v: Value)
    requires StepInRange(step) && !step.Broken? && q != [] && InRange([step] + q)
    ensures Set(Place(fields, step, Object(Child(fields, step))), [step] + q, v) == Set(fields, [step] + q, v)
  {
    assert ([step] + q)[1..] == q;
    ChildOfPlace(fields, step, Child(fields, step));
    PlaceTwice(fields, step, Object(Child(fields, step)), Object(Set(Child(fields, step), q, v)));
  }

  lemma {:induction false} PlugSelf(t: Shape, p: seq<Step>)
    requires Leads(t, p)
    ensures Plug(t, p, At(t, p)) == t
  {
    if p != [] {
      PlugSelf(Sub(t, p[0]), p[1..]);
      assert t.kids[p[0].key := t.kids[p[0].key]] == t.kids;
      if p[0].Item? {
        var items := t.kids[p[0].key].items;
        assert items[p[0].index := items[p[0].index]] == items;
      }
    }
  }

  /** A bracket without a number stops the walk where it stands. */
  lemma BrokenStops(t: Shape, p: seq<Step>, q: seq<Step>, v: Value)
    requires Leads(t, p) && InRange(p + ([Broken] + q))
    ensures Set(FieldsOf(t.kids), p + ([Broken] + q), v) == FieldsOf(t.kids)
  {
    PlugSelf(t, p);
    PlugValue(t, p, At(t, p), [Broken] + q, v);
  }

  /** Entering an object leaves what the whole path will set unchanged. */
  lemma DescendKeeps(t: Shape, p: seq<Step>, w: Shape, step: Step, q: seq<Step>, v: Value)
    requires Leads(t, p) && w.Tree? && w.doc == At(t, p).doc && HasSub(w, step) && q != [] && InRange(p + ([step] + q))
    requires StepInRange(step)
    requires var fields := FieldsOf(At(t, p).kids); FieldsOf(w.kids) == Place(fields, step, Object(Child(fields, step)))
    ensures var after := Plug(t, p, w);
      && Leads(after, p + [step]) && At(after, p + [step]) == Sub(w, step)
      && Set(FieldsOf(after.kids), p + ([step] + q), v) == Set(FieldsOf(t.kids), p + ([step] + q), v)
  {
    PlugValue(t, p, w, [step] + q, v);
    EnteringIsNeutral(FieldsOf(At(t, p).kids), step, q, v);
    PlugLeads(t, p, w);
    LeadsSnoc(Plug(t, p, w), p, step);
  }

  lemma PathParts(path: string)
    ensures |ParsePath(path)| == |Split(path, '.')|
    ensures forall i :: 0 <= i < |ParsePath(path)| ==> ParsePath(path)[i] == ParsePart(Split(path, '.')[i])
  {
  }

  lemma StepAt(steps: seq<Step>, i: nat)
    requires i < |steps|
    ensures steps == steps[..i] + ([steps[i]] + steps[i + 1..]) && steps[..i + 1] == steps[..i] + [steps[i]]
  {
  }

  /** A turn before the last part: enter the next object. The whole path still sets the same document. */
  method Follow(cur: Doc, step: Step, ghost t: Shape, ghost p: seq<Step>, ghost q: seq<Step>, ghost v: Value)
    returns (next: Doc, ghost after: Shape, ghost more: set<Doc>)
    requires t.Tree? && Held(t.doc, t) && Leads(t, p) && At(t, p).doc == cur
    requires StepInRange(step) && !step.Broken? && q != [] && InRange(p + ([step] + q))
    modifies cur
    ensures Held(t.doc, after) && fresh(more) && Docs(after) <= Docs(t) + more
    ensures Leads(after, p + [step]) && At(after, p + [step]).doc == next
    ensures Set(FieldsOf(after.kids), p + ([step] + q), v) == Set(FieldsOf(t.kids), p + ([step] + q), v)
  {
    ghost var w;
    next, w, after := Descend(cur, step, t, p);
    more := Docs(after) - Docs(t);
    DescendKeeps(t, p, w, step, q, v);
  }

  /** The last turn: the path has been set. */
  method Conclude(cur: Doc, step: Step, x: Scalar, ghost t: Shape, ghost p: seq<Step>)
    returns (ghost after: Shape, ghost more: set<Doc>)
    requires t.Tree? && Held(t.doc, t) && Leads(t, p) && At(t, p).doc == cur
    requires StepInRange(step) && !step.Broken? && InRange(p + [step])
    modifies cur
    ensures Held(t.doc, after) && fresh(more) && Docs(after) <= Docs(t) + more
    ensures FieldsOf(after.kids) == Set(FieldsOf(t.kids), p + [step], Leaf(x))
  {
    ghost var w;
    w, after := Store(cur, step, x, t, p);
    more := Docs(after) - Docs(t);
    PlugValue(t, p, w, [step], Leaf(x));
  }

  /** One turn of the loop; it is the last one at the last part and at a broken bracket. */
  method Turn(cur: Doc, step: Step, last: bool, x: Scalar, ghost t: Shape, ghost p: seq<Step>, ghost q: seq<Step>)
    returns (next: Doc, stop: bool, ghost after: Shape, ghost more: set<Doc>)
    requires t.Tree? && Held(t.doc, t) && Leads(t, p) && At(t, p).doc == cur
    requires InRange(p + ([step] + q)) && StepInRange(step) && (last <==> q == [])
    modifies cur
    ensures Held(t.doc, after) && fresh(more) && Docs(after) <= Docs(t) + more
    ensures stop ==> FieldsOf(after.kids) == Set(FieldsOf(t.kids), p + ([step] + q), Leaf(x))
    ensures !stop ==>
      && !last && Leads(after, p + [step]) && At(after, p + [step]).doc == next
      && Set(FieldsOf(after.kids), p + ([step] + q), Leaf(x)) == Set(FieldsOf(t.kids), p + ([step] + q), Leaf(x))
  {
    next, stop, after, more := cur, true, t, {};
    if step.Broken? {
      BrokenStops(t, p, q, Leaf(x));
    } else if last {
      assert [step] + q == [step];
      after, more := Conclude(cur, step, x, t, p);
    } else {
      stop := false;
      next, after, more := Follow(cur, step, t, p, q, Leaf(x));
    }
  }

  /** setNestedValue: one loop over the parts, changing the document where it stands. */
  method SetNestedValue(root: Doc, path: string, value: string, parsesAsFloat: string -> bool, ghost s: Shape)
    returns (ghost t: Shape, ghost owned: set<Doc>)
    requires Held(root, s) && InRange(ParsePath(path))
    modifies Docs(s)
    ensures Held(root, t) && fresh(owned) && Docs(t) <= Docs(s) + owned
    ensures FieldsOf(t.kids) == Set(FieldsOf(s.kids), ParsePath(path), CoerceValue(value, parsesAsFloat))
  {
    var coerced := CoerceValue(value, parsesAsFloat);
    ghost var steps, docs, more: set<Doc> := ParsePath(path), Docs(s), {};
    var parts, cur := Split(path, '.'), root;
    PathParts(path);
    t, owned := s, {};
    for i := 0 to |parts|
      invariant Held(root, t) && fresh(owned) && docs == Docs(s) && Docs(t) <= docs + owned
      invariant i < |parts| ==> Leads(t, steps[..i]) && At(t, steps[..i]).doc == cur
      invariant i == |parts| ==> FieldsOf(t.kids) == Set(FieldsOf(s.kids), steps, coerced)
      invariant Set(FieldsOf(t.kids), steps, coerced) == Set(FieldsOf(s.kids), steps, coerced)
    {
      ghost var p, q := steps[..i], steps[i + 1..];
      StepAt(steps, i);
      PartHeld(t, p);
      var stop;
      cur, stop, t, more := Turn(cur, ParsePart(parts[i]), i == |parts| - 1, coerced.scalar, t, p, q);
      owned := owned + more;
      if stop { return; }
    }
  }

  /** Some order of the paths has been applied. */
  ghost predicate Applied(doc: Fields, done: seq<string>, patch: Patch, result: Fields) {
    (forall k :: k in done ==> k in patch && InRange(ParsePath(k))) && result == ApplyInOrder(doc, done, patch)
  }

  /** One turn of the patch loop. */
  method ApplyOne(root: Doc, path: string, value: string, parsesAsFloat: string -> bool,
                  ghost t: Shape, ghost doc: Fields, ghost done: seq<string>, ghost patch: Patch)
    returns (ghost after: Shape, ghost more: set<Doc>)
    requires Held(root, t) && Applied(doc, done, patch, FieldsOf(t.kids))
    requires path in patch && patch[path] == CoerceValue(value, parsesAsFloat) && InRange(ParsePath(path))
    modifies Docs(t)
    ensures Held(root, after) && fresh(more) && Docs(after) <= Docs(t) + more
    ensures Applied(doc, done + [path], patch, FieldsOf(after.kids))
  {
    ApplySnoc(doc, done, patch, path);
    after, more := SetNestedValue(root, path, value, parsesAsFloat, t);
  }

  lemma PlainAt(replacements: map<string, string>, parsesAsFloat: string -> bool, path: string)
    requires path in replacements
    ensures var patch := NestedPatch.Plain(replacements, parsesAsFloat);
      if '*' in path then path !in patch
      else path in patch && patch[path] == CoerceValue(replacements[path], parsesAsFloat)
  {
  }

  lemma OneLess(all: set<string>, todo: set<string>, k: string)
    requires k in todo
    ensures all - (todo - {k}) == (all - todo) + if k in all then {k} else {}
  {
  }

  /**
   The loop of applyJsonPatch and applyYamlPatch over the replacements, in
   whatever order Go picks: some enumeration of the paths has been applied.
   */
  method ApplyPatch(root: Doc, replacements: map<string, string>, parsesAsFloat: string -> bool, ghost s: Shape)
    returns (ghost t: Shape, ghost owned: set<Doc>, ghost done: seq<string>)
    requires Held(root, s)
    requires forall k :: k in replacements && '*' !in k ==> InRange(ParsePath(k))
    modifies Docs(s)
    ensures Held(root, t) && fresh(owned) && Docs(t) <= Docs(s) + owned
    ensures var patch := NestedPatch.Plain(replacements, parsesAsFloat);
      Enumerates(done, patch.Keys) && Applied(FieldsOf(s.kids), done, patch, FieldsOf(t.kids))
    ensures forall k :: k in done <==> k in replacements && '*' !in k
  {
    ghost var doc, docs, patch := FieldsOf(s.kids), Docs(s), NestedPatch.Plain(replacements, parsesAsFloat);
    ghost var all, keys, more := patch.Keys, {}, {};
    t, owned, done := s, {}, [];
    var todo := replacements.Keys;
    assert all - todo == {};
    while todo != {}
      invariant Held(root, t) && fresh(owned) && docs == Docs(s) && Docs(t) <= docs + owned
      invariant todo <= replacements.Keys && keys == all - todo && Enumerates(done, keys)
      invariant Applied(doc, done, patch, FieldsOf(t.kids))
    {
      var path :| path in todo;
      OneLess(all, todo, path);
      PlainAt(replacements, parsesAsFloat, path);
      if '*' !in path {
        EnumeratesSnoc(done, keys, path);
        t, more := ApplyOne(root, path, replacements[path], parsesAsFloat, t, doc, done, patch);
        owned, done, keys := owned + more, done + [path], keys + {path};
      }
      todo := todo - {path};
    }
  }
}
