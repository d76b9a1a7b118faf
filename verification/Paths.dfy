/** Slash-separated paths as text and as lists of components. */
module Paths {
  import opened Strings

  /** Components path.Clean leaves alone. */
  predicate Plain(c: string) {
    c != "" && c != "." && c != ".." && '/' !in c
  }

  /** path.Clean, one component at a time; `out` is what has been kept so far. */
  function CleanParts(parts: seq<string>, rooted: bool, out: seq<string>): seq<string> {
    if parts == [] then out else CleanParts(parts[1..], rooted, CleanPart(parts[0], rooted, out))
  }

  function CleanPart(c: string, rooted: bool, out: seq<string>): seq<string> {
    if c == "" || c == "." then out
    else if c == ".." then
      if out != [] && out[|out| - 1] != ".." then out[..|out| - 1]
      else if rooted then out else out + [".."]
    else out + [c]
  }

  function Clean(s: string): string {
    var rooted := s != "" && s[0] == '/';
    var out := CleanParts(Split(s, '/'), rooted, []);
    if rooted then "/" + Join(out, '/') else if out == [] then "." else Join(out, '/')
  }

  ghost predicate AllPlain(parts: seq<string>) {
    forall c :: c in parts ==> Plain(c)
  }

  lemma {:induction false} PlainPartsAreKept(parts: seq<string>, rooted: bool, out: seq<string>)
    requires AllPlain(parts)
    ensures CleanParts(parts, rooted, out) == out + parts
  {
    if parts == [] {
      assert out + parts == out;
    } else {
      assert Plain(parts[0]);
      assert forall c :: c in parts[1..] ==> c in parts;
      PlainPartsAreKept(parts[1..], rooted, out + [parts[0]]);
      assert out + [parts[0]] + parts[1..] == out + parts;
    }
  }

  /** A joined list of plain components is clean. */
  lemma CleanOfPlain(parts: seq<string>)
    requires parts != [] && AllPlain(parts)
    ensures Clean(Join(parts, '/')) == Join(parts, '/')
  {
    assert Plain(parts[0]);
    assert forall c :: c in parts ==> '/' !in c by {
      forall c | c in parts ensures '/' !in c { assert Plain(c); }
    }
    SplitJoin(parts, '/');
    var s := Join(parts, '/');
    assert s[0] == parts[0][0] && parts[0][0] in parts[0];
    PlainPartsAreKept(parts, false, []);
    assert [] + parts == parts;
  }

  lemma {:induction false} CleanPartsDropDots(parts: seq<string>, rooted: bool, out: seq<string>)
    requires forall c :: c in parts ==> '/' !in c
    requires forall c :: c in out ==> c != "" && c != "." && '/' !in c
    ensures forall c :: c in CleanParts(parts, rooted, out) ==> c != "" && c != "." && '/' !in c
  {
    if parts != [] {
      var c := parts[0];
      assert c in parts && forall d :: d in parts[1..] ==> d in parts;
      var next := CleanPart(c, rooted, out);
      assert forall d :: d in next ==> d in out || d == c;
      CleanPartsDropDots(parts[1..], rooted, next);
    }
  }

  /** A clean relative path has no empty and no "." component. */
  lemma CleanHasNoDots(s: string)
    requires !(s != "" && s[0] == '/') && Clean(s) != "."
    ensures forall c :: c in Split(Clean(s), '/') ==> c != "" && c != "."
  {
    SplitParts(s, '/');
    CleanPartsDropDots(Split(s, '/'), false, []);
    var out := CleanParts(Split(s, '/'), false, []);
    assert Clean(s) == Join(out, '/');
    SplitJoin(out, '/');
  }

  lemma {:induction false} TrailingEmptyIsDropped(parts: seq<string>, rooted: bool, out: seq<string>)
    ensures CleanParts(parts + [""], rooted, out) == CleanParts(parts, rooted, out)
  {
    var all := parts + [""];
    if parts == [] {
      assert all == [""] && all[1..] == [];
      assert CleanParts(all, rooted, out) == CleanParts([], rooted, out);
    } else {
      var next := CleanPart(parts[0], rooted, out);
      assert all[1..] == parts[1..] + [""];
      TrailingEmptyIsDropped(parts[1..], rooted, next);
      assert CleanParts(all, rooted, out) == CleanParts(all[1..], rooted, next);
    }
  }

  /** Joined plain components survive path.Clean, with or without a trailing slash. */
  lemma CleanOfPlainSlash(parts: seq<string>)
    requires parts != [] && AllPlain(parts)
    ensures Clean(Join(parts, '/') + "/") == Join(parts, '/')
  {
    var s := Join(parts, '/');
    CleanOfPlain(parts);
    PlainHasNoSlash(parts);
    SplitJoin(parts, '/');
    SplitTrailing(s, '/');
    TrailingEmptyIsDropped(parts, false, []);
    PlainPartsAreKept(parts, false, []);
    assert [] + parts == parts;
    assert Plain(parts[0]) && s[0] == parts[0][0] && parts[0][0] in parts[0];
    assert (s + "/")[0] == s[0];
  }

  lemma PlainHasNoSlash(parts: seq<string>)
    requires AllPlain(parts)
    ensures forall c :: c in parts ==> '/' !in c
  {
    forall c | c in parts ensures '/' !in c { assert Plain(c); }
  }

  /** The text up to and including the last slash. */
  function DirPart(s: string): string {
    if s == "" || s[|s| - 1] == '/' then s else DirPart(s[..|s| - 1])
  }

  /** path.Dir */
  function Dir(s: string): string {
    Clean(DirPart(s))
  }

  lemma {:induction false} DirPartOf(prefix: string, last: string)
    requires '/' !in last && (prefix == "" || prefix[|prefix| - 1] == '/')
    ensures DirPart(prefix + last) == prefix
  {
    var s := prefix + last;
    if last == "" {
      assert s == prefix;
    } else {
      assert s[|s| - 1] in last;
      assert s[..|s| - 1] == prefix + last[..|last| - 1];
      DirPartOf(prefix, last[..|last| - 1]);
    }
  }

  lemma {:induction false} JoinSnoc(parts: seq<string>, last: string)
    requires parts != []
    ensures Join(parts + [last], '/') == Join(parts, '/') + "/" + last
  {
    if |parts| == 1 {
      JoinCons(parts[0], [last], '/');
      assert parts + [last] == [parts[0]] + [last];
    } else {
      JoinSnoc(parts[1..], last);
      assert parts + [last] == [parts[0]] + (parts[1..] + [last]);
      JoinCons(parts[0], parts[1..] + [last], '/');
    }
  }

  lemma DirOfOne(last: string)
    requires '/' !in last
    ensures Dir(last) == "."
  {
    assert "" + last == last;
    DirPartOf("", last);
    CleanOfEmpty();
  }

  /** path.Dir of joined plain components drops the last one. */
  lemma DirOfSnoc(front: seq<string>, last: string)
    requires front != [] && AllPlain(front + [last])
    ensures Dir(Join(front + [last], '/')) == Join(front, '/')
  {
    var all := front + [last];
    assert Plain(all[|front|]) && forall c :: c in front ==> c in all;
    JoinSnoc(front, last);
    DirPartOf(Join(front, '/') + "/", last);
    CleanOfPlainSlash(front);
  }

  lemma CleanOfEmpty()
    ensures Clean("") == "."
  {
    assert CleanParts([""], false, []) == CleanParts([], false, []);
  }

  lemma Regroup(a: string, b: string, c: string)
    ensures a + ['/'] + b + "/" + c == a + ['/'] + (b + "/" + c)
  {
  }

  lemma {:induction false} SplitAfterJoin(parts: seq<string>, rest: string)
    requires parts != [] && AllPlain(parts)
    ensures Split(Join(parts, '/') + "/" + rest, '/') == parts + Split(rest, '/')
  {
    assert Plain(parts[0]);
    if |parts| == 1 {
      SplitFirst(parts[0], rest, '/');
      assert parts == [parts[0]];
    } else {
      assert forall c :: c in parts[1..] ==> c in parts;
      SplitAfterJoin(parts[1..], rest);
      var tail := Join(parts[1..], '/') + "/" + rest;
      SplitFirst(parts[0], tail, '/');
      JoinCons(parts[0], parts[1..], '/');
      assert parts == [parts[0]] + parts[1..];
      Regroup(parts[0], Join(parts[1..], '/'), rest);
      assert parts + Split(rest, '/') == [parts[0]] + (parts[1..] + Split(rest, '/'));
    }
  }

  lemma PrefixGivesAncestor(p: seq<string>, q: seq<string>, rest: string)
    requires p != [] && q != [] && AllPlain(p) && AllPlain(q) && Join(q, '/') == Join(p, '/') + "/" + rest
    ensures p < q
  {
    PlainHasNoSlash(q);
    SplitJoin(q, '/');
    SplitAfterJoin(p, rest);
    assert q == p + Split(rest, '/');
  }

  lemma AncestorGivesPrefix(p: seq<string>, q: seq<string>)
    requires p != [] && p < q
    ensures Join(q, '/') == Join(p, '/') + "/" + Join(q[|p|..], '/')
  {
    assert q == p + q[|p|..];
    JoinAppend(p, q[|p|..], '/');
  }

  /** Text prefixes ending in a slash are component prefixes. */
  lemma PrefixIsAncestor(p: seq<string>, q: seq<string>)
    requires p != [] && q != [] && AllPlain(p) && AllPlain(q)
    ensures HasPrefix(Join(q, '/'), Join(p, '/') + "/") <==> p < q
  {
    var s, t := Join(q, '/'), Join(p, '/') + "/";
    if HasPrefix(s, t) {
      assert s == t + s[|t|..];
      PrefixGivesAncestor(p, q, s[|t|..]);
    }
    if p < q {
      AncestorGivesPrefix(p, q);
      assert s[..|t|] == t;
    }
  }

  lemma FirstIsPlain(parts: seq<string>)
    requires parts != [] && AllPlain(parts)
    ensures var s := Join(parts, '/'); s != "" && s != "." && s != ".." && !HasPrefix(s, "../") && !HasPrefix(s, "/")
  {
    var s := Join(parts, '/');
    assert Plain(parts[0]);
    assert s[0] == parts[0][0] && parts[0][0] in parts[0];
    PlainHasNoSlash(parts);
    SplitJoin(parts, '/');
    if HasPrefix(s, "../") { LeadingDotDot(s); }
    SplitOne(".", '/');
    SplitOne("..", '/');
  }

  lemma LeadingDotDot(s: string)
    requires HasPrefix(s, "../")
    ensures Split(s, '/')[0] == ".."
  {
    assert s == ".." + "/" + s[3..];
    SplitFirst("..", s[3..], '/');
  }

  lemma JoinInjective(p: seq<string>, q: seq<string>)
    requires p != [] && q != [] && AllPlain(p) && AllPlain(q)
    ensures Join(p, '/') == Join(q, '/') ==> p == q
  {
    PlainHasNoSlash(p);
    PlainHasNoSlash(q);
    SplitJoin(p, '/');
    SplitJoin(q, '/');
  }

  // ----- path.Clean, rule by rule -----

  lemma {:induction false} CleanPartsAppend(p: seq<string>, q: seq<string>, rooted: bool, out: seq<string>)
    ensures CleanParts(p + q, rooted, out) == CleanParts(q, rooted, CleanParts(p, rooted, out))
  {
    if p == [] {
      assert p + q == q;
    } else {
      assert (p + q)[1..] == p[1..] + q;
      CleanPartsAppend(p[1..], q, rooted, CleanPart(p[0], rooted, out));
    }
  }

  /** What stands between two slashes and names nothing can go. */
  lemma CleanBetween(a: string, middle: string, b: string)
    requires forall rooted, out :: CleanParts(Split(middle, '/'), rooted, out) == out
    ensures Clean(a + ['/'] + (middle + ['/'] + b)) == Clean(a + ['/'] + b)
  {
    var long, short := a + ['/'] + (middle + ['/'] + b), a + ['/'] + b;
    SplitAppend(a, middle + ['/'] + b, '/');
    SplitAppend(middle, b, '/');
    SplitAppend(a, b, '/');
    assert long[0] == short[0] == if a == "" then '/' else a[0];
    var rooted := long[0] == '/';
    CleanPartsAppend(Split(a, '/'), Split(middle, '/') + Split(b, '/'), rooted, []);
    CleanPartsAppend(Split(middle, '/'), Split(b, '/'), rooted, CleanParts(Split(a, '/'), rooted, []));
    CleanPartsAppend(Split(a, '/'), Split(b, '/'), rooted, []);
  }

  /** Doubled slashes, single dots, and a component with the dot-dot that takes it back. */
  lemma CleanDropsDetours(a: string, c: string, b: string)
    requires Plain(c)
    ensures Clean(a + ['/'] + ("" + ['/'] + b)) == Clean(a + ['/'] + b)
    ensures Clean(a + ['/'] + ("." + ['/'] + b)) == Clean(a + ['/'] + b)
    ensures Clean(a + ['/'] + ((c + ['/'] + "..") + ['/'] + b)) == Clean(a + ['/'] + b)
  {
    SplitAppend(c, "..", '/');
    SplitOne(c, '/');
    SplitOne("..", '/');
    SplitOne(".", '/');
    SplitOne("", '/');
    assert [""][1..] == [] && ["."][1..] == [] && ([c] + [".."])[1..] == [".."] && [".."][1..] == [];
    forall rooted, out: seq<string>
      ensures CleanParts(Split(".", '/'), rooted, out) == out && CleanParts(Split("", '/'), rooted, out) == out
      ensures CleanParts(Split(c + ['/'] + "..", '/'), rooted, out) == out
    {
      assert (out + [c])[..|out|] == out;
    }
    CleanBetween(a, "", b);
    CleanBetween(a, ".", b);
    CleanBetween(a, c + ['/'] + "..", b);
  }
}
