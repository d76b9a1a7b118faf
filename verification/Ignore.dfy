/**
 The ignore-pattern compiler: a gitignore-like pattern becomes a regular
 expression, and the expression is proved to mean what the pattern says about
 the components of a path.
 */
module Ignore {
  import opened Wrappers
  import opened Strings
  import Paths

  // ----- regular expressions and what they match -----

  datatype CharSet = Exactly(c: char) | NotSlash | NotNewline

  datatype Regex =
    | One(chars: CharSet)
    | Star(body: Regex)
    | Cat(first: Regex, second: Regex)
    | Alt(left: Regex, right: Regex)
    | Opt(body: Regex)
    | Begin                                  // ^
    | End                                    // $

  predicate InSet(s: CharSet, c: char) {
    match s
    case Exactly(d) => c == d
    case NotSlash => c != '/'
    case NotNewline => c != '\n'
  }

  /** The expression matches the text from i up to j. */
  ghost predicate Match(r: Regex, t: string, i: nat, j: nat)
    requires i <= j <= |t|
    decreases r, j - i
  {
    match r
    case One(s) => j == i + 1 && InSet(s, t[i])
    case Star(b) => i == j || exists k :: i < k <= j && Match(b, t, i, k) && Match(r, t, k, j)
    case Cat(a, b) => exists k :: i <= k <= j && Match(a, t, i, k) && Match(b, t, k, j)
    case Alt(a, b) => Match(a, t, i, j) || Match(b, t, i, j)
    case Opt(b) => i == j || Match(b, t, i, j)
    case Begin => i == j == 0
    case End => i == j == |t|
  }

  ghost predicate MatchSeq(rs: seq<Regex>, t: string, i: nat, j: nat)
    requires i <= j <= |t|
  {
    if rs == [] then i == j
    else exists k :: i <= k <= j && Match(rs[0], t, i, k) && MatchSeq(rs[1..], t, k, j)
  }

  /** regexp.MatchString: a match may start and end anywhere. */
  ghost predicate Search(rs: seq<Regex>, t: string) {
    exists i, j :: 0 <= i <= j <= |t| && MatchSeq(rs, t, i, j)
  }

  // ----- the pieces compileRule emits -----

  const SLASH := One(Exactly('/'))
  const ANYTHING := Star(One(NotNewline))               // .*
  const WITHIN := Star(One(NotSlash))                   // [^/]*
  const DIRECTORIES := Opt(Cat(ANYTHING, SLASH))        // (?:.*/)?
  const ANYWHERE := Alt(Begin, Cat(ANYTHING, SLASH))    // (?:^|.*/)
  const BENEATH := Opt(Cat(SLASH, ANYTHING))            // (?:/.*)?

  /** How much of the pattern the first piece of the expression stands for. */
  function Width(v: string): (n: nat)
    requires v != ""
    ensures 0 < n <= |v|
  {
    if v[0] == '*' && |v| > 1 && v[1] == '*' then
      if |v| > 2 && v[2] == '/' then 3 else 2
    else 1
  }

  function Piece(v: string): Regex
    requires v != ""
  {
    if v[0] == '*' then
      if Width(v) == 3 then DIRECTORIES else if Width(v) == 2 then ANYTHING else WITHIN
    else One(if v[0] == '?' then NotSlash else Exactly(v[0]))
  }

  /** The expression for a pattern without character classes. */
  function Translate(v: string): seq<Regex>
    decreases |v|
  {
    if v == "" then [] else [Piece(v)] + Translate(v[Width(v)..])
  }

  function Ending(deep: bool): seq<Regex> {
    if deep then [BENEATH, End] else [End]
  }

  // ----- step one: the expression without regular expressions -----

  /** What a piece may consume: the text from i up to k. */
  ghost predicate Fits(r: Regex, t: string, i: nat, k: nat)
    requires i <= k <= |t|
  {
    if r == DIRECTORIES then k == i || t[k - 1] == '/'
    else if r == ANYTHING then true
    else if r == WITHIN then NoSlash(t, i, k)
    else r.One? && k == i + 1 && InSet(r.chars, t[i])
  }

  ghost predicate NoSlash(t: string, i: nat, k: nat)
    requires i <= k <= |t|
  {
    forall j :: i <= j < k ==> t[j] != '/'
  }

  /** The pattern v matches the text from i to its end (or to a slash, when descendants are covered). */
  ghost predicate Rest(v: string, deep: bool, t: string, i: nat)
    requires i <= |t|
    decreases |v|
  {
    if v == "" then i == |t| || (deep && t[i] == '/')
    else exists k: nat :: i <= k <= |t| && Fits(Piece(v), t, i, k) && Rest(v[Width(v)..], deep, t, k)
  }

  lemma {:induction false} AnythingMatches(t: string, i: nat, j: nat)
    requires i <= j <= |t| && '\n' !in t
    ensures Match(ANYTHING, t, i, j)
    decreases j - i
  {
    if i < j {
      assert t[i] in t;
      AnythingMatches(t, i + 1, j);
      assert Match(One(NotNewline), t, i, i + 1);
    }
  }

  lemma {:induction false} WithinMatches(t: string, i: nat, j: nat)
    requires i <= j <= |t|
    ensures Match(WITHIN, t, i, j) <==> NoSlash(t, i, j)
    decreases j - i
  {
    if i < j {
      WithinMatches(t, i + 1, j);
      assert Match(WITHIN, t, i, j) <==> (Match(One(NotSlash), t, i, i + 1) && Match(WITHIN, t, i + 1, j));
    }
  }

  lemma SlashMatches(t: string, i: nat, j: nat)
    requires i <= j <= |t|
    ensures Match(SLASH, t, i, j) <==> j == i + 1 && t[i] == '/'
  {
  }

  lemma SlashFirst(t: string, i: nat, j: nat)
    requires i <= j <= |t| && '\n' !in t
    ensures Match(Cat(SLASH, ANYTHING), t, i, j) <==> i < j && t[i] == '/'
  {
    forall k | i <= k <= j ensures (Match(SLASH, t, i, k) <==> k == i + 1 && t[i] == '/') && Match(ANYTHING, t, k, j) {
      SlashMatches(t, i, k);
      AnythingMatches(t, k, j);
    }
    if i < j && t[i] == '/' {
      assert Match(SLASH, t, i, i + 1) && Match(ANYTHING, t, i + 1, j);
    }
  }

  lemma SlashLast(t: string, i: nat, j: nat)
    requires i <= j <= |t| && '\n' !in t
    ensures Match(Cat(ANYTHING, SLASH), t, i, j) <==> i < j && t[j - 1] == '/'
  {
    forall k | i <= k <= j ensures Match(ANYTHING, t, i, k) && (Match(SLASH, t, k, j) <==> j == k + 1 && t[k] == '/') {
      SlashMatches(t, k, j);
      AnythingMatches(t, i, k);
    }
    if i < j && t[j - 1] == '/' {
      assert Match(ANYTHING, t, i, j - 1) && Match(SLASH, t, j - 1, j);
    }
  }

  lemma MatchCons(r: Regex, rs: seq<Regex>, t: string, i: nat, j: nat)
    requires i <= j <= |t|
    ensures MatchSeq([r] + rs, t, i, j) <==>
      exists k :: i <= k <= j && Match(r, t, i, k) && MatchSeq(rs, t, k, j)
  {
    var all := [r] + rs;
    assert all != [] && all[0] == r && all[1..] == rs;
    if MatchSeq(all, t, i, j) {
      var k: nat :| i <= k <= j && Match(all[0], t, i, k) && MatchSeq(all[1..], t, k, j);
      assert Match(r, t, i, k) && MatchSeq(rs, t, k, j);
    }
    if k: nat :| i <= k <= j && Match(r, t, i, k) && MatchSeq(rs, t, k, j) {
      assert Match(all[0], t, i, k) && MatchSeq(all[1..], t, k, j);
    }
  }

  lemma EndMatches(t: string, i: nat)
    requires i <= |t|
    ensures MatchSeq([End], t, i, |t|) <==> i == |t|
  {
    MatchCons(End, [], t, i, |t|);
    assert [End] + [] == [End];
    assert i == |t| ==> Match(End, t, i, i) && MatchSeq([], t, i, i);
  }

  lemma EndingMatches(t: string, i: nat, deep: bool)
    requires i <= |t| && '\n' !in t
    ensures MatchSeq(Ending(deep), t, i, |t|) <==> i == |t| || (deep && t[i] == '/')
  {
    EndMatches(t, |t|);
    forall k | i <= k <= |t| ensures MatchSeq([End], t, k, |t|) <==> k == |t| {
      EndMatches(t, k);
    }
    if deep {
      assert Ending(deep) == [BENEATH] + [End];
      MatchCons(BENEATH, [End], t, i, |t|);
      assert MatchSeq(Ending(deep), t, i, |t|) <==> Match(BENEATH, t, i, |t|);
      SlashFirst(t, i, |t|);
    }
  }

  lemma PieceFits(v: string, t: string, i: nat, k: nat)
    requires v != "" && i <= k <= |t| && '\n' !in t
    ensures Match(Piece(v), t, i, k) <==> Fits(Piece(v), t, i, k)
  {
    SlashLast(t, i, k);
    AnythingMatches(t, i, k);
    WithinMatches(t, i, k);
  }

  /** Step one: on a newline-free text the compiled tail matches to the end iff Rest holds. */
  lemma {:induction false} TailMatches(v: string, deep: bool, t: string, i: nat)
    requires i <= |t| && '\n' !in t
    ensures MatchSeq(Translate(v) + Ending(deep), t, i, |t|) <==> Rest(v, deep, t, i)
    decreases |v|
  {
    if v == "" {
      EndingMatches(t, i, deep);
      assert Translate(v) + Ending(deep) == Ending(deep);
    } else {
      var w := v[Width(v)..];
      var tail := Translate(w) + Ending(deep);
      assert Translate(v) + Ending(deep) == [Piece(v)] + tail;
      MatchCons(Piece(v), tail, t, i, |t|);
      forall k: nat | i <= k <= |t|
        ensures Match(Piece(v), t, i, k) <==> Fits(Piece(v), t, i, k)
        ensures MatchSeq(tail, t, k, |t|) <==> Rest(w, deep, t, k)
      {
        PieceFits(v, t, i, k);
        TailMatches(w, deep, t, k);
      }
      if k: nat :| i <= k <= |t| && Match(Piece(v), t, i, k) && MatchSeq(tail, t, k, |t|) {
        assert Fits(Piece(v), t, i, k) && Rest(w, deep, t, k);
      }
      if Rest(v, deep, t, i) {
        var k: nat :| i <= k <= |t| && Fits(Piece(v), t, i, k) && Rest(v[Width(v)..], deep, t, k);
        assert Match(Piece(v), t, i, k) && MatchSeq(tail, t, k, |t|);
      }
    }
  }

  // ----- what a pattern says about path components -----

  /** A glob within one component: `*` is any run, `?` any one character. */
  ghost predicate SegmentMatch(g: string, s: string)
    decreases |g| + |s|
  {
    if g == "" then s == ""
    else if g[0] == '*' then SegmentMatch(g[1..], s) || (s != "" && SegmentMatch(g, s[1..]))
    else s != "" && (g[0] == '?' || g[0] == s[0]) && SegmentMatch(g[1..], s[1..])
  }

  /** `**` stands for zero or more components, or one or more when it ends the pattern. */
  ghost predicate PathMatch(gs: seq<string>, ss: seq<string>)
    decreases |gs| + |ss|
  {
    if gs == [] then ss == []
    else if gs[0] == "**" then
      if |gs| == 1 then ss != [] else PathMatch(gs[1..], ss) || (ss != [] && PathMatch(gs, ss[1..]))
    else ss != [] && SegmentMatch(gs[0], ss[0]) && PathMatch(gs[1..], ss[1..])
  }

  /** `**` only as a whole component, no character classes. */
  ghost predicate PlainSegment(g: string) {
    g == "**" || Single(g)
  }

  ghost predicate Single(g: string) {
    '/' !in g && forall i, j :: 0 <= i < j < |g| && j == i + 1 ==> !(g[i] == '*' && g[j] == '*')
  }

  ghost predicate CleanComponents(ss: seq<string>) {
    ss != [] && forall s :: s in ss ==> s != "" && '/' !in s && '\n' !in s
  }

  lemma {:induction false} StarSegment(g: string, s: string)
    requires g != "" && g[0] == '*'
    ensures SegmentMatch(g, s) <==> exists m :: 0 <= m <= |s| && SegmentMatch(g[1..], s[m..])
    decreases |s|
  {
    assert s[0..] == s;
    if s != "" {
      StarSegment(g, s[1..]);
      if m :| 0 <= m <= |s[1..]| && SegmentMatch(g[1..], s[1..][m..]) {
        assert s[1..][m..] == s[m + 1..];
      }
      if m :| 1 <= m <= |s| && SegmentMatch(g[1..], s[m..]) {
        assert s[1..][m - 1..] == s[m..];
      }
    }
  }

  lemma {:induction false} DoubleStarPath(gs: seq<string>, ss: seq<string>)
    requires |gs| > 1 && gs[0] == "**"
    ensures PathMatch(gs, ss) <==> exists m :: 0 <= m <= |ss| && PathMatch(gs[1..], ss[m..])
    decreases |ss|
  {
    assert ss[0..] == ss;
    if ss != [] {
      DoubleStarPath(gs, ss[1..]);
      if m :| 0 <= m <= |ss[1..]| && PathMatch(gs[1..], ss[1..][m..]) {
        assert ss[1..][m..] == ss[m + 1..];
      }
      if m :| 1 <= m <= |ss| && PathMatch(gs[1..], ss[m..]) {
        assert ss[1..][m - 1..] == ss[m..];
      }
    }
  }

  lemma {:induction false} NothingMatchesNoComponents(gs: seq<string>)
    requires gs != []
    ensures !PathMatch(gs, [])
  {
    if gs[0] == "**" && |gs| > 1 {
      NothingMatchesNoComponents(gs[1..]);
    }
  }

  // ----- step two: Rest on joined components -----

  /** The segment g takes the text up to k, none of it a slash, and w the remainder. */
  ghost predicate SplitsAt(g: string, w: string, deep: bool, t: string, i: nat, k: nat)
    requires i <= |t|
  {
    i <= k <= |t| && NoSlash(t, i, k) && SegmentMatch(g, t[i..k]) && Rest(w, deep, t, k)
  }

  ghost predicate Splits(g: string, w: string, deep: bool, t: string, i: nat)
    requires i <= |t|
  {
    exists k: nat :: SplitsAt(g, w, deep, t, i, k)
  }

  lemma SingleTail(g: string)
    requires Single(g) && g != ""
    ensures Single(g[1..])
  {
    assert forall c :: c in g[1..] ==> c in g;
    assert forall i :: 0 <= i < |g| - 1 ==> g[1..][i] == g[i + 1];
  }

  lemma PieceOfSegment(g: string, w: string)
    requires Single(g) && g != "" && (w == "" || w[0] == '/')
    ensures Width(g + w) == 1 && (g + w)[1..] == g[1..] + w
    ensures Piece(g + w) == if g[0] == '*' then WITHIN else One(if g[0] == '?' then NotSlash else Exactly(g[0]))
  {
    var v := g + w;
    assert |v| > 1 ==> v[1] == if |g| > 1 then g[1] else w[0];
  }

  lemma {:induction false} SegmentRest(g: string, w: string, deep: bool, t: string, i: nat)
    requires Single(g) && (w == "" || w[0] == '/') && i <= |t|
    ensures Rest(g + w, deep, t, i) <==> Splits(g, w, deep, t, i)
    decreases |g|
  {
    if g == "" {
      assert g + w == w && t[i..i] == "";
      assert Rest(w, deep, t, i) ==> SplitsAt(g, w, deep, t, i, i);
    } else {
      SingleTail(g);
      PieceOfSegment(g, w);
      forall m: nat | i <= m <= |t| ensures Rest(g[1..] + w, deep, t, m) <==> Splits(g[1..], w, deep, t, m) {
        SegmentRest(g[1..], w, deep, t, m);
      }
      if Rest(g + w, deep, t, i) {
        var m: nat :| i <= m <= |t| && Fits(Piece(g + w), t, i, m) && Rest((g + w)[Width(g + w)..], deep, t, m);
        var k: nat :| SplitsAt(g[1..], w, deep, t, m, k);
        SegmentJoins(g, w, deep, t, i, m, k);
      }
      if k: nat :| SplitsAt(g, w, deep, t, i, k) {
        var m := SegmentParts(g, w, deep, t, i, k);
        assert Rest(g[1..] + w, deep, t, m);
      }
    }
  }

  lemma SegmentJoins(g: string, w: string, deep: bool, t: string, i: nat, m: nat, k: nat)
    requires Single(g) && g != "" && (w == "" || w[0] == '/') && i <= m <= |t|
    requires Fits(Piece(g + w), t, i, m) && SplitsAt(g[1..], w, deep, t, m, k)
    ensures SplitsAt(g, w, deep, t, i, k)
  {
    PieceOfSegment(g, w);
    var s := t[i..k];
    assert s[m - i..] == t[m..k];
    if g[0] == '*' {
      StarSegment(g, s);
    } else {
      assert g[0] in g;
    }
  }

  lemma SegmentParts(g: string, w: string, deep: bool, t: string, i: nat, k: nat) returns (m: nat)
    requires Single(g) && g != "" && (w == "" || w[0] == '/') && i <= |t|
    requires SplitsAt(g, w, deep, t, i, k)
    ensures i <= m <= |t| && Fits(Piece(g + w), t, i, m) && SplitsAt(g[1..], w, deep, t, m, k)
  {
    PieceOfSegment(g, w);
    var s := t[i..k];
    if g[0] == '*' {
      StarSegment(g, s);
      var n :| 0 <= n <= |s| && SegmentMatch(g[1..], s[n..]);
      m := i + n;
    } else {
      m := i + 1;
    }
    assert s[m - i..] == t[m..k];
  }

  /** The components ss are what the text holds from i on. */
  ghost predicate Sits(ss: seq<string>, t: string, i: nat) {
    CleanComponents(ss) && i <= |t| && t[i..] == Join(ss, '/')
  }

  lemma FirstComponent(ss: seq<string>, t: string, i: nat)
    requires Sits(ss, t, i)
    ensures var e := i + |ss[0]|;
      && i < e <= |t| && t[i..e] == ss[0] && NoSlash(t, i, e)
      && (e == |t| <==> |ss| == 1) && (e < |t| ==> t[e] == '/' && Sits(ss[1..], t, e + 1))
  {
    var u, n := t[i..], |ss[0]|;
    assert t[i..i + n] == u[..n] == ss[0];
    assert forall j :: i <= j < i + n ==> t[j] == ss[0][j - i] && ss[0][j - i] in ss[0];
    assert |u| == |t| - i && ss[0] in ss;
    if |ss| > 1 {
      assert u == ss[0] + ['/'] + Join(ss[1..], '/');
      assert u[n] == t[i + n] && u[n + 1..] == t[i + n + 1..] == Join(ss[1..], '/');
      assert forall s :: s in ss[1..] ==> s in ss;
    }
  }

  /** After any slash sits a proper suffix of the components. */
  lemma {:induction false} SuffixesFollowSlashes(ss: seq<string>, t: string, i: nat, k: nat) returns (m: nat)
    requires Sits(ss, t, i) && i <= k < |t| && t[k] == '/'
    ensures 0 < m < |ss| && Sits(ss[m..], t, k + 1)
    decreases |ss|
  {
    FirstComponent(ss, t, i);
    if k == i + |ss[0]| {
      m := 1;
    } else {
      m := SuffixesFollowSlashes(ss[1..], t, i + |ss[0]| + 1, k);
      assert ss[1..][m..] == ss[m + 1..];
      m := m + 1;
    }
  }

  /** And each proper suffix sits after a slash. */
  lemma {:induction false} SlashBeforeSuffix(ss: seq<string>, t: string, i: nat, m: nat) returns (k: nat)
    requires Sits(ss, t, i) && 0 < m < |ss|
    ensures i <= k < |t| && t[k] == '/' && Sits(ss[m..], t, k + 1)
    decreases |ss|
  {
    FirstComponent(ss, t, i);
    if m == 1 {
      k := i + |ss[0]|;
    } else {
      k := SlashBeforeSuffix(ss[1..], t, i + |ss[0]| + 1, m - 1);
      assert ss[1..][m - 1..] == ss[m..];
    }
  }

  /** A segment followed by a slash or the end takes exactly the first component. */
  lemma SplitsAtFirst(g: string, w: string, deep: bool, ss: seq<string>, t: string, i: nat)
    requires Sits(ss, t, i) && (w == "" || w[0] == '/')
    ensures var e := i + |ss[0]|;
      e <= |t| && (Splits(g, w, deep, t, i) <==> SegmentMatch(g, ss[0]) && Rest(w, deep, t, e))
  {
    var e := i + |ss[0]|;
    FirstComponent(ss, t, i);
    if k: nat :| SplitsAt(g, w, deep, t, i, k) {
      assert k == |t| || t[k] == '/' by {
        if w != "" { assert Piece(w) == One(Exactly('/')); }
      }
      assert k == e;
    }
    assert SegmentMatch(g, ss[0]) && Rest(w, deep, t, e) ==> SplitsAt(g, w, deep, t, i, e);
  }

  /** Some prefix of the components matches; all of them when descendants are not covered. */
  ghost predicate Covers(gs: seq<string>, deep: bool, ss: seq<string>) {
    exists b :: CoversUpTo(gs, deep, ss, b)
  }

  ghost predicate CoversUpTo(gs: seq<string>, deep: bool, ss: seq<string>, b: int) {
    0 <= b <= |ss| && (deep || b == |ss|) && PathMatch(gs, ss[..b])
  }

  lemma PathMatchStep(gs: seq<string>, ss: seq<string>, b: nat)
    requires gs != [] && gs[0] != "**" && 0 < |ss| && b <= |ss|
    ensures PathMatch(gs, ss[..b]) <==> b > 0 && SegmentMatch(gs[0], ss[0]) && PathMatch(gs[1..], ss[1..][..b - 1])
  {
    if b > 0 {
      assert ss[..b][1..] == ss[1..][..b - 1];
    }
  }

  /** Covering by a plain first segment is covering of the remaining components by the remaining segments. */
  lemma CoversStep(gs: seq<string>, deep: bool, ss: seq<string>)
    requires gs != [] && gs[0] != "**" && ss != []
    ensures Covers(gs, deep, ss) <==> SegmentMatch(gs[0], ss[0]) && Covers(gs[1..], deep, ss[1..])
  {
    if b :| CoversUpTo(gs, deep, ss, b) {
      PathMatchStep(gs, ss, b);
      assert CoversUpTo(gs[1..], deep, ss[1..], b - 1);
    }
    if b :| CoversUpTo(gs[1..], deep, ss[1..], b) && SegmentMatch(gs[0], ss[0]) {
      PathMatchStep(gs, ss, b + 1);
      assert CoversUpTo(gs, deep, ss, b + 1);
    }
  }

  lemma CoversNothing(gs: seq<string>, deep: bool)
    ensures Covers(gs, deep, []) <==> gs == []
  {
    if gs != [] {
      NothingMatchesNoComponents(gs);
      var none: seq<string> := [];
      assert none[..0] == [];
    } else {
      assert CoversUpTo(gs, deep, [], 0);
    }
  }

  lemma NoSegmentsCover(deep: bool, ss: seq<string>)
    ensures Covers([], deep, ss) <==> deep || ss == []
  {
    assert CoversUpTo([], deep, ss, 0) <==> deep || ss == [];
  }

  lemma DeepCovers(gs: seq<string>, deep: bool, ss: seq<string>)
    requires |gs| > 1 && gs[0] == "**"
    ensures Covers(gs, deep, ss) <==> exists m :: 0 <= m < |ss| && Covers(gs[1..], deep, ss[m..])
  {
    if b :| CoversUpTo(gs, deep, ss, b) {
      DoubleStarPath(gs, ss[..b]);
      var m :| 0 <= m <= |ss[..b]| && PathMatch(gs[1..], ss[..b][m..]);
      NothingMatchesNoComponents(gs[1..]);
      assert ss[..b][m..] == ss[m..][..b - m];
      assert CoversUpTo(gs[1..], deep, ss[m..], b - m);
    }
    if m :| 0 <= m < |ss| && Covers(gs[1..], deep, ss[m..]) {
      var b :| CoversUpTo(gs[1..], deep, ss[m..], b);
      assert ss[..m + b][m..] == ss[m..][..b];
      DoubleStarPath(gs, ss[..m + b]);
      assert CoversUpTo(gs, deep, ss, m + b);
    }
  }

  /** Step two: Rest on joined components is covering of the components. */
  lemma {:induction false} RestCovers(gs: seq<string>, deep: bool, ss: seq<string>, t: string, i: nat)
    requires gs != [] && (forall g :: g in gs ==> PlainSegment(g)) && Sits(ss, t, i)
    ensures Rest(Join(gs, '/'), deep, t, i) <==> Covers(gs, deep, ss)
    decreases |gs|
  {
    assert PlainSegment(gs[0]);
    assert forall g :: g in gs[1..] ==> g in gs;
    if gs[0] == "**" {
      if |gs| == 1 {
        TrailingStars(deep, ss, t, i);
        assert gs == ["**"];
      } else {
        LeadingStars(gs, deep, ss, t, i);
      }
    } else if |gs| == 1 {
      assert gs == [gs[0]];
      PlainLast(gs[0], deep, ss, t, i);
    } else {
      PlainFirst(gs, deep, ss, t, i);
    }
  }

  lemma TrailingStars(deep: bool, ss: seq<string>, t: string, i: nat)
    requires Sits(ss, t, i)
    ensures Rest("**", deep, t, i) && Covers(["**"], deep, ss)
  {
    assert Width("**") == 2 && Piece("**") == ANYTHING && "**"[2..] == "";
    assert Rest("", deep, t, |t|) && Fits(ANYTHING, t, i, |t|);
    assert ss[..|ss|] == ss && CoversUpTo(["**"], deep, ss, |ss|);
  }

  lemma PlainLast(g: string, deep: bool, ss: seq<string>, t: string, i: nat)
    requires Single(g) && g != "**" && Sits(ss, t, i)
    ensures Rest(g, deep, t, i) <==> Covers([g], deep, ss)
  {
    assert g + "" == g && [g][1..] == [];
    SegmentRest(g, "", deep, t, i);
    SplitsAtFirst(g, "", deep, ss, t, i);
    FirstComponent(ss, t, i);
    CoversStep([g], deep, ss);
    NoSegmentsCover(deep, ss[1..]);
  }

  lemma SlashRest(w: string, deep: bool, t: string, i: nat)
    requires i <= |t|
    ensures Rest(['/'] + w, deep, t, i) <==> i < |t| && t[i] == '/' && Rest(w, deep, t, i + 1)
  {
    var v := ['/'] + w;
    assert Piece(v) == One(Exactly('/')) && Width(v) == 1 && v[1..] == w;
    assert i < |t| && t[i] == '/' ==> Fits(Piece(v), t, i, i + 1);
  }

  lemma {:induction false} PlainFirst(gs: seq<string>, deep: bool, ss: seq<string>, t: string, i: nat)
    requires |gs| > 1 && gs[0] != "**" && (forall g :: g in gs ==> PlainSegment(g)) && Sits(ss, t, i)
    ensures Rest(Join(gs, '/'), deep, t, i) <==> Covers(gs, deep, ss)
    decreases |gs|, 0
  {
    var w, e := Join(gs[1..], '/'), i + |ss[0]|;
    assert PlainSegment(gs[0]);
    assert Join(gs, '/') == gs[0] + (['/'] + w);
    SegmentRest(gs[0], ['/'] + w, deep, t, i);
    SplitsAtFirst(gs[0], ['/'] + w, deep, ss, t, i);
    FirstComponent(ss, t, i);
    SlashRest(w, deep, t, e);
    CoversStep(gs, deep, ss);
    if |ss| == 1 {
      CoversNothing(gs[1..], deep);
      assert ss[1..] == [];
    } else {
      assert forall g :: g in gs[1..] ==> g in gs;
      RestCovers(gs[1..], deep, ss[1..], t, e + 1);
    }
  }

  lemma {:induction false} LeadingStars(gs: seq<string>, deep: bool, ss: seq<string>, t: string, i: nat)
    requires |gs| > 1 && gs[0] == "**" && (forall g :: g in gs ==> PlainSegment(g)) && Sits(ss, t, i)
    ensures Rest(Join(gs, '/'), deep, t, i) <==> Covers(gs, deep, ss)
    decreases |gs|, 0
  {
    var v, w := Join(gs, '/'), Join(gs[1..], '/');
    assert v == "**/" + w && v[3..] == w && Width(v) == 3 && Piece(v) == DIRECTORIES;
    DeepCovers(gs, deep, ss);
    assert ss[0..] == ss;
    assert forall g :: g in gs[1..] ==> g in gs;
    forall k: nat | i <= k <= |t| && Fits(DIRECTORIES, t, i, k)
      ensures exists m :: 0 <= m < |ss| && (Rest(w, deep, t, k) <==> Covers(gs[1..], deep, ss[m..]))
    {
      var m := 0;
      if k > i {
        m := SuffixesFollowSlashes(ss, t, i, k - 1);
      }
      RestCovers(gs[1..], deep, ss[m..], t, k);
    }
    if m :| 0 <= m < |ss| && Covers(gs[1..], deep, ss[m..]) {
      var k := i;
      if m > 0 {
        var j := SlashBeforeSuffix(ss, t, i, m);
        k := j + 1;
      }
      RestCovers(gs[1..], deep, ss[m..], t, k);
      assert Fits(DIRECTORIES, t, i, k);
    }
  }

  // ----- step three: anchors -----

  lemma {:induction false} SearchReachesEnd(rs: seq<Regex>, t: string, i: nat, j: nat)
    requires i <= j <= |t| && rs != [] && rs[|rs| - 1] == End && MatchSeq(rs, t, i, j)
    ensures j == |t|
  {
    var k: nat :| i <= k <= j && Match(rs[0], t, i, k) && MatchSeq(rs[1..], t, k, j);
    if |rs| > 1 {
      SearchReachesEnd(rs[1..], t, k, j);
    }
  }

  /** Where the tail of an expression may start: at the beginning, or after any slash. */
  ghost predicate StartsAt(floating: bool, t: string, k: nat) {
    k <= |t| && (k == 0 || (floating && t[k - 1] == '/'))
  }

  lemma StartMatches(floating: bool, t: string, i: nat, k: nat)
    requires i <= k <= |t| && '\n' !in t
    ensures Match(if floating then ANYWHERE else Begin, t, i, k) ==> StartsAt(floating, t, k)
    ensures StartsAt(floating, t, k) ==> Match(if floating then ANYWHERE else Begin, t, 0, k)
  {
    SlashLast(t, i, k);
    SlashLast(t, 0, k);
    assert Match(ANYWHERE, t, i, k) <==> Match(Begin, t, i, k) || Match(Cat(ANYTHING, SLASH), t, i, k);
    assert Match(ANYWHERE, t, 0, k) <==> Match(Begin, t, 0, k) || Match(Cat(ANYTHING, SLASH), t, 0, k);
  }

  lemma SearchStarts(floating: bool, v: string, deep: bool, t: string)
    requires '\n' !in t
    ensures Search([if floating then ANYWHERE else Begin] + Translate(v) + Ending(deep), t) <==>
      exists k: nat :: StartsAt(floating, t, k) && Rest(v, deep, t, k)
  {
    var start := if floating then ANYWHERE else Begin;
    var tail := Translate(v) + Ending(deep);
    var all := [start] + Translate(v) + Ending(deep);
    assert all == [start] + tail && all[|all| - 1] == End;
    if i, j :| 0 <= i <= j <= |t| && MatchSeq(all, t, i, j) {
      SearchReachesEnd(all, t, i, j);
      MatchCons(start, tail, t, i, j);
      var k: nat :| i <= k <= j && Match(start, t, i, k) && MatchSeq(tail, t, k, j);
      StartMatches(floating, t, i, k);
      TailMatches(v, deep, t, k);
    }
    if k: nat :| StartsAt(floating, t, k) && Rest(v, deep, t, k) {
      TailMatches(v, deep, t, k);
      StartMatches(floating, t, 0, k);
      MatchCons(start, tail, t, 0, |t|);
    }
  }

  // ----- compileRule -----

  /** A pattern after its markers are stripped. */
  datatype Pattern = Blank | Unsafe | Pattern(negated: bool, anchored: bool, directory: bool, value: string)

  function Parse(original: string): Pattern {
    var line := TrimSpace(original);
    if line == "" || line[0] == '#' then Blank
    else
      var negated := line[0] == '!';
      var body := if Escapes(line) || negated then line[1..] else line;
      ParseBody(negated, body)
  }

  /** It begins with a backslash before `#` or `!`. */
  predicate Escapes(line: string) {
    |line| > 1 && line[0] == '\\' && (line[1] == '#' || line[1] == '!')
  }

  predicate Leading(s: string, c: char) {
    s != "" && s[0] == c
  }

  predicate Trailing(s: string, c: char) {
    s != "" && s[|s| - 1] == c
  }

  lemma MarksAreAffixes(s: string)
    ensures HasPrefix(s, "\\#") || HasPrefix(s, "\\!") <==> Escapes(s)
    ensures HasPrefix(s, "/") <==> Leading(s, '/')
    ensures HasSuffix(s, "/") <==> Trailing(s, '/')
  {
    if |s| > 1 {
      assert s[..2] == [s[0], s[1]];
    }
    if s != "" {
      assert s[..1] == [s[0]] && s[|s| - 1..] == [s[|s| - 1]];
    }
  }

  function ParseBody(negated: bool, body: string): Pattern {
    var anchored := Leading(body, '/');
    var relative := if anchored then body[1..] else body;
    var directory := Trailing(relative, '/');
    var value := if directory then relative[..|relative| - 1] else relative;
    if value == "" || '\0' in value then Unsafe
    else Pattern(negated, anchored, directory, value)
  }

  function Expression(p: Pattern): seq<Regex>
    requires p.Pattern?
  {
    [if p.anchored || '/' in p.value then Begin else ANYWHERE] + Translate(p.value)
    + Ending(p.directory || '/' !in p.value)
  }

  datatype Rule = Rule(negated: bool, matcher: seq<Regex>)

  /**
   WithClass: every bracket is closed; what a class matches, and whether its text compiles, is not
   part of this model.
  */
  datatype Compiled = NoRule | Invalid | WithClass | Compiled(rule: Rule)

  datatype Brackets = NoClass | Classes | Unterminated

  /** Classes run from a '[' to the next ']'. */
  function BracketsOf(v: string): Brackets {
    if v == "" then NoClass
    else if v[0] != '[' then BracketsOf(v[1..])
    else
      var close := Index(v[1..], ']');
      if close == -1 then Unterminated else Worse(Classes, BracketsOf(v[close + 2..]))
  }

  /** An unterminated bracket outweighs a class, and a class the lack of one. */
  function Worse(a: Brackets, b: Brackets): Brackets {
    if a.Unterminated? || b.Unterminated? then Unterminated
    else if a.Classes? || b.Classes? then Classes
    else NoClass
  }

  lemma {:induction false} NoBracketNoClass(v: string)
    ensures BracketsOf(v).NoClass? <==> '[' !in v
  {
    if v != "" && v[0] != '[' {
      NoBracketNoClass(v[1..]);
      assert v == [v[0]] + v[1..];
    }
  }

  function CompiledAs(brackets: Brackets, rule: Rule): Compiled {
    match brackets
    case Unterminated => Invalid
    case Classes => WithClass
    case NoClass => Compiled(rule)
  }

  ghost function CompiledOf(p: Pattern): Compiled {
    match p
    case Blank => NoRule
    case Unsafe => Invalid
    case p => CompiledAs(BracketsOf(p.value), Rule(p.negated, Expression(p)))
  }

  lemma AppendPiece(done: seq<Regex>, value: string, i: nat)
    requires i < |value|
    ensures var rest := value[i..];
      done + Translate(rest) == done + [Piece(rest)] + Translate(value[i + Width(rest)..])
  {
    var rest := value[i..];
    assert rest[Width(rest)..] == value[i + Width(rest)..];
  }

  /** One turn of the scan: the piece for the character at index, and where the scan goes on. */
  method ScanPiece(value: string, index: nat) returns (piece: Regex, next: nat)
    requires index < |value|
    ensures piece == Piece(value[index..]) && next == index + Width(value[index..])
  {
    ghost var rest := value[index..];
    assert forall j :: 0 <= j < |rest| ==> rest[j] == value[index + j];
    next := index + 1;
    if value[index] == '*' {
      if next < |value| && value[next] == '*' {
        next := next + 1;
        if next < |value| && value[next] == '/' {
          return DIRECTORIES, next + 1;
        }
        return ANYTHING, next;
      }
      return WITHIN, next;
    }
    piece := if value[index] == '?' then One(NotSlash) else One(Exactly(value[index]));
  }

  /** What has been emitted so far, and no bracket on the way. */
  ghost predicate Scanned(value: string, i: nat, expression: seq<Regex>)
    requires i <= |value|
  {
    expression + Translate(value[i..]) == Translate(value) && forall k :: 0 <= k < i ==> value[k] != '['
  }

  lemma ScannedStep(value: string, i: nat, expression: seq<Regex>)
    requires i < |value| && value[i] != '[' && Scanned(value, i, expression)
    ensures var rest := value[i..];
      i + Width(rest) <= |value| && Scanned(value, i + Width(rest), expression + [Piece(rest)])
  {
    AppendPiece(expression, value, i);
    PieceHasNoBracket(value, i);
  }

  /** The scan of compileRule over a stripped pattern; there is no expression when it has classes. */
  method CompileBody(value: string) returns (brackets: Brackets, expression: seq<Regex>)
    ensures brackets == BracketsOf(value)
    ensures brackets.NoClass? ==> expression == Translate(value)
  {
    expression := [];
    var index := 0;
    while index < |value|
      invariant 0 <= index <= |value| && Scanned(value, index, expression)
    {
      if value[index] == '[' {
        SkipCharacters(value, index);
        brackets := PairBrackets(value[index..]);
        return;
      }
      ScannedStep(value, index, expression);
      var piece, next := ScanPiece(value, index);
      expression, index := expression + [piece], next;
    }
    assert value[|value|..] == "" && expression + [] == expression;
    SkipCharacters(value, |value|);
    return NoClass, expression;
  }

  /** The rest of the scan once there is a class: every '[' needs its ']'. */
  method PairBrackets(rest: string) returns (brackets: Brackets)
    ensures brackets == BracketsOf(rest)
  {
    var v := rest;
    brackets := NoClass;
    while v != ""
      invariant !brackets.Unterminated? && BracketsOf(rest) == Worse(brackets, BracketsOf(v))
      decreases |v|
    {
      if v[0] == '[' {
        var end := Index(v[1..], ']');
        if end == -1 { return Unterminated; }
        v, brackets := v[end + 2..], Classes;
      } else {
        v := v[1..];
      }
    }
  }

  /** Characters that are not brackets do not matter. */
  lemma {:induction false} SkipCharacters(v: string, n: nat)
    requires n <= |v| && forall k :: 0 <= k < n ==> v[k] != '['
    ensures BracketsOf(v) == BracketsOf(v[n..])
  {
    if n == 0 {
      assert v[0..] == v;
    } else {
      SkipCharacters(v[1..], n - 1);
      assert v[1..][n - 1..] == v[n..];
    }
  }

  lemma PieceHasNoBracket(value: string, i: nat)
    requires i < |value| && value[i] != '['
    ensures forall k :: i <= k < i + Width(value[i..]) ==> k < |value| && value[k] != '['
  {
    assert forall j :: 0 <= j < |value[i..]| ==> value[i..][j] == value[i + j];
  }

  /** The slashes around a pattern. */
  method StripSlashes(negated: bool, body: string) returns (p: Pattern)
    ensures p == ParseBody(negated, body)
  {
    var value := body;
    MarksAreAffixes(value);
    var anchored := HasPrefix(value, "/");
    if anchored { value := value[1..]; }
    MarksAreAffixes(value);
    var directory := HasSuffix(value, "/");
    value := TrimSuffix(value, "/");
    if value == "" || '\0' in value { return Unsafe; }
    return Pattern(negated, anchored, directory, value);
  }

  method CompileStripped(negated: bool, body: string) returns (r: Compiled)
    ensures r == CompiledOf(ParseBody(negated, body))
  {
    var p := StripSlashes(negated, body);
    if p == Unsafe { return Invalid; }
    var brackets, pieces := CompileBody(p.value);
    var start := if p.anchored || '/' in p.value then Begin else ANYWHERE;
    return CompiledAs(brackets, Rule(negated, [start] + pieces + Ending(p.directory || '/' !in p.value)));
  }

  method CompileRule(original: string) returns (r: Compiled)
    ensures r == CompiledOf(Parse(original))
  {
    var value := TrimSpace(original);
    var negated := false;
    if value == "" || value[0] == '#' { return NoRule; }
    MarksAreAffixes(value);
    if HasPrefix(value, "\\#") || HasPrefix(value, "\\!") {
      value := value[1..];
    } else if value[0] == '!' {
      negated := true;
      value := value[1..];
    }
    r := CompileStripped(negated, value);
  }

  // ----- the compiled rule means what the pattern says -----

  /** A slash-free pattern matches any component; others match from the root. Both may cover descendants. */
  ghost predicate PatternMatches(p: Pattern, ss: seq<string>)
    requires p.Pattern?
  {
    if p.anchored || '/' in p.value then
      Covers(Split(p.value, '/'), p.directory || '/' !in p.value, ss)
    else
      exists a :: 0 <= a < |ss| && SegmentMatch(p.value, ss[a])
  }

  ghost predicate Supported(p: Pattern) {
    p.Pattern? && '[' !in p.value && forall g :: g in Split(p.value, '/') ==> PlainSegment(g)
  }

  lemma {:induction false} DoubleStarMatchesAll(s: string)
    ensures SegmentMatch("**", s)
  {
    if s != "" {
      DoubleStarMatchesAll(s[1..]);
    } else {
      assert "**"[1..] == "*" && "*"[1..] == "";
      assert SegmentMatch("*", "");
    }
  }

  lemma OneSegmentCovers(g: string, ss: seq<string>)
    requires CleanComponents(ss)
    ensures Covers([g], true, ss) <==> SegmentMatch(g, ss[0])
  {
    if g == "**" {
      DoubleStarMatchesAll(ss[0]);
      assert ss[..1] == [ss[0]] && CoversUpTo([g], true, ss, 1);
    } else {
      CoversStep([g], true, ss);
      NoSegmentsCover(true, ss[1..]);
      assert [g][1..] == [];
    }
  }

  lemma FloatingFindsComponent(g: string, ss: seq<string>, t: string, k: nat) returns (a: nat)
    requires PlainSegment(g) && Sits(ss, t, 0) && StartsAt(true, t, k) && Rest(g, true, t, k)
    ensures a < |ss| && SegmentMatch(g, ss[a])
  {
    a := 0;
    if k > 0 {
      a := SuffixesFollowSlashes(ss, t, 0, k - 1);
    }
    assert ss[0..] == ss && ss[a..][0] == ss[a];
    RestCovers([g], true, ss[a..], t, k);
    OneSegmentCovers(g, ss[a..]);
  }

  lemma ComponentIsFound(g: string, ss: seq<string>, t: string, a: nat) returns (k: nat)
    requires PlainSegment(g) && Sits(ss, t, 0) && a < |ss| && SegmentMatch(g, ss[a])
    ensures StartsAt(true, t, k) && Rest(g, true, t, k)
  {
    k := 0;
    if a > 0 {
      var j := SlashBeforeSuffix(ss, t, 0, a);
      k := j + 1;
    }
    assert ss[0..] == ss && ss[a..][0] == ss[a];
    RestCovers([g], true, ss[a..], t, k);
    OneSegmentCovers(g, ss[a..]);
  }

  lemma FloatingMeansComponent(g: string, ss: seq<string>, t: string)
    requires PlainSegment(g) && Sits(ss, t, 0)
    ensures (exists k: nat :: StartsAt(true, t, k) && Rest(g, true, t, k)) <==>
            exists a :: 0 <= a < |ss| && SegmentMatch(g, ss[a])
  {
    if k: nat :| StartsAt(true, t, k) && Rest(g, true, t, k) {
      var a := FloatingFindsComponent(g, ss, t, k);
    }
    if a :| 0 <= a < |ss| && SegmentMatch(g, ss[a]) {
      var k := ComponentIsFound(g, ss, t, a);
    }
  }

  /** The compiler is correct: the expression finds a match iff the pattern matches the components. */
  lemma CompiledMeansPattern(p: Pattern, ss: seq<string>)
    requires Supported(p) && CleanComponents(ss)
    ensures Search(Expression(p), Join(ss, '/')) <==> PatternMatches(p, ss)
  {
    var t, gs := Join(ss, '/'), Split(p.value, '/');
    var deep, floating := p.directory || '/' !in p.value, !p.anchored && '/' !in p.value;
    NewlineFree(ss);
    JoinSplit(p.value, '/');
    SearchStarts(floating, p.value, deep, t);
    assert t[0..] == t && Sits(ss, t, 0);
    if floating {
      SplitOne(p.value, '/');
      FloatingMeansComponent(p.value, ss, t);
    } else {
      assert StartsAt(false, t, 0);
      RestCovers(gs, deep, ss, t, 0);
    }
  }

  lemma {:induction false} NewlineFree(ss: seq<string>)
    requires CleanComponents(ss)
    ensures '\n' !in Join(ss, '/')
  {
    if |ss| > 1 {
      assert forall s :: s in ss[1..] ==> s in ss;
      NewlineFree(ss[1..]);
    }
  }

  // ----- lists of patterns -----

  /** A list compiles to rules, is broken by one bad pattern, or has classes. */
  datatype RuleList = Rules(rules: seq<Rule>) | Broken | HasClasses

  ghost function CompiledAll(patterns: seq<string>): seq<Compiled> {
    seq(|patterns|, i requires 0 <= i < |patterns| => CompiledOf(Parse(patterns[i])))
  }

  /** In order; a blank pattern makes no rule, one bad one breaks the list. */
  function ListOf(cs: seq<Compiled>): RuleList {
    if cs == [] then Rules([]) else Added(ListOf(cs[..|cs| - 1]), cs[|cs| - 1])
  }

  ghost function RulesOf(patterns: seq<string>): RuleList {
    ListOf(CompiledAll(patterns))
  }

  function Added(list: RuleList, compiled: Compiled): RuleList {
    match (list, compiled)
    case (Broken, _) => Broken
    case (_, Invalid) => Broken
    case (HasClasses, _) => HasClasses
    case (_, WithClass) => HasClasses
    case (Rules(_), NoRule) => list
    case (Rules(rules), Compiled(rule)) => Rules(rules + [rule])
  }

  /** compileIgnoreList stops at the first bad pattern. */
  method CompileIgnoreList(patterns: seq<string>) returns (list: RuleList)
    ensures list == RulesOf(patterns)
  {
    ghost var cs := CompiledAll(patterns);
    list := Rules([]);
    for i := 0 to |patterns|
      invariant list == ListOf(cs[..i]) && !list.Broken?
    {
      assert cs[..i + 1][..i] == cs[..i];
      var compiled := CompileRule(patterns[i]);
      assert compiled == cs[i] && cs[..i + 1][i] == cs[i];
      list := Added(list, compiled);
      if list.Broken? {
        BrokenStays(cs, i + 1);
        return;
      }
    }
    assert cs[..|patterns|] == cs;
  }

  lemma {:induction false} BrokenStays(cs: seq<Compiled>, i: nat)
    requires i <= |cs| && ListOf(cs[..i]).Broken?
    ensures ListOf(cs).Broken?
    decreases |cs| - i
  {
    if i == |cs| {
      assert cs[..i] == cs;
    } else {
      assert cs[..i + 1][..i] == cs[..i];
      BrokenStays(cs, i + 1);
    }
  }

  /** The rules NewIgnoreList works with: a broken list has none. Unknown when there are classes. */
  function Effective(list: RuleList): Option<seq<Rule>> {
    match list
    case Rules(rules) => Some(rules)
    case Broken => Some([])
    case HasClasses => None
  }

  method NewIgnoreList(patterns: seq<string>) returns (rules: Option<seq<Rule>>)
    ensures rules == Effective(RulesOf(patterns))
    ensures (exists i :: 0 <= i < |patterns| && CompiledOf(Parse(patterns[i])).Invalid?) ==> rules == Some([])
  {
    var list := CompileIgnoreList(patterns);
    rules := Effective(list);
    if i :| 0 <= i < |patterns| && CompiledOf(Parse(patterns[i])).Invalid? {
      OneBadPattern(patterns, i);
    }
  }

  /** One bad pattern anywhere, and the whole list never matches. */
  lemma OneBadPattern(patterns: seq<string>, i: nat)
    requires i < |patterns| && CompiledOf(Parse(patterns[i])).Invalid?
    ensures RulesOf(patterns).Broken?
  {
    OneInvalid(CompiledAll(patterns), i);
  }

  lemma OneInvalid(cs: seq<Compiled>, i: nat)
    requires i < |cs| && cs[i].Invalid?
    ensures ListOf(cs).Broken?
  {
    assert cs[..i + 1][..i] == cs[..i];
    BrokenStays(cs, i + 1);
  }

  /** Rule i matches, is not negated, and no later negated rule matches. */
  ghost predicate Decides(rules: seq<Rule>, t: string, i: int) {
    0 <= i < |rules| && Search(rules[i].matcher, t) && !rules[i].negated &&
    forall j :: i < j < |rules| && rules[j].negated ==> !Search(rules[j].matcher, t)
  }

  ghost predicate LastMatchIgnores(rules: seq<Rule>, t: string) {
    exists i :: Decides(rules, t, i)
  }

  /** IgnoreList.IsIgnored; `found` are the answers of MatchString, one for each rule. */
  method IsIgnored(rules: seq<Rule>, filePath: string, found: seq<bool>) returns (ignored: bool)
    requires |found| == |rules|
    requires forall i :: 0 <= i < |rules| ==> found[i] == Search(rules[i].matcher, Paths.Clean(filePath))
    ensures ignored <==>
      var t := Paths.Clean(filePath);
      t != "." && t != ".." && !HasPrefix(t, "../") && LastMatchIgnores(rules, t)
  {
    var normalized := Paths.Clean(filePath);
    if normalized == "." || normalized == ".." || HasPrefix(normalized, "../") { return false; }
    ignored := false;
    for i := 0 to |rules|
      invariant ignored <==> LastMatchIgnores(rules[..i], normalized)
    {
      ghost var before, after := rules[..i], rules[..i + 1];
      assert after == before + [rules[i]];
      if found[i] {
        ignored := !rules[i].negated;
        assert after[i] == rules[i];
      }
      LastMatchStep(before, rules[i], normalized);
    }
    assert rules[..|rules|] == rules;
  }

  lemma LastMatchStep(rules: seq<Rule>, rule: Rule, t: string)
    ensures LastMatchIgnores(rules + [rule], t) <==>
      if Search(rule.matcher, t) then !rule.negated else LastMatchIgnores(rules, t)
  {
    var all, n := rules + [rule], |rules|;
    assert all[n] == rule && forall j :: 0 <= j < n ==> rules[j] == all[j];
    if Search(rule.matcher, t) && !rule.negated {
      assert Decides(all, t, n);
    } else if i :| Decides(rules, t, i) && !Search(rule.matcher, t) {
      assert Decides(all, t, i);
    }
    if i :| Decides(all, t, i) && i < n {
      assert Decides(rules, t, i);
    }
  }

  // ----- the whole list means what its patterns say -----

  /** Gitignore's rule over components: the last pattern that matches decides. */
  ghost predicate PatternsIgnore(patterns: seq<string>, ss: seq<string>) {
    if patterns == [] then false
    else
      var n := |patterns| - 1;
      var p := Parse(patterns[n]);
      if p.Pattern? && PatternMatches(p, ss) then !p.negated else PatternsIgnore(patterns[..n], ss)
  }

  /** One more pattern at the end of the list. */
  lemma PatternStep(rules: seq<Rule>, p: Pattern, ss: seq<string>)
    requires CleanComponents(ss) && (p.Blank? || Supported(p))
    ensures Added(Rules(rules), CompiledOf(p)).Rules?
    ensures LastMatchIgnores(Added(Rules(rules), CompiledOf(p)).rules, Join(ss, '/')) <==>
      if p.Pattern? && PatternMatches(p, ss) then !p.negated else LastMatchIgnores(rules, Join(ss, '/'))
  {
    if !p.Blank? {
      CompiledMeansPattern(p, ss);
      NoBracketNoClass(p.value);
      LastMatchStep(rules, Rule(p.negated, Expression(p)), Join(ss, '/'));
    }
  }

  lemma RulesSnoc(patterns: seq<string>)
    requires patterns != []
    ensures var n := |patterns| - 1;
      RulesOf(patterns) == Added(RulesOf(patterns[..n]), CompiledOf(Parse(patterns[n])))
  {
    var n := |patterns| - 1;
    assert CompiledAll(patterns)[..n] == CompiledAll(patterns[..n]);
  }

  lemma {:induction false} RulesMeanPatterns(patterns: seq<string>, ss: seq<string>)
    requires CleanComponents(ss)
    requires forall i :: 0 <= i < |patterns| ==> Parse(patterns[i]).Blank? || Supported(Parse(patterns[i]))
    ensures RulesOf(patterns).Rules?
    ensures LastMatchIgnores(RulesOf(patterns).rules, Join(ss, '/')) <==> PatternsIgnore(patterns, ss)
  {
    if patterns != [] {
      var n := |patterns| - 1;
      RulesMeanPatterns(patterns[..n], ss);
      RulesSnoc(patterns);
      PatternStep(RulesOf(patterns[..n]).rules, Parse(patterns[n]), ss);
    }
  }

  // ----- what the text of one more pattern line does -----

  /** What NewIgnoreList and IsIgnored answer for clean components. */
  ghost predicate ListIgnores(patterns: seq<string>, ss: seq<string>) {
    var rules := Effective(RulesOf(patterns));
    rules.Some? && LastMatchIgnores(rules.value, Join(ss, '/'))
  }

  /** The path, or a directory above it when `deep`, is matched component by component from the root. */
  ghost predicate MatchesFromRoot(v: string, deep: bool, ss: seq<string>) {
    exists m :: 0 < m <= |ss| && (deep || m == |ss|) && PathMatch(Split(v, '/'), ss[..m])
  }

  /** Some component, the last or one above it, is matched. */
  ghost predicate MatchesComponent(v: string, ss: seq<string>) {
    exists a :: 0 <= a < |ss| && SegmentMatch(v, ss[a])
  }

  lemma RulesAppended(patterns: seq<string>, line: string)
    ensures RulesOf(patterns + [line]) == Added(RulesOf(patterns), CompiledOf(Parse(line)))
  {
    RulesSnoc(patterns + [line]);
    assert (patterns + [line])[..|patterns|] == patterns;
  }

  /** A text that can stand between the markers of a line, in the part of the language with a segment-level meaning. */
  ghost predicate PlainGlob(v: string) {
    v != "" && '\0' !in v && '[' !in v && forall g :: g in Split(v, '/') ==> PlainSegment(g)
  }

  /** A text between its slashes. */
  function Slashed(anchored: bool, v: string, directory: bool): string {
    (if anchored then "/" else "") + v + (if directory then "/" else "")
  }

  /** `!` negates any text; a backslash stands before a `#` or `!`; without either the text must not begin so. */
  predicate MarkFits(mark: string, body: string) {
    || mark == "!"
    || (mark == "\\" && body != "" && (body[0] == '#' || body[0] == '!'))
    || (mark == "" && body != "" && body[0] != '#' && body[0] != '!' && !IsSpace(body[0]) &&
        (|body| == 1 || body[0] != '\\' || (body[1] != '#' && body[1] != '!')))
  }

  /** The mark, the slashes and the text are all read as such. */
  predicate Written(mark: string, anchored: bool, v: string, directory: bool) {
    && v != "" && (anchored || v[0] != '/') && (directory || (v[|v| - 1] != '/' && !IsSpace(v[|v| - 1])))
    && MarkFits(mark, Slashed(anchored, v, directory))
  }

  lemma MarkIsRead(before: string, mark: string, body: string, after: string)
    requires AllSpace(before) && AllSpace(after) && MarkFits(mark, body)
    requires body != "" ==> !IsSpace(body[|body| - 1])
    ensures Parse(before + (mark + body) + after) == ParseBody(mark == "!", body)
  {
    var line := mark + body;
    assert line != "" && line[|line| - 1] == if body == "" then mark[0] else body[|body| - 1];
    assert line[0] == if mark == "" then body[0] else mark[0];
    TrimPadded(before, line, after);
    MarkIsStripped(before + line + after, mark, body);
  }

  lemma MarkIsStripped(original: string, mark: string, body: string)
    requires MarkFits(mark, body) && TrimSpace(original) == mark + body
    ensures Parse(original) == ParseBody(mark == "!", body)
  {
    var line := mark + body;
    if mark == "" {
      assert line == body;
    } else {
      assert line[0] == mark[0] && line[1..] == body;
      if mark == "\\" { assert line[1] == body[0]; }
    }
  }

  lemma SlashesAreRead(negated: bool, anchored: bool, v: string, directory: bool)
    requires v != "" && (anchored || v[0] != '/') && (directory || v[|v| - 1] != '/')
    ensures ParseBody(negated, Slashed(anchored, v, directory)) ==
      if '\0' in v then Unsafe else Pattern(negated, anchored, directory, v)
  {
    var tail := v + (if directory then "/" else "");
    var body := Slashed(anchored, v, directory);
    assert Leading(body, '/') <==> anchored;
    assert (if anchored then body[1..] else body) == tail;
    assert Trailing(tail, '/') <==> directory;
    assert (if directory then tail[..|tail| - 1] else tail) == v;
  }

  /** Every way to write a pattern, and what is read. */
  lemma LineIsRead(before: string, mark: string, anchored: bool, v: string, directory: bool, after: string)
    requires AllSpace(before) && AllSpace(after) && Written(mark, anchored, v, directory)
    ensures Parse(before + (mark + Slashed(anchored, v, directory)) + after) ==
      if '\0' in v then Unsafe else Pattern(mark == "!", anchored, directory, v)
  {
    var body := Slashed(anchored, v, directory);
    assert body[|body| - 1] == if directory then '/' else v[|v| - 1];
    MarkIsRead(before, mark, body, after);
    SlashesAreRead(mark == "!", anchored, v, directory);
  }

  /**
   One more line at the end of a list. A leading `!` re-includes what the rest of
   the line matches, anything else excludes it, and all other paths keep their
   answer. A leading slash or one inside ties the text to the root, and then
   descendants are covered only under a trailing slash or a single component;
   a text without slashes matches at any depth and covers what lies below.
   */
  lemma OneMoreLine(patterns: seq<string>, before: string, mark: string, anchored: bool, v: string, directory: bool,
                    after: string, ss: seq<string>)
    requires RulesOf(patterns).Rules? && CleanComponents(ss)
    requires AllSpace(before) && AllSpace(after) && Written(mark, anchored, v, directory) && PlainGlob(v)
    ensures var line := before + (mark + Slashed(anchored, v, directory)) + after;
      && RulesOf(patterns + [line]).Rules?
      && (ListIgnores(patterns + [line], ss) <==>
            if (if anchored || '/' in v then MatchesFromRoot(v, directory || '/' !in v, ss)
                else MatchesComponent(v, ss))
            then mark != "!"
            else ListIgnores(patterns, ss))
  {
    var line := before + (mark + Slashed(anchored, v, directory)) + after;
    LineIsRead(before, mark, anchored, v, directory, after);
    OneMorePattern(patterns, line, Pattern(mark == "!", anchored, directory, v), ss);
  }

  lemma OneMorePattern(patterns: seq<string>, line: string, p: Pattern, ss: seq<string>)
    requires RulesOf(patterns).Rules? && CleanComponents(ss) && Parse(line) == p && Supported(p)
    ensures RulesOf(patterns + [line]).Rules?
    ensures ListIgnores(patterns + [line], ss) <==>
      if (if p.anchored || '/' in p.value then MatchesFromRoot(p.value, p.directory || '/' !in p.value, ss)
          else MatchesComponent(p.value, ss))
      then !p.negated
      else ListIgnores(patterns, ss)
  {
    RulesAppended(patterns, line);
    PatternStep(RulesOf(patterns).rules, p, ss);
    RootMatches(p.value, p.directory || '/' !in p.value, ss);
  }

  lemma RootMatches(v: string, deep: bool, ss: seq<string>)
    ensures MatchesFromRoot(v, deep, ss) <==> Covers(Split(v, '/'), deep, ss)
  {
    var gs := Split(v, '/');
    if b :| CoversUpTo(gs, deep, ss, b) {
      NothingMatchesNoComponents(gs);
      assert ss[..0] == [];
    }
    if m :| 0 < m <= |ss| && (deep || m == |ss|) && PathMatch(gs, ss[..m]) {
      assert CoversUpTo(gs, deep, ss, m);
    }
  }

  /** White space and comments change nothing. */
  lemma BlankLine(patterns: seq<string>, before: string, text: string, ss: seq<string>)
    requires AllSpace(before) && (text == "" || text[0] == '#')
    ensures RulesOf(patterns + [before + text]) == RulesOf(patterns)
    ensures ListIgnores(patterns + [before + text], ss) == ListIgnores(patterns, ss)
    ensures !ListIgnores([], ss)
  {
    TrimKeepsFirst(before, text);
    RulesAppended(patterns, before + text);
    assert !exists i :: Decides([], Join(ss, '/'), i);
  }

  lemma OpenBracket(v: string, i: nat)
    requires i < |v| && v[i] == '[' && '[' !in v[..i] && ']' !in v[i..]
    ensures BracketsOf(v).Unterminated?
  {
    forall k | 0 <= k < i ensures v[k] != '[' {
      assert v[..i][k] == v[k];
    }
    SkipCharacters(v, i);
    var rest := v[i..];
    assert forall c :: c in rest[1..] ==> c in rest;
  }

  lemma BrokenLine(patterns: seq<string>, line: string)
    requires var p := Parse(line); p.Unsafe? || (p.Pattern? && BracketsOf(p.value).Unterminated?)
    ensures RulesOf(patterns + [line]).Broken?
  {
    RulesAppended(patterns, line);
  }

  /** A NUL, or a bracket that is never closed, breaks the list. */
  lemma BadLine(patterns: seq<string>, mark: string, anchored: bool, v: string, directory: bool, i: nat)
    requires Written(mark, anchored, v, directory)
    requires '\0' in v || (i < |v| && v[i] == '[' && '[' !in v[..i] && ']' !in v[i..])
    ensures RulesOf(patterns + [mark + Slashed(anchored, v, directory)]).Broken?
  {
    LineAlone(mark, anchored, v, directory);
    if '\0' !in v { OpenBracket(v, i); }
    BrokenLine(patterns, mark + Slashed(anchored, v, directory));
  }

  lemma LineAlone(mark: string, anchored: bool, v: string, directory: bool)
    requires Written(mark, anchored, v, directory)
    ensures var p := Parse(mark + Slashed(anchored, v, directory));
      p.Unsafe? || (p.Pattern? && p.value == v && '\0' !in v)
    ensures '\0' in v ==> Parse(mark + Slashed(anchored, v, directory)).Unsafe?
  {
    var line := mark + Slashed(anchored, v, directory);
    assert "" + line + "" == line;
    LineIsRead("", mark, anchored, v, directory, "");
  }

  lemma NothingBetween(negated: bool, anchored: bool, directory: bool)
    ensures ParseBody(negated, Slashed(anchored, "", directory)).Unsafe?
  {
    var body := Slashed(anchored, "", directory);
    if anchored && directory {
      assert body[0] == '/' && body[1..] == "/";
    } else if anchored || directory {
      assert body == "/" && body[1..] == "";
    } else {
      assert body == "";
    }
    assert "/"[..0] == "";
  }

  /** So do markers around nothing. */
  lemma EmptyLine(patterns: seq<string>, mark: string, anchored: bool, directory: bool)
    requires mark == "!" || (mark == "" && (anchored || directory))
    ensures RulesOf(patterns + [mark + Slashed(anchored, "", directory)]).Broken?
  {
    var body := Slashed(anchored, "", directory);
    assert body != "" ==> body[0] == '/' && body[|body| - 1] == '/';
    assert "" + (mark + body) + "" == mark + body;
    MarkIsRead("", mark, body, "");
    NothingBetween(mark == "!", anchored, directory);
    BrokenLine(patterns, mark + body);
  }

  // ----- what the wildcards mean, as text -----

  /** No wildcard in it. */
  predicate Literal(g: string) {
    '*' !in g && '?' !in g
  }

  lemma {:induction false} LiteralFirst(p: string, g: string, s: string)
    requires Literal(p)
    ensures SegmentMatch(p + g, s) <==> HasPrefix(s, p) && SegmentMatch(g, s[|p|..])
  {
    if p == "" {
      assert p + g == g && s[0..] == s && s[..0] == p;
    } else {
      assert p[0] in p && (p + g)[1..] == p[1..] + g && forall c :: c in p[1..] ==> c in p;
      if s != "" {
        LiteralFirst(p[1..], g, s[1..]);
        assert |p| <= |s| ==> s[1..][|p| - 1..] == s[|p|..] && s[..|p|] == [s[0]] + s[1..][..|p| - 1];
        assert p == [p[0]] + p[1..];
      }
    }
  }

  lemma LiteralOnly(q: string, s: string)
    requires Literal(q)
    ensures SegmentMatch(q, s) <==> s == q
  {
    LiteralFirst(q, "", s);
    assert q + "" == q;
    assert HasPrefix(s, q) && s[|q|..] == "" ==> s == q;
  }

  lemma QuestionMeans(p: string, q: string, s: string)
    requires Literal(p) && Literal(q)
    ensures SegmentMatch(p + ("?" + q), s) <==> |s| == |p| + 1 + |q| && HasPrefix(s, p) && HasSuffix(s, q)
  {
    assert ("?" + q)[1..] == q;
    LiteralFirst(p, "?" + q, s);
    if HasPrefix(s, p) && |s| > |p| {
      LiteralOnly(q, s[|p|..][1..]);
      assert s[|p|..][1..] == s[|p| + 1..];
    }
  }

  lemma StarMeans(p: string, q: string, s: string)
    requires Literal(p) && Literal(q)
    ensures SegmentMatch(p + ("*" + q), s) <==> |s| >= |p| + |q| && HasPrefix(s, p) && HasSuffix(s, q)
  {
    assert ("*" + q)[1..] == q;
    LiteralFirst(p, "*" + q, s);
    if HasPrefix(s, p) {
      var t := s[|p|..];
      StarSegment("*" + q, t);
      forall m | 0 <= m <= |t| ensures t[m..] == s[|p| + m..] && (SegmentMatch(q, t[m..]) <==> t[m..] == q) {
        LiteralOnly(q, t[m..]);
      }
      if |s| >= |p| + |q| && HasSuffix(s, q) {
        assert SegmentMatch(q, t[|t| - |q|..]);
      }
    }
  }

  /** `?` stands for exactly one character, `*` for any run of them. */
  lemma WildcardsMean(p: string, q: string, s: string)
    requires Literal(p) && Literal(q)
    ensures SegmentMatch(p + "?" + q, s) <==> |s| == |p| + 1 + |q| && HasPrefix(s, p) && HasSuffix(s, q)
    ensures SegmentMatch(p + "*" + q, s) <==> |s| >= |p| + |q| && HasPrefix(s, p) && HasSuffix(s, q)
  {
    QuestionMeans(p, q, s);
    StarMeans(p, q, s);
    assert p + "?" + q == p + ("?" + q) && p + "*" + q == p + ("*" + q);
  }

  ghost predicate AllLiteral(gs: seq<string>) {
    forall g :: g in gs ==> Literal(g)
  }

  lemma {:induction false} LiteralSegmentsFirst(xs: seq<string>, gs: seq<string>, ss: seq<string>)
    requires AllLiteral(xs)
    ensures PathMatch(xs + gs, ss) <==> xs <= ss && PathMatch(gs, ss[|xs|..])
  {
    if xs == [] {
      assert xs + gs == gs && ss[0..] == ss;
    } else {
      assert xs[0] in xs && '*' !in xs[0] && (xs + gs)[1..] == xs[1..] + gs;
      if ss != [] {
        LiteralOnly(xs[0], ss[0]);
        LiteralSegmentsFirst(xs[1..], gs, ss[1..]);
        assert |xs| <= |ss| ==> ss[1..][|xs| - 1..] == ss[|xs|..];
        assert xs == [xs[0]] + xs[1..] && ss == [ss[0]] + ss[1..];
      }
    }
  }

  lemma LiteralSegmentsOnly(ys: seq<string>, ss: seq<string>)
    requires AllLiteral(ys)
    ensures PathMatch(ys, ss) <==> ss == ys
  {
    LiteralSegmentsFirst(ys, [], ss);
    assert ys + [] == ys;
    assert ys <= ss && ss[|ys|..] == [] ==> ss == ys;
  }

  ghost predicate EndsIn(t: seq<string>, ys: seq<string>) {
    |t| >= |ys| && t[|t| - |ys|..] == ys
  }

  lemma DoubleStarFirst(ys: seq<string>, t: seq<string>)
    requires AllLiteral(ys)
    ensures PathMatch(["**"] + ys, t) <==> EndsIn(t, ys) && t != []
  {
    var gs := ["**"] + ys;
    assert gs[1..] == ys;
    if ys == [] {
      assert gs == ["**"];
    } else {
      DoubleStarPath(gs, t);
      forall m | 0 <= m <= |t| ensures PathMatch(ys, t[m..]) <==> t[m..] == ys {
        LiteralSegmentsOnly(ys, t[m..]);
      }
      if EndsIn(t, ys) {
        assert PathMatch(ys, t[|t| - |ys|..]);
      }
    }
  }

  /** `**` stands for any number of components, at the end for at least one. */
  lemma DoubleStarMeans(xs: seq<string>, ys: seq<string>, ss: seq<string>)
    requires AllLiteral(xs) && AllLiteral(ys)
    ensures PathMatch(xs + (["**"] + ys), ss) <==> xs < ss && EndsIn(ss[|xs|..], ys)
  {
    LiteralSegmentsFirst(xs, ["**"] + ys, ss);
    if xs <= ss {
      DoubleStarFirst(ys, ss[|xs|..]);
    }
  }
}
