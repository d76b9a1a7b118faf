/** The two version comparators, their order laws, and Semantic Versioning 2.0.0, item 11. */
module Versions {
  import opened Wrappers
  import opened Strings
  import opened Strconv

  // ----- three-way comparison -----

  function CompareInt(a: int, b: int): int {
    if a < b then -1 else if a > b then 1 else 0
  }

  function CompareChar(a: char, b: char): int {
    if a < b then -1 else if a > b then 1 else 0
  }

  /** Lexicographic; a proper prefix is smaller. */
  function Lexicographic<T>(cmp: (T, T) -> int, a: seq<T>, b: seq<T>): int {
    if a == [] && b == [] then 0
    else if a == [] then -1
    else if b == [] then 1
    else if cmp(a[0], b[0]) != 0 then cmp(a[0], b[0])
    else Lexicographic(cmp, a[1..], b[1..])
  }

  /** A total preorder given as a three-way comparison. */
  ghost predicate Preorder<T(!new)>(cmp: (T, T) -> int) {
    && (forall a, b :: -1 <= cmp(a, b) <= 1)
    && (forall a, b :: cmp(a, b) == -cmp(b, a))
    && (forall a, b, c :: cmp(a, b) <= 0 && cmp(b, c) <= 0 ==> Chains(cmp, a, b, c))
  }

  ghost predicate Chains<T>(cmp: (T, T) -> int, a: T, b: T, c: T) {
    cmp(a, c) <= 0 && (cmp(a, c) == 0 ==> cmp(a, b) == 0 && cmp(b, c) == 0)
  }

  lemma {:induction false} LexicographicFlips<T(!new)>(cmp: (T, T) -> int, a: seq<T>, b: seq<T>)
    requires Preorder(cmp)
    ensures -1 <= Lexicographic(cmp, a, b) <= 1
    ensures Lexicographic(cmp, a, b) == -Lexicographic(cmp, b, a)
  {
    if a != [] && b != [] {
      LexicographicFlips(cmp, a[1..], b[1..]);
    }
  }

  lemma {:induction false} LexicographicChains<T(!new)>(cmp: (T, T) -> int, a: seq<T>, b: seq<T>, c: seq<T>)
    requires Preorder(cmp) && Lexicographic(cmp, a, b) <= 0 && Lexicographic(cmp, b, c) <= 0
    ensures Lexicographic(cmp, a, c) <= 0
    ensures Lexicographic(cmp, a, c) == 0 ==> Lexicographic(cmp, a, b) == 0 && Lexicographic(cmp, b, c) == 0
  {
    if a != [] && b != [] && c != [] {
      assert Chains(cmp, a[0], b[0], c[0]);
      if cmp(a[0], b[0]) == 0 && cmp(b[0], c[0]) == 0 {
        assert Chains(cmp, c[0], b[0], a[0]);
        LexicographicChains(cmp, a[1..], b[1..], c[1..]);
      }
    }
  }

  lemma LexicographicIsPreorder<T(!new)>(cmp: (T, T) -> int)
    requires Preorder(cmp)
    ensures Preorder((a: seq<T>, b: seq<T>) => Lexicographic(cmp, a, b))
  {
    var lex := (a: seq<T>, b: seq<T>) => Lexicographic(cmp, a, b);
    forall a, b ensures -1 <= lex(a, b) <= 1 && lex(a, b) == -lex(b, a) {
      LexicographicFlips(cmp, a, b);
    }
    forall a, b, c | lex(a, b) <= 0 && lex(b, c) <= 0 ensures Chains(lex, a, b, c) {
      LexicographicChains(cmp, a, b, c);
    }
  }

  // ----- prerelease identifiers -----

  function CompareText(a: string, b: string): int {
    Lexicographic(CompareChar, a, b)
  }

  function CompareIdentifier(left: string, right: string): int {
    match (Atoi(left), Atoi(right))
    case (Some(m), Some(n)) => CompareInt(m, n)
    case (Some(_), None) => -1
    case (None, Some(_)) => 1
    case (None, None) => CompareText(left, right)
  }

  lemma TextIsPreorder()
    ensures Preorder(CompareText)
  {
    LexicographicIsPreorder(CompareChar);
    var lex := (a: string, b: string) => Lexicographic(CompareChar, a, b);
    forall a, b, c | CompareText(a, b) <= 0 && CompareText(b, c) <= 0 ensures Chains(CompareText, a, b, c) {
      assert lex(a, b) <= 0 && lex(b, c) <= 0;
      assert Chains(lex, a, b, c);
    }
    forall a, b ensures -1 <= CompareText(a, b) <= 1 && CompareText(a, b) == -CompareText(b, a) {
      assert lex(a, b) == -lex(b, a);
    }
  }

  lemma IdentifierIsPreorder()
    ensures Preorder(CompareIdentifier)
  {
    TextIsPreorder();
    forall a, b ensures -1 <= CompareIdentifier(a, b) <= 1 && CompareIdentifier(a, b) == -CompareIdentifier(b, a) {
      assert CompareText(a, b) == -CompareText(b, a);
    }
    forall a, b, c | CompareIdentifier(a, b) <= 0 && CompareIdentifier(b, c) <= 0
      ensures Chains(CompareIdentifier, a, b, c)
    {
      if Atoi(a).None? && Atoi(b).None? && Atoi(c).None? {
        assert Chains(CompareText, a, b, c);
      }
    }
  }

  // ----- versions -----

  datatype Version = Version(core: seq<int>, prerelease: seq<string>)

  function ComparePrerelease(a: seq<string>, b: seq<string>): int {
    if a == [] && b == [] then 0
    else if a == [] then 1
    else if b == [] then -1
    else Lexicographic(CompareIdentifier, a, b)
  }

  function Compare(a: Version, b: Version): int {
    var c := Lexicographic(CompareInt, a.core, b.core);
    if c != 0 then c else ComparePrerelease(a.prerelease, b.prerelease)
  }

  lemma CompareFlips(a: Version, b: Version)
    ensures -1 <= Compare(a, b) <= 1 && Compare(a, b) == -Compare(b, a)
  {
    IdentifierIsPreorder();
    LexicographicFlips(CompareInt, a.core, b.core);
    LexicographicFlips(CompareIdentifier, a.prerelease, b.prerelease);
  }

  lemma PrereleaseChains(a: seq<string>, b: seq<string>, c: seq<string>)
    requires ComparePrerelease(a, b) <= 0 && ComparePrerelease(b, c) <= 0
    ensures Chains(ComparePrerelease, a, b, c)
  {
    IdentifierIsPreorder();
    if a != [] && b != [] && c != [] {
      LexicographicChains(CompareIdentifier, a, b, c);
    }
  }

  /** Transitivity, with strictness: a chain is level only if both its links are. */
  lemma CompareChains(a: Version, b: Version, c: Version)
    requires Compare(a, b) <= 0 && Compare(b, c) <= 0
    ensures Chains(Compare, a, b, c)
  {
    LexicographicChains(CompareInt, a.core, b.core, c.core);
    if Lexicographic(CompareInt, a.core, c.core) == 0 {
      PrereleaseChains(a.prerelease, b.prerelease, c.prerelease);
    }
  }

  lemma CompareIsPreorder()
    ensures Preorder(Compare)
  {
    forall a, b ensures -1 <= Compare(a, b) <= 1 && Compare(a, b) == -Compare(b, a) {
      CompareFlips(a, b);
    }
    forall a, b, c | Compare(a, b) <= 0 && Compare(b, c) <= 0 ensures Chains(Compare, a, b, c) {
      CompareChains(a, b, c);
    }
  }

  // ----- parsing -----

  /** strings.SplitN(s, c, 2)[0] */
  function Before(s: string, c: char): string {
    var i := Index(s, c);
    if i == -1 then s else s[..i]
  }

  function CoreText(value: string): string {
    Before(Numbered(value), '-')
  }

  /** strings.TrimPrefix(t, "v") */
  function Unprefixed(t: string): string {
    if t != "" && t[0] == 'v' then t[1..] else t
  }

  /** Trimmed, without a leading "v" and without build metadata. */
  function Numbered(value: string): string {
    Before(Unprefixed(TrimSpace(value)), '+')
  }

  function ParseComponent(s: string): Option<int> {
    if s == "" || (|s| > 1 && s[0] == '0') then None
    else match Atoi(s) case Some(n) => if n < 0 then None else Some(n) case None => None
  }

  function ParseCore(parts: seq<string>): Option<seq<int>> {
    if parts == [] then Some([])
    else
      match (ParseCore(parts[..|parts| - 1]), ParseComponent(parts[|parts| - 1]))
      case (Some(ns), Some(n)) => Some(ns + [n])
      case _ => None
  }

  predicate IdentifierChar(c: char) {
    'A' <= c <= 'Z' || 'a' <= c <= 'z' || '0' <= c <= '9' || c == '_' || c == '.' || c == '-'
  }

  predicate ValidIdentifier(s: string) {
    && s != "" && (forall i :: 0 <= i < |s| ==> IdentifierChar(s[i]))
    && !(Atoi(s).Some? && |s| > 1 && s[0] == '0')
  }

  /** What follows the first '-' of the text; no '-' means no prerelease. */
  function ParsePrerelease(text: string): Option<seq<string>> {
    var i := Index(text, '-');
    if i == -1 then Some([])
    else
      var identifiers := Split(text[i + 1..], '.');
      if exists k :: 0 <= k < |identifiers| && !ValidIdentifier(identifiers[k]) then None else Some(identifiers)
  }

  function Parse(value: string): Option<Version> {
    var parts := Split(CoreText(value), '.');
    if |parts| != 3 then None
    else
      match (ParseCore(parts), ParsePrerelease(Numbered(value)))
      case (Some(core), Some(prerelease)) => Some(Version(core, prerelease))
      case _ => None
  }

  method ParseNumbers(core: seq<string>) returns (r: Option<seq<int>>)
    ensures r == ParseCore(core)
  {
    var numbers: seq<int> := [];
    for index := 0 to |core|
      invariant ParseCore(core[..index]) == Some(numbers)
    {
      assert core[..index + 1][..index] == core[..index];
      var number := ParseComponent(core[index]);
      if number.None? {
        CoreFails(core, index + 1);
        return None;
      }
      numbers := numbers + [number.value];
    }
    assert core[..|core|] == core;
    return Some(numbers);
  }

  method CheckIdentifiers(prerelease: seq<string>) returns (ok: bool)
    ensures ok <==> forall k :: 0 <= k < |prerelease| ==> ValidIdentifier(prerelease[k])
    ensures ok <==> forall s :: s in prerelease ==>
      && s != "" && !(Atoi(s).Some? && |s| > 1 && s[0] == '0')
      && forall c :: c in s ==>
           'a' <= c <= 'z' || 'A' <= c <= 'Z' || '0' <= c <= '9' || c == '_' || c == '.' || c == '-'
  {
    forall k, i | 0 <= k < |prerelease| && 0 <= i < |prerelease[k]| ensures prerelease[k][i] in prerelease[k] {
    }
    for k := 0 to |prerelease|
      invariant forall j :: 0 <= j < k ==> ValidIdentifier(prerelease[j])
    {
      if !ValidIdentifier(prerelease[k]) { return false; }
    }
    return true;
  }

  method ParseVersion(value: string) returns (r: Option<Version>)
    ensures r == Parse(value)
  {
    var text := Numbered(value);
    var core := Split(Before(text, '-'), '.');
    if |core| != 3 { return None; }
    var numbers := ParseNumbers(core);
    if numbers.None? { return None; }
    var i := Index(text, '-');
    if i == -1 { return Some(Version(numbers.value, [])); }
    var prerelease := Split(text[i + 1..], '.');
    if text[i + 1..] == "" {
      assert prerelease[0] == "" && !ValidIdentifier(prerelease[0]);
      return None;
    }
    var ok := CheckIdentifiers(prerelease);
    if !ok { return None; }
    return Some(Version(numbers.value, prerelease));
  }

  lemma {:induction false} CoreFails(parts: seq<string>, n: nat)
    requires n <= |parts| && ParseCore(parts[..n]).None?
    ensures ParseCore(parts).None?
    decreases |parts| - n
  {
    if n == |parts| {
      assert parts[..n] == parts;
    } else {
      assert parts[..n + 1][..n] == parts[..n];
      CoreFails(parts, n + 1);
    }
  }

  /** compareVersions: an error when either side does not parse. */
  function CompareVersions(left: string, right: string): Option<int> {
    match (Parse(left), Parse(right))
    case (Some(a), Some(b)) => Some(Compare(a, b))
    case _ => None
  }

  // ----- what parses -----

  /** What a parsed version is: three numbers in range, and identifiers that could have been split apart. */
  ghost predicate Proper(v: Version) {
    && |v.core| == 3 && (forall k :: 0 <= k < 3 ==> 0 <= v.core[k] <= MAX_INT)
    && (forall s :: s in v.prerelease ==> ValidIdentifier(s) && '.' !in s)
  }

  predicate Natural(ns: seq<int>) {
    forall k :: 0 <= k < |ns| ==> ns[k] >= 0
  }

  function Numerals(ns: seq<int>): seq<string>
    requires Natural(ns)
  {
    seq(|ns|, i requires 0 <= i < |ns| => Itoa(ns[i]))
  }

  /** The version in writing: dotted numerals, then the identifiers after a dash. */
  function Show(v: Version): string
    requires Natural(v.core)
  {
    Join(Numerals(v.core), '.') + if v.prerelease == [] then "" else "-" + Join(v.prerelease, '.')
  }

  /** An optional "v", the version, and optional build metadata. */
  ghost predicate Spells(text: string, v: Version)
    requires Natural(v.core)
  {
    exists lead, meta :: Framed(text, lead, Show(v), meta)
  }

  predicate Framed(text: string, lead: string, shown: string, meta: string) {
    (lead == "" || lead == "v") && (meta == "" || meta[0] == '+') && text == lead + shown + meta
  }

  predicate Unsigned(s: string) {
    '+' !in s && '-' !in s
  }

  lemma ComponentIff(s: string, n: int)
    requires Unsigned(s)
    ensures ParseComponent(s) == Some(n) <==> 0 <= n <= MAX_INT && s == Itoa(n)
  {
    if s != "" { assert s[0] in s; }
    if 0 <= n <= MAX_INT && s == Itoa(n) {
      NumberOfItoa(n);
    }
    if ParseComponent(s) == Some(n) {
      ItoaOfNumber(s);
    }
  }

  /** The numbers whose numerals these are. */
  ghost predicate Spelled(parts: seq<string>, ns: seq<int>) {
    |parts| == |ns| && forall k :: 0 <= k < |ns| ==> 0 <= ns[k] <= MAX_INT && parts[k] == Itoa(ns[k])
  }

  lemma SpelledSnoc(parts: seq<string>, s: string, ns: seq<int>, n: int)
    ensures Spelled(parts + [s], ns + [n]) <==> Spelled(parts, ns) && 0 <= n <= MAX_INT && s == Itoa(n)
  {
    var all, numbers := parts + [s], ns + [n];
    if Spelled(all, numbers) {
      assert all[|ns|] == s && numbers[|ns|] == n;
      forall k | 0 <= k < |ns| ensures 0 <= ns[k] <= MAX_INT && parts[k] == Itoa(ns[k]) {
        assert all[k] == parts[k] && numbers[k] == ns[k];
      }
    }
  }

  lemma CoreSnoc(parts: seq<string>, s: string, ns: seq<int>, n: int)
    ensures ParseCore(parts + [s]) == Some(ns + [n]) <==> ParseCore(parts) == Some(ns) && ParseComponent(s) == Some(n)
    ensures ParseCore(parts + [s]) != Some([])
  {
    assert (parts + [s])[..|parts|] == parts;
    if ParseCore(parts).Some? && ParseComponent(s).Some? {
      var ms, m := ParseCore(parts).value, ParseComponent(s).value;
      assert ParseCore(parts + [s]) == Some(ms + [m]);
      if ms + [m] == ns + [n] {
        assert |ms| == |ns| && ms == (ms + [m])[..|ms|] == ns && m == (ms + [m])[|ms|] == n;
      }
    }
  }

  lemma {:induction false} CoreIff(parts: seq<string>, ns: seq<int>)
    requires forall s :: s in parts ==> Unsigned(s)
    ensures ParseCore(parts) == Some(ns) <==> Spelled(parts, ns)
  {
    if parts != [] && ns != [] {
      var n, m := |parts| - 1, |ns| - 1;
      assert parts == parts[..n] + [parts[n]] && ns == ns[..m] + [ns[m]];
      CoreIff(parts[..n], ns[..m]);
      ComponentIff(parts[n], ns[m]);
      CoreSnoc(parts[..n], parts[n], ns[..m], ns[m]);
      SpelledSnoc(parts[..n], parts[n], ns[..m], ns[m]);
    } else if parts != [] {
      assert parts == parts[..|parts| - 1] + [parts[|parts| - 1]];
      CoreSnoc(parts[..|parts| - 1], parts[|parts| - 1], [], 0);
    }
  }

  lemma {:induction false} JoinLacks(parts: seq<string>, sep: char, c: char)
    requires c != sep && forall s :: s in parts ==> c !in s
    ensures c !in Join(parts, sep)
  {
    if |parts| > 1 {
      JoinLacks(parts[1..], sep, c);
    }
  }

  lemma {:induction false} JoinHas(parts: seq<string>, sep: char, c: char)
    requires c !in Join(parts, sep)
    ensures forall s :: s in parts ==> c !in s
  {
    if |parts| > 1 {
      JoinHas(parts[1..], sep, c);
      forall s | s in parts ensures c !in s {
        assert s == parts[0] || s in parts[1..];
      }
    }
  }

  lemma BeforeIs(front: string, c: char, back: string)
    requires c !in front && (back == "" || back[0] == c)
    ensures Before(front + back, c) == front
  {
    if back == "" {
      assert front + back == front;
    } else {
      IndexIs(front + back, c, |front|);
    }
  }

  lemma DigitsAreUnsigned(s: string)
    requires AllDigits(s)
    ensures Unsigned(s) && '.' !in s
  {
  }

  lemma NumeralsJoin(ns: seq<int>)
    requires ns != [] && Natural(ns)
    ensures var text := Join(Numerals(ns), '.');
      Unsigned(text) && text != "" && text[0] != 'v' && Split(text, '.') == Numerals(ns)
  {
    var parts := Numerals(ns);
    forall s | s in parts ensures Unsigned(s) && '.' !in s {
      DigitsAreUnsigned(s);
    }
    JoinLacks(parts, '.', '+');
    JoinLacks(parts, '.', '-');
    SplitJoin(parts, '.');
    assert parts[0] != "" && IsDigit(parts[0][0]);
    assert Join(parts, '.')[0] == parts[0][0];
  }

  lemma IdentifiersJoin(ids: seq<string>)
    requires ids != [] && forall s :: s in ids ==> ValidIdentifier(s) && '.' !in s
    ensures Split(Join(ids, '.'), '.') == ids && '+' !in Join(ids, '.')
  {
    SplitJoin(ids, '.');
    forall s | s in ids ensures '+' !in s {
    }
    JoinLacks(ids, '.', '+');
  }

  lemma UnprefixedIs(lead: string, rest: string)
    requires (lead == "" || lead == "v") && rest != "" && rest[0] != 'v'
    ensures Unprefixed(lead + rest) == rest
  {
    if lead == "" { assert lead + rest == rest; }
  }

  lemma UnprefixedParts(t: string)
    ensures t == Unprefixed(t) || t == "v" + Unprefixed(t)
  {
  }

  lemma BeforeParts(s: string, c: char) returns (back: string)
    ensures s == Before(s, c) + back && (back == "" || back[0] == c) && c !in Before(s, c)
  {
    var i := Index(s, c);
    back := if i == -1 then "" else s[i..];
    if i == -1 { assert s + "" == s; }
  }

  lemma NumberedIs(value: string, lead: string, text: string, meta: string)
    requires TrimSpace(value) == lead + text + meta && (lead == "" || lead == "v") && (meta == "" || meta[0] == '+')
    requires text != "" && text[0] != 'v' && '+' !in text
    ensures Numbered(value) == text
  {
    assert lead + text + meta == lead + (text + meta) && (text + meta)[0] == text[0];
    UnprefixedIs(lead, text + meta);
    BeforeIs(text, '+', meta);
  }

  lemma NumberedParts(value: string) returns (lead: string, meta: string)
    ensures TrimSpace(value) == lead + Numbered(value) + meta
    ensures (lead == "" || lead == "v") && (meta == "" || meta[0] == '+') && '+' !in Numbered(value)
  {
    var t := TrimSpace(value);
    var rest := Unprefixed(t);
    UnprefixedParts(t);
    lead := if t == rest then "" else "v";
    meta := BeforeParts(rest, '+');
    assert lead == "" ==> t == lead + rest;
    Append3(lead, Numbered(value), meta);
  }

  lemma Append3(a: string, b: string, c: string)
    ensures a + (b + c) == a + b + c
  {
  }

  /** A text without "v" and metadata that reads as the version. */
  ghost predicate Reads(text: string, v: Version) {
    var parts := Split(Before(text, '-'), '.');
    |parts| == 3 && ParseCore(parts) == Some(v.core) && ParsePrerelease(text) == Some(v.prerelease)
  }

  lemma ParseReads(value: string, v: Version)
    ensures Parse(value) == Some(v) <==> Reads(Numbered(value), v)
  {
  }

  /** A version in writing parses back to itself. */
  lemma ParseShown(value: string, v: Version)
    requires Proper(v) && Spells(TrimSpace(value), v)
    ensures Parse(value) == Some(v)
  {
    var lead, meta :| Framed(TrimSpace(value), lead, Show(v), meta);
    ShownParts(v);
    NumberedIs(value, lead, Show(v), meta);
    CoreIff(Numerals(v.core), v.core);
    ParseReads(value, v);
  }

  /** How a version in writing is taken apart. */
  lemma ShownParts(v: Version)
    requires Proper(v)
    ensures var text := Show(v);
      && '+' !in text && text != "" && text[0] != 'v'
      && Split(Before(text, '-'), '.') == Numerals(v.core)
      && (forall s :: s in Numerals(v.core) ==> Unsigned(s))
      && ParsePrerelease(text) == Some(v.prerelease)
  {
    var core := Join(Numerals(v.core), '.');
    NumeralsJoin(v.core);
    JoinHas(Numerals(v.core), '.', '+');
    JoinHas(Numerals(v.core), '.', '-');
    if v.prerelease == [] {
      BeforeIs(core, '-', "");
      assert core + "" == core;
    } else {
      PrereleaseShown(core, v.prerelease);
    }
  }

  lemma PrereleaseShown(core: string, ids: seq<string>)
    requires '-' !in core && ids != [] && forall s :: s in ids ==> ValidIdentifier(s) && '.' !in s
    ensures var text := core + ("-" + Join(ids, '.'));
      Before(text, '-') == core && ParsePrerelease(text) == Some(ids) && ('+' !in core ==> '+' !in text)
  {
    var rest := "-" + Join(ids, '.');
    IdentifiersJoin(ids);
    BeforeIs(core, '-', rest);
    IndexIs(core + rest, '-', |core|);
    assert (core + rest)[|core| + 1..] == Join(ids, '.');
    forall k | 0 <= k < |ids| ensures ValidIdentifier(ids[k]) {
      assert ids[k] in ids;
    }
  }

  /** Whatever parses is a proper version in writing. */
  lemma ShowParsed(value: string, v: Version)
    requires Parse(value) == Some(v)
    ensures Proper(v) && Spells(TrimSpace(value), v)
  {
    ParseReads(value, v);
    var lead, meta := NumberedParts(value);
    TextIsShown(Numbered(value), v);
    assert Framed(TrimSpace(value), lead, Show(v), meta);
  }

  lemma CoreIsShown(core: string, ns: seq<int>)
    requires Unsigned(core) && ParseCore(Split(core, '.')) == Some(ns)
    ensures Spelled(Split(core, '.'), ns) && core == Join(Numerals(ns), '.')
  {
    var parts := Split(core, '.');
    JoinSplit(core, '.');
    JoinHas(parts, '.', '+');
    JoinHas(parts, '.', '-');
    CoreIff(parts, ns);
    assert parts == Numerals(ns);
  }

  lemma IdentifiersAreShown(text: string, i: nat, ids: seq<string>)
    requires i < |text| && Index(text, '-') == i && ParsePrerelease(text) == Some(ids)
    ensures ids != [] && text[i + 1..] == Join(ids, '.') && forall s :: s in ids ==> ValidIdentifier(s) && '.' !in s
  {
    JoinSplit(text[i + 1..], '.');
    SplitParts(text[i + 1..], '.');
    forall s | s in ids ensures ValidIdentifier(s) {
      var k :| 0 <= k < |ids| && ids[k] == s;
    }
  }

  lemma TextIsShown(text: string, v: Version)
    requires '+' !in text && Reads(text, v)
    ensures Proper(v) && text == Show(v)
  {
    var core := Before(text, '-');
    assert Unsigned(core);
    CoreIsShown(core, v.core);
    var i := Index(text, '-');
    if i == -1 {
      assert text == core + "";
    } else {
      IdentifiersAreShown(text, i, v.prerelease);
      SplitAtDash(text, i);
    }
  }

  lemma SplitAtDash(text: string, i: nat)
    requires i < |text| && text[i] == '-'
    ensures text == text[..i] + ("-" + text[i + 1..])
  {
  }

  /** parseVersion accepts exactly the proper versions in writing, and reads what is written. */
  lemma ParseIff(value: string, v: Version)
    ensures Parse(value) == Some(v) <==> Proper(v) && Spells(TrimSpace(value), v)
  {
    if Parse(value) == Some(v) { ShowParsed(value, v); }
    if Proper(v) && Spells(TrimSpace(value), v) { ParseShown(value, v); }
  }

  // ----- the release comparator and its own parser -----

  /** Its component test: the number first, the spelling afterwards. */
  function ReleaseComponent(part: string): Option<int> {
    match Atoi(part)
    case None => None
    case Some(n) => if n < 0 || part == "" || (|part| > 1 && part[0] == '0') then None else Some(n)
  }

  function ReleaseNumbers(parts: seq<string>): Option<seq<int>> {
    if parts == [] then Some([])
    else
      match ReleaseComponent(parts[0])
      case None => None
      case Some(n) => Prepend([n], ReleaseNumbers(parts[1..]))
  }

  function ParseRelease(value: string): Option<seq<int>> {
    var parts := Split(Before(Before(Unprefixed(TrimSpace(value)), '+'), '-'), '.');
    if |parts| != 3 then None else ReleaseNumbers(parts)
  }

  /** The parse closure of compareReleaseVersions. */
  method ParseReleaseVersion(value: string) returns (r: Option<seq<int>>)
    ensures r == ParseRelease(value)
  {
    var text := TrimSpace(value);
    if text != "" && text[0] == 'v' { text := text[1..]; }
    text := Before(text, '+');
    text := Before(text, '-');
    var parts := Split(text, '.');
    if |parts| != 3 { return None; }
    var result: seq<int> := [];
    PrependMore([], 0, ReleaseNumbers(parts));
    for index := 0 to |parts|
      invariant ReleaseNumbers(parts) == Prepend(result, ReleaseNumbers(parts[index..]))
    {
      var number := Atoi(parts[index]);
      if number.None? || number.value < 0 || parts[index] == "" || (|parts[index]| > 1 && parts[index][0] == '0') {
        return None;
      }
      assert parts[index..][1..] == parts[index + 1..];
      PrependMore(result, number.value, ReleaseNumbers(parts[index + 1..]));
      result := result + [number.value];
    }
    assert result + [] == result;
    return Some(result);
  }

  function Prepend(front: seq<int>, rest: Option<seq<int>>): Option<seq<int>> {
    match rest case None => None case Some(ns) => Some(front + ns)
  }

  lemma PrependMore(front: seq<int>, n: int, rest: Option<seq<int>>)
    ensures Prepend(front + [n], rest) == Prepend(front, Prepend([n], rest))
    ensures Prepend([], rest) == rest
  {
    if rest.Some? {
      assert (front + [n]) + rest.value == front + ([n] + rest.value);
      assert [] + rest.value == rest.value;
    }
  }

  /** The two parsers read the same numbers. */
  lemma {:induction false} SameNumbers(front: seq<string>, ns: seq<int>, parts: seq<string>)
    requires ParseCore(front) == Some(ns)
    ensures ParseCore(front + parts) == Prepend(ns, ReleaseNumbers(parts))
    decreases |parts|
  {
    if parts == [] {
      assert front + parts == front && ns + [] == ns;
    } else {
      var next := front + [parts[0]];
      assert next[..|front|] == front && next + parts[1..] == front + parts;
      assert ParseComponent(parts[0]) == ReleaseComponent(parts[0]);
      if ReleaseComponent(parts[0]).None? {
        assert (next + parts[1..])[..|next|] == next;
        CoreFails(next + parts[1..], |next|);
      } else {
        var n := ReleaseComponent(parts[0]).value;
        SameNumbers(next, ns + [n], parts[1..]);
        PrependMore(ns, n, ReleaseNumbers(parts[1..]));
      }
    }
  }

  /** compareReleaseVersions: the numbers only. */
  function CompareReleases(left: string, right: string): Option<int> {
    match (ParseRelease(left), ParseRelease(right))
    case (Some(a), Some(b)) => Some(Lexicographic(CompareInt, a, b))
    case _ => None
  }

  lemma ReleaseOfVersion(value: string)
    requires Parse(value).Some?
    ensures ParseRelease(value) == Some(Parse(value).value.core)
  {
    var parts := Split(CoreText(value), '.');
    SameNumbers([], [], parts);
    PrependMore([], 0, ReleaseNumbers(parts));
    assert [] + parts == parts;
  }

  /** On versions parseVersion accepts, the release comparator never contradicts the full one. */
  lemma ReleasesAgree(left: string, right: string)
    requires CompareVersions(left, right).Some?
    ensures CompareReleases(left, right).Some?
    ensures CompareReleases(left, right).value != 0 ==> CompareVersions(left, right) == CompareReleases(left, right)
    ensures CompareVersions(left, right) == Some(0) ==> CompareReleases(left, right) == Some(0)
  {
    ReleaseOfVersion(left);
    ReleaseOfVersion(right);
  }

  /** The release parser accepts three numerals in range, whatever stands behind the first plus or dash after them. */
  lemma ReleaseIff(value: string, core: seq<int>)
    ensures ParseRelease(value) == Some(core) <==>
      && |core| == 3 && (forall k :: 0 <= k < 3 ==> 0 <= core[k] <= 0x7FFF_FFFF_FFFF_FFFF)
      && Before(Before(Unprefixed(TrimSpace(value)), '+'), '-') == Join(Numerals(core), '.')
  {
    var text := Before(Before(Unprefixed(TrimSpace(value)), '+'), '-');
    assert Unsigned(text);
    SpelledInText(text, core);
  }

  lemma SpelledInText(text: string, core: seq<int>)
    requires Unsigned(text)
    ensures var parts := Split(text, '.');
      |parts| == 3 && ReleaseNumbers(parts) == Some(core) <==>
        && |core| == 3 && (forall k :: 0 <= k < 3 ==> 0 <= core[k] <= 0x7FFF_FFFF_FFFF_FFFF)
        && text == Join(Numerals(core), '.')
  {
    var parts := Split(text, '.');
    JoinSplit(text, '.');
    JoinHas(parts, '.', '+');
    JoinHas(parts, '.', '-');
    SameNumbers([], [], parts);
    PrependMore([], 0, ReleaseNumbers(parts));
    assert [] + parts == parts;
    CoreIff(parts, core);
    if Spelled(parts, core) {
      assert parts == Numerals(core);
    }
    if |core| == 3 && Natural(core) { NumeralsJoin(core); }
  }

  /** compareVersions on texts: an error unless both are versions, and otherwise the order of what they spell. */
  lemma ComparedAsWritten(left: string, right: string, a: Version, b: Version)
    requires Proper(a) && Spells(TrimSpace(left), a)
    ensures Proper(b) && Spells(TrimSpace(right), b) ==> CompareVersions(left, right) == Some(Compare(a, b))
    ensures (forall v :: Proper(v) ==> !Spells(TrimSpace(right), v)) ==>
      CompareVersions(left, right) == None && CompareVersions(right, left) == None
  {
    ParseIff(left, a);
    ParseIff(right, b);
    if Parse(right).Some? {
      ParseIff(right, Parse(right).value);
    }
  }

  /** The release comparator orders the numbers alone. */
  lemma ReleasesAsWritten(left: string, right: string, a: seq<int>, b: seq<int>)
    requires ParseRelease(left) == Some(a)
    ensures ParseRelease(right) == Some(b) ==>
      CompareReleases(left, right) == Some(Compare(Version(a, []), Version(b, [])))
    ensures ParseRelease(right) == None ==> CompareReleases(left, right) == None && CompareReleases(right, left) == None
  {
  }

  // ----- Semantic Versioning 2.0.0, item 11 -----

  /** Only digits: compared numerically and below any other identifier; others in ASCII order. */
  function SemVerIdentifier(left: string, right: string): int {
    if AllDigits(left) && AllDigits(right) then CompareInt(Number(left), Number(right))
    else if AllDigits(left) then -1
    else if AllDigits(right) then 1
    else CompareText(left, right)
  }

  function SemVer(a: Version, b: Version): int {
    var c := Lexicographic(CompareInt, a.core, b.core);
    if c != 0 then c
    else if a.prerelease == [] && b.prerelease == [] then 0
    else if a.prerelease == [] then 1
    else if b.prerelease == [] then -1
    else Lexicographic(SemVerIdentifier, a.prerelease, b.prerelease)
  }

  /** Neither a number too large for int nor a signed number. */
  predicate Ordinary(s: string) {
    s != "" && (Atoi(s).Some? <==> AllDigits(s))
  }

  lemma AtoiOfDigits(s: string)
    requires AllDigits(s) && Atoi(s).Some?
    ensures Atoi(s).value == Number(s)
  {
    assert s != "" ==> IsDigit(s[0]);
  }

  lemma OrdinaryAgree(l: string, r: string)
    requires Ordinary(l) && Ordinary(r)
    ensures CompareIdentifier(l, r) == SemVerIdentifier(l, r)
  {
    if AllDigits(l) { AtoiOfDigits(l); }
    if AllDigits(r) { AtoiOfDigits(r); }
  }

  lemma {:induction false} OrdinaryListsAgree(a: seq<string>, b: seq<string>)
    requires forall s :: s in a || s in b ==> Ordinary(s)
    ensures Lexicographic(CompareIdentifier, a, b) == Lexicographic(SemVerIdentifier, a, b)
  {
    if a != [] && b != [] {
      assert a[0] in a && b[0] in b && forall s :: s in a[1..] || s in b[1..] ==> s in a || s in b;
      OrdinaryAgree(a[0], b[0]);
      OrdinaryListsAgree(a[1..], b[1..]);
    }
  }

  /** The comparator follows item 11 when every prerelease identifier is ordinary. */
  lemma FollowsSemVer(a: Version, b: Version)
    requires forall s :: s in a.prerelease || s in b.prerelease ==> Ordinary(s)
    ensures Compare(a, b) == SemVer(a, b)
  {
    OrdinaryListsAgree(a.prerelease, b.prerelease);
  }

  /** And exactly then: any other identifier is misplaced against "0" or against "-". */
  lemma OrdinaryIff(s: string)
    requires ValidIdentifier(s)
    ensures Ordinary(s) <==>
      forall r :: ValidIdentifier(r) && Ordinary(r) ==> CompareIdentifier(s, r) == SemVerIdentifier(s, r)
  {
    if Ordinary(s) {
      forall r | ValidIdentifier(r) && Ordinary(r) ensures CompareIdentifier(s, r) == SemVerIdentifier(s, r) {
        OrdinaryAgree(s, r);
      }
    } else {
      ZeroAndDash();
      if AllDigits(s) {
        assert IsDigit(s[0]);
        assert CompareIdentifier(s, "-") == CompareText(s, "-") == 1;
      } else {
        assert IdentifierChar(s[0]) && s[0] == '-' && Atoi(s).value <= 0;
        assert CompareIdentifier(s, "0") <= 0 && SemVerIdentifier(s, "0") == 1;
      }
    }
  }

  lemma ZeroAndDash()
    ensures Atoi("0") == Some(0) && ValidIdentifier("0") && Ordinary("0")
    ensures Atoi("-") == None && ValidIdentifier("-") && Ordinary("-")
  {
    assert "0"[..0] == "" && Number("0") == 0;
    assert "-"[1..] == "";
    assert !IsDigit("-"[0]);
  }

  /** A signed identifier is misplaced: item 11 puts "0" below "-1", the comparator does not. */
  lemma SignedExample()
    ensures ValidIdentifier("-1") && !Ordinary("-1")
    ensures CompareIdentifier("-1", "0") == -1 && SemVerIdentifier("-1", "0") == 1
  {
    ZeroAndDash();
    assert "-1"[1..] == "1" && "1"[..0] == "" && Number("1") == 1;
    assert !IsDigit("-1"[0]);
  }

  /** So is a number beyond the range of int: item 11 puts it below "-". */
  lemma OutOfRangeExample()
    ensures var s := Itoa(MAX_INT + 1);
      && ValidIdentifier(s) && !Ordinary(s)
      && CompareIdentifier(s, "-") == 1 && SemVerIdentifier(s, "-") == -1
  {
    var s := Itoa(MAX_INT + 1);
    NumberOfItoa(MAX_INT + 1);
    ZeroAndDash();
    assert IsDigit(s[0]) && !IsDigit("-"[0]);
    assert CompareText(s, "-") == 1;
  }

  // ----- which version is later -----

  lemma {:induction false} CommonFirst<T(!new)>(cmp: (T, T) -> int, p: seq<T>, a: seq<T>, b: seq<T>)
    requires Preorder(cmp)
    ensures Lexicographic(cmp, p + a, p + b) == Lexicographic(cmp, a, b)
  {
    if p == [] {
      assert p + a == a && p + b == b;
    } else {
      assert (p + a)[1..] == p[1..] + a && (p + b)[1..] == p[1..] + b;
      assert cmp(p[0], p[0]) == -cmp(p[0], p[0]);
      CommonFirst(cmp, p[1..], a, b);
    }
  }

  lemma FirstDifference<T(!new)>(cmp: (T, T) -> int, p: seq<T>, x: T, a: seq<T>, y: T, b: seq<T>)
    requires Preorder(cmp) && cmp(x, y) != 0
    ensures Lexicographic(cmp, p + ([x] + a), p + ([y] + b)) == cmp(x, y)
  {
    CommonFirst(cmp, p, [x] + a, [y] + b);
  }

  lemma LongerIsLarger<T(!new)>(cmp: (T, T) -> int, p: seq<T>, more: seq<T>)
    requires Preorder(cmp) && more != []
    ensures Lexicographic(cmp, p, p + more) == -1
  {
    CommonFirst(cmp, p, [], more);
    assert p + [] == p;
  }

  /** The first number that differs decides, whatever follows. */
  lemma SmallerCoreIsEarlier(p: seq<int>, m: int, ms: seq<int>, n: int, ns: seq<int>, a: seq<string>, b: seq<string>)
    requires m < n
    ensures Compare(Version(p + ([m] + ms), a), Version(p + ([n] + ns), b)) == -1
  {
    FirstDifference(CompareInt, p, m, ms, n, ns);
  }

  /** A release comes after its prereleases, and a longer list of identifiers after a shorter one that begins it. */
  lemma MoreIdentifiersAreLater(core: seq<int>, ids: seq<string>, more: seq<string>)
    requires ids != [] && more != []
    ensures Compare(Version(core, ids), Version(core, [])) == -1
    ensures Compare(Version(core, ids), Version(core, ids + more)) == -1
  {
    CommonFirst(CompareInt, core, [], []);
    assert core + [] == core;
    IdentifierIsPreorder();
    LongerIsLarger(CompareIdentifier, ids, more);
  }

  /** The first identifier that differs decides. */
  lemma SmallerIdentifierIsEarlier(core: seq<int>, p: seq<string>, x: string, a: seq<string>, y: string, b: seq<string>)
    requires CompareIdentifier(x, y) == -1
    ensures Compare(Version(core, p + ([x] + a)), Version(core, p + ([y] + b))) == -1
  {
    CommonFirst(CompareInt, core, [], []);
    assert core + [] == core;
    IdentifierIsPreorder();
    FirstDifference(CompareIdentifier, p, x, a, y, b);
  }

  /** Numerals by value, numerals before words, words by the first character that differs and then by length. */
  lemma IdentifierOrder(m: nat, n: nat, p: string, c: char, s: string, d: char, t: string)
    requires m < n <= 0x7FFF_FFFF_FFFF_FFFF && c < d
    ensures CompareIdentifier(Itoa(m), Itoa(n)) == -1
    ensures Atoi(p).None? ==> CompareIdentifier(Itoa(m), p) == -1
    ensures Atoi(p + ([c] + s)).None? && Atoi(p + ([d] + t)).None? ==>
      CompareIdentifier(p + ([c] + s), p + ([d] + t)) == -1
    ensures Atoi(p).None? && Atoi(p + ([c] + s)).None? ==> CompareIdentifier(p, p + ([c] + s)) == -1
  {
    AtoiOfNumeral(m);
    AtoiOfNumeral(n);
    FirstDifference(CompareChar, p, c, s, d, t);
    LongerIsLarger(CompareChar, p, [c] + s);
  }
}
