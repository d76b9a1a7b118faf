/**
 The MAC input of a signed request and the replay cache for its nonce.
 A string here is a byte string; nothing depends on the range of its characters.
 */
module Hmac {
  import opened Wrappers
  import opened Strings
  import opened Strconv

  // ----- the canonical string -----

  datatype Request = Request(verb: string, uri: string, timestamp: string, nonce: string, body: string)

  const DOMAIN := "forge-beacon-v1\n"

  function Field(f: string): string {
    Itoa(|f|) + ":" + f
  }

  function Fields(fs: seq<string>): string {
    if fs == [] then "" else Field(fs[0]) + Fields(fs[1..])
  }

  function FieldsOf(r: Request): seq<string> {
    [r.verb, r.uri, r.timestamp, r.nonce, r.body]
  }

  function Canonical(r: Request): string {
    DOMAIN + Fields(FieldsOf(r))
  }

  method CanonicalString(verb: string, uri: string, timestamp: string, body: string, nonce: string)
    returns (out: string)
    ensures out == Canonical(Request(verb, uri, timestamp, nonce, body))
  {
    var fields := [verb, uri, timestamp, nonce];
    out := DOMAIN;
    for i := 0 to |fields|
      invariant out == DOMAIN + Fields(fields[..i])
    {
      FieldsSnoc(fields[..i], fields[i]);
      assert fields[..i + 1] == fields[..i] + [fields[i]];
      out := AppendField(out, fields[i]);
    }
    assert fields[..|fields|] == fields;
    FieldsSnoc(fields, body);
    assert fields + [body] == FieldsOf(Request(verb, uri, timestamp, nonce, body));
    out := AppendField(out, body);
  }

  method AppendField(buffer: string, field: string) returns (out: string)
    ensures out == buffer + Field(field)
  {
    out := buffer + Itoa(|field|);
    out := out + ":";
    out := out + field;
  }

  lemma {:induction false} FieldsSnoc(fs: seq<string>, f: string)
    ensures Fields(fs + [f]) == Fields(fs) + Field(f)
  {
    if fs == [] {
      assert fs + [f] == [f] && [f][1..] == [];
    } else {
      FieldsSnoc(fs[1..], f);
      assert (fs + [f])[1..] == fs[1..] + [f];
      assert Field(fs[0]) + (Fields(fs[1..]) + Field(f)) == Fields(fs) + Field(f);
    }
  }

  // ----- a decoder for it -----

  /** The first field and what follows; leading zeros and short input are rejected. */
  function DecodeField(s: string): Option<(string, string)> {
    var i := Index(s, ':');
    if i <= 0 || !AllDigits(s[..i]) || (i > 1 && s[0] == '0') then None
    else
      var n := Number(s[..i]);
      if i + 1 + n > |s| then None else Some((s[i + 1..i + 1 + n], s[i + 1 + n..]))
  }

  /** k pieces and nothing after them, each cut off the front by `decode`. */
  function DecodeAll(decode: string -> Option<(string, string)>, s: string, k: nat): Option<seq<string>>
    decreases k
  {
    if k == 0 then if s == "" then Some([]) else None
    else
      var first := decode(s);
      if first.None? then None else Prepended(first.value.0, DecodeAll(decode, first.value.1, k - 1))
  }

  function Prepended(f: string, fs: Option<seq<string>>): Option<seq<string>> {
    match fs case None => None case Some(fs) => Some([f] + fs)
  }

  function DecodeFields(s: string, k: nat): Option<seq<string>> {
    DecodeAll(DecodeField, s, k)
  }

  function RequestOf(fs: seq<string>): Request
    requires |fs| == 5
  {
    Request(fs[0], fs[1], fs[2], fs[3], fs[4])
  }

  function Requested(fs: Option<seq<string>>): Option<Request> {
    if fs.Some? && |fs.value| == 5 then Some(RequestOf(fs.value)) else None
  }

  function Decode(s: string): Option<Request> {
    if HasPrefix(s, DOMAIN) then Requested(DecodeFields(s[|DOMAIN|..], 5)) else None
  }

  lemma CanonicalIsSpelt(r: Request)
    ensures Canonical(r) == "forge-beacon-v1\n" +
      (Itoa(|r.verb|) + ":" + r.verb + (Itoa(|r.uri|) + ":" + r.uri + (Itoa(|r.timestamp|) + ":" + r.timestamp +
        (Itoa(|r.nonce|) + ":" + r.nonce + (Itoa(|r.body|) + ":" + r.body)))))
  {
    var v, u, t, n, b := r.verb, r.uri, r.timestamp, r.nonce, r.body;
    FieldsCons(v, [u, t, n, b]);
    FieldsCons(u, [t, n, b]);
    FieldsCons(t, [n, b]);
    FieldsCons(n, [b]);
    FieldsCons(b, []);
    assert [v] + [u, t, n, b] == FieldsOf(r);
    assert [u] + [t, n, b] == [u, t, n, b] && [t] + [n, b] == [t, n, b] && [n] + [b] == [n, b] && [b] + [] == [b];
    assert Field(b) + "" == Field(b);
  }

  lemma DecodeOfField(f: string, rest: string)
    ensures var d := DecodeField(Field(f) + rest); d.Some? && d.value.0 == f && d.value.1 == rest
  {
    var s, d := Field(f) + rest, Itoa(|f|);
    assert s == d + ":" + f + rest;
    assert s[..|d|] == d && s[|d|] == ':';
    assert forall k :: 0 <= k < |d| ==> IsDigit(d[k]) && d[k] != ':';
    IndexIs(s, ':', |d|);
    NumberOfItoa(|f|);
    assert s[|d| + 1..|d| + 1 + |f|] == f && s[|d| + 1 + |f|..] == rest;
  }

  lemma FieldOfDecode(s: string)
    requires DecodeField(s).Some?
    ensures Field(DecodeField(s).value.0) + DecodeField(s).value.1 == s
  {
    var i := Index(s, ':');
    var d, n := s[..i], Number(s[..i]);
    var f, rest := s[i + 1..i + 1 + n], s[i + 1 + n..];
    assert DecodeField(s) == Some((f, rest)) && |f| == n;
    ItoaOfNumber(d);
    assert Field(f) == d + ":" + f;
    assert s == d + [s[i]] + f + rest;
  }

  /** Cuts a field off exactly what begins with one. */
  ghost predicate CutsFields(decode: string -> Option<(string, string)>) {
    && (forall f, rest :: Cuts(decode, Field(f) + rest, f, rest))
    && (forall s :: decode(s).Some? ==> Field(decode(s).value.0) + decode(s).value.1 == s)
  }

  predicate Cuts(decode: string -> Option<(string, string)>, s: string, f: string, rest: string) {
    decode(s).Some? && decode(s).value.0 == f && decode(s).value.1 == rest
  }

  lemma {:induction false} DecodeOfFields(decode: string -> Option<(string, string)>, fs: seq<string>)
    requires CutsFields(decode)
    ensures DecodeAll(decode, Fields(fs), |fs|) == Some(fs)
  {
    if fs != [] {
      assert Cuts(decode, Field(fs[0]) + Fields(fs[1..]), fs[0], Fields(fs[1..]));
      DecodeOfFields(decode, fs[1..]);
      assert [fs[0]] + fs[1..] == fs;
    }
  }

  lemma {:induction false} FieldsOfDecode(decode: string -> Option<(string, string)>, s: string, k: nat)
    requires CutsFields(decode) && DecodeAll(decode, s, k).Some?
    ensures |DecodeAll(decode, s, k).value| == k && Fields(DecodeAll(decode, s, k).value) == s
    decreases k
  {
    if k > 0 {
      var rest := decode(s).value.1;
      FieldsOfDecode(decode, rest, k - 1);
      FieldsCons(decode(s).value.0, DecodeAll(decode, rest, k - 1).value);
    }
  }

  lemma FieldDecoderCuts()
    ensures CutsFields(DecodeField)
  {
    forall f, rest ensures Cuts(DecodeField, Field(f) + rest, f, rest) {
      DecodeOfField(f, rest);
    }
    forall s | DecodeField(s).Some? ensures Field(DecodeField(s).value.0) + DecodeField(s).value.1 == s {
      FieldOfDecode(s);
    }
  }

  lemma FieldsCons(f: string, fs: seq<string>)
    ensures Fields([f] + fs) == Field(f) + Fields(fs)
  {
    assert ([f] + fs)[1..] == fs;
  }

  lemma DecodeFieldsIff(s: string, k: nat, fs: seq<string>)
    requires |fs| == k
    ensures DecodeFields(s, k) == Some(fs) <==> s == Fields(fs)
  {
    FieldDecoderCuts();
    DecodeOfFields(DecodeField, fs);
    if DecodeFields(s, k).Some? {
      FieldsOfDecode(DecodeField, s, k);
    }
  }

  lemma RequestedIff(fs: Option<seq<string>>, r: Request)
    ensures Requested(fs) == Some(r) <==> fs == Some(FieldsOf(r))
  {
    if Requested(fs) == Some(r) {
      assert fs.value == FieldsOf(r);
    }
  }

  /** Unique decodability: the decoder accepts exactly the canonical strings and returns the request. */
  lemma DecodeIff(s: string, r: Request)
    ensures Decode(s) == Some(r) <==> s == Canonical(r)
  {
    if HasPrefix(s, DOMAIN) {
      DecodeFieldsIff(s[|DOMAIN|..], 5, FieldsOf(r));
      RequestedIff(DecodeFields(s[|DOMAIN|..], 5), r);
      PrefixAndRest(s, DOMAIN, Fields(FieldsOf(r)));
    } else {
      assert Canonical(r)[..|DOMAIN|] == DOMAIN;
    }
  }

  lemma PrefixAndRest(s: string, p: string, t: string)
    requires HasPrefix(s, p)
    ensures s == p + t <==> s[|p|..] == t
  {
    assert s == p + s[|p|..];
    assert (p + t)[|p|..] == t;
  }

  /** Distinct requests never share a MAC input. */
  lemma CanonicalIsInjective(r: Request, q: Request)
    requires Canonical(r) == Canonical(q)
    ensures r == q
  {
    DecodeIff(Canonical(r), r);
    DecodeIff(Canonical(r), q);
  }
}
