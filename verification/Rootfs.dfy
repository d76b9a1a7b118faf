/** Which names the rooted filesystem accepts on Linux, and where they lead. */
module Rootfs {
  import opened Wrappers
  import opened Strings
  import opened Paths

  predicate SafeText(s: string) {
    '\0' !in s && '\\' !in s
  }

  /** rootfs.hasDrivePrefix */
  predicate DrivePrefix(name: string) {
    |name| >= 2 && name[1] == ':' && ('a' <= name[0] <= 'z' || 'A' <= name[0] <= 'Z')
  }

  /** What validateRelativePath refuses of any name: a colon in second place. */
  predicate SecondColon(name: string) {
    |name| >= 2 && name[1] == ':'
  }

  /** rootfs.Clean; the root itself is "". */
  function CleanName(name: string): Option<string> {
    if !SafeText(name) || HasPrefix(name, "/") || DrivePrefix(name) || ".." in Split(name, '/') then None
    else if Clean(name) == "." then Some("")
    else Some(Clean(name))
  }

  /** validateRelativePath */
  predicate ValidRelative(name: string) {
    && name != "" && SafeText(name) && !HasPrefix(name, "/") && !SecondColon(name)
    && var clean := Clean(name);
       && clean != "." && clean != ".." && !HasPrefix(clean, "../") && !HasPrefix(clean, "/")
       && (forall c :: c in Split(clean, '/') ==> c != ".." && c != "")
       && (clean == name || clean == TrimSuffix(name, "/"))
  }

  /** The components that name something. */
  function Named(parts: seq<string>): seq<string> {
    if parts == [] then []
    else (if parts[0] == "" || parts[0] == "." then [] else [parts[0]]) + Named(parts[1..])
  }

  /** Where a name leads below the root. */
  function PathOf(name: string): seq<string> {
    Named(Split(name, '/'))
  }

  /** The names a rooted operation does not refuse out of hand. */
  predicate Admitted(name: string) {
    && SafeText(name) && !HasPrefix(name, "/") && !DrivePrefix(name) && ".." !in Split(name, '/')
    && !SecondColon(Join(PathOf(name), '/'))
  }

  lemma {:induction false} NamedOfPlain(parts: seq<string>)
    requires AllPlain(parts)
    ensures Named(parts) == parts
  {
    if parts != [] {
      assert Plain(parts[0]) && forall c :: c in parts[1..] ==> c in parts;
      NamedOfPlain(parts[1..]);
    }
  }

  lemma {:induction false} NamedAreKept(parts: seq<string>)
    ensures forall c :: c in Named(parts) <==> c in parts && c != "" && c != "."
  {
    if parts != [] {
      NamedAreKept(parts[1..]);
      assert forall c :: c in parts <==> c == parts[0] || c in parts[1..];
    }
  }

  lemma {:induction false} CleanPartsNamed(parts: seq<string>, out: seq<string>)
    requires ".." !in parts
    ensures CleanParts(parts, false, out) == out + Named(parts)
  {
    if parts == [] {
      assert out + Named(parts) == out;
    } else {
      var c, rest := parts[0], Named(parts[1..]);
      CleanPartsNamed(parts[1..], CleanPart(c, false, out));
      if c != "" && c != "." {
        assert out + [c] + rest == out + ([c] + rest);
      } else {
        assert [] + rest == rest;
      }
    }
  }

  /** Without ".." cleaning only drops what names nothing. */
  lemma CleanIsNamed(name: string)
    requires !HasPrefix(name, "/") && ".." !in Split(name, '/')
    ensures AllPlain(PathOf(name))
    ensures Clean(name) == if PathOf(name) == [] then "." else Join(PathOf(name), '/')
  {
    CleanPartsNamed(Split(name, '/'), []);
    assert [] + PathOf(name) == PathOf(name);
    NamedAreKept(Split(name, '/'));
    SplitParts(name, '/');
  }

  lemma {:induction false} JoinChars(parts: seq<string>, c: char)
    requires c != '/' && c in Join(parts, '/')
    ensures exists p :: p in parts && c in p
  {
    if |parts| == 1 {
      assert parts[0] in parts;
    } else if |parts| > 1 {
      if c in parts[0] {
        assert parts[0] in parts;
      } else {
        JoinChars(parts[1..], c);
        var p :| p in parts[1..] && c in p;
        assert p in parts;
      }
    }
  }

  lemma {:induction false} PartChars(name: string, p: string, c: char)
    requires p in Split(name, '/') && c in p
    ensures c in name
  {
    if name != "" {
      var rest := Split(name[1..], '/');
      if p in rest {
        PartChars(name[1..], p, c);
      } else if name[0] != '/' {
        assert Split(name, '/') == [[name[0]] + rest[0]] + rest[1..];
        assert forall q :: q in rest[1..] ==> q in rest;
        assert p == [name[0]] + rest[0];
        if c != name[0] {
          assert rest[0] in rest;
          PartChars(name[1..], rest[0], c);
        }
      }
    }
  }

  lemma SafePath(name: string)
    requires SafeText(name)
    ensures SafeText(Join(PathOf(name), '/'))
  {
    NamedAreKept(Split(name, '/'));
    forall c | c in Join(PathOf(name), '/') && c != '/' ensures c in name {
      JoinChars(PathOf(name), c);
      var p :| p in PathOf(name) && c in p;
      PartChars(name, p, c);
    }
  }

  /** Of a clean name validateRelativePath only refuses the colon. */
  lemma ValidOfPlain(parts: seq<string>)
    requires parts != [] && AllPlain(parts) && SafeText(Join(parts, '/'))
    ensures ValidRelative(Join(parts, '/')) <==> !SecondColon(Join(parts, '/'))
  {
    CleanOfPlain(parts);
    FirstIsPlain(parts);
    PlainHasNoSlash(parts);
    SplitJoin(parts, '/');
  }

  /** Clean, then validateRelativePath: what is admitted, and what is passed on. */
  lemma CleanThenValid(name: string)
    ensures var c := CleanName(name);
      Admitted(name) <==> c.Some? && (c.value == "" || ValidRelative(c.value))
    ensures Admitted(name) ==>
      if PathOf(name) == [] then CleanName(name) == Some("")
      else CleanName(name) == Some(Join(PathOf(name), '/')) && Split(Join(PathOf(name), '/'), '/') == PathOf(name) &&
           Join(PathOf(name), '/') != ""
  {
    if CleanName(name).Some? {
      CleanIsNamed(name);
      SafePath(name);
      if PathOf(name) != [] {
        ValidOfPlain(PathOf(name));
        FirstIsPlain(PathOf(name));
        PlainHasNoSlash(PathOf(name));
        SplitJoin(PathOf(name), '/');
      }
    }
  }

  /** Which names are refused, character by character. */
  lemma AdmittedSpelt(name: string)
    ensures '\\' in name || '\0' in name || (name != "" && name[0] == '/') || ".." in Split(name, '/') ==>
      !Admitted(name)
    ensures |name| >= 2 && name[1] == ':' && ('a' <= name[0] <= 'z' || 'A' <= name[0] <= 'Z') ==> !Admitted(name)
    ensures Admitted(name) || '\\' in name || '\0' in name || (name != "" && name[0] == '/') || ".." in Split(name, '/')
      || (|name| >= 2 && name[1] == ':' && ('a' <= name[0] <= 'z' || 'A' <= name[0] <= 'Z'))
      || (|Join(PathOf(name), '/')| >= 2 && Join(PathOf(name), '/')[1] == ':')
  {
    assert HasPrefix(name, "/") <==> name != "" && name[0] == '/';
  }

  /** A joined list of plain components leads where it says. */
  lemma AdmittedPlain(parts: seq<string>)
    requires parts != [] && AllPlain(parts) && SafeText(Join(parts, '/'))
    ensures PathOf(Join(parts, '/')) == parts
    ensures Admitted(Join(parts, '/')) <==> !SecondColon(Join(parts, '/'))
  {
    FirstIsPlain(parts);
    PlainHasNoSlash(parts);
    SplitJoin(parts, '/');
    NamedOfPlain(parts);
    assert ".." !in parts;
  }
}
