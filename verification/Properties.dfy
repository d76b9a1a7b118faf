/** applyPropertiesPatch: rewriting key=value lines in place and appending the missing keys. */
module Properties {
  import opened Strings
  import opened Enumeration

  // ----- how a properties file reads -----

  predicate IsComment(line: string) {
    var t := TrimSpace(line);
    t == "" || t[0] == '#' || t[0] == '!'
  }

  /** The separator: the first '=', or else the first ':'. */
  function Separator(line: string): (i: int)
    ensures -1 <= i < |line|
  {
    var e := Index(line, '=');
    if e != -1 then e else Index(line, ':')
  }

  function KeyOf(line: string): string {
    var i := Separator(line);
    TrimSpace(if i != -1 then line[..i] else line)
  }

  function ValueOf(line: string): string {
    var i := Separator(line);
    if i != -1 then line[i + 1..] else ""
  }

  /** The file as a map; a later line for the same key wins. */
  function Reading(lines: seq<string>): map<string, string> {
    if lines == [] then map[]
    else
      var n := |lines| - 1;
      var before := Reading(lines[..n]);
      if IsComment(lines[n]) then before else before[KeyOf(lines[n]) := ValueOf(lines[n])]
  }

  function LinesOf(content: string): seq<string> {
    if content == "" then [] else Split(content, '\n')
  }

  /** The keys that a line of a properties file can have. */
  predicate GoodKey(k: string) {
    '=' !in k && '\n' !in k && Trimmed(k) && (k == "" || (k[0] != '#' && k[0] != '!'))
  }

  predicate Replaces(line: string, replacements: map<string, string>) {
    !IsComment(line) && KeyOf(line) in replacements
  }

  function Rewritten(line: string, replacements: map<string, string>): string {
    if Replaces(line, replacements) then KeyOf(line) + "=" + replacements[KeyOf(line)] else line
  }

  lemma KeysAreGood(line: string)
    requires '\n' !in line && !IsComment(line)
    ensures GoodKey(KeyOf(line))
  {
    var e := Index(line, '=');
    var part := if Separator(line) != -1 then line[..Separator(line)] else line;
    var i, j := TrimSpaceIs(line);
    var m, n := TrimSpaceIs(part);
    var k := KeyOf(line);
    assert k == part[m..n] && forall c :: c in k ==> c in part;
    assert forall c :: c in part ==> c in line;
    if k != "" {
      assert part[m] == line[m] && k[0] == line[m];
      assert i == m;
    }
  }

  lemma AssignmentReads(k: string, v: string)
    requires GoodKey(k)
    ensures !IsComment(k + "=" + v) && KeyOf(k + "=" + v) == k && ValueOf(k + "=" + v) == v
  {
    var line := k + "=" + v;
    assert line[|k|] == '=' && line[..|k|] == k && line[|k| + 1..] == v;
    IndexIs(line, '=', |k|);
    TrimOfTrimmed(k);
    var i, j := TrimSpaceIs(line);
    assert !IsSpace(line[0]);
    assert i == 0 && j > 0;
    assert TrimSpace(line)[0] == line[0];
  }

  // ----- the rewritten file -----

  function RewrittenAll(lines: seq<string>, replacements: map<string, string>): seq<string> {
    seq(|lines|, i requires 0 <= i < |lines| => Rewritten(lines[i], replacements))
  }

  function Assignments(order: seq<string>, replacements: map<string, string>): seq<string>
    requires forall k :: k in order ==> k in replacements
  {
    seq(|order|, i requires 0 <= i < |order| => order[i] + "=" + replacements[order[i]])
  }

  /** The keys some line already assigns. */
  ghost function Assigned(lines: seq<string>, replacements: map<string, string>): set<string> {
    set i | 0 <= i < |lines| && Replaces(lines[i], replacements) :: KeyOf(lines[i])
  }

  function Terminated(out: seq<string>): string {
    var content := Join(out, '\n');
    if HasSuffix(content, "\n") then content else content + "\n"
  }

  /** A result of applyPropertiesPatch, for one order of the missing keys. */
  ghost predicate IsPatched(content: string, replacements: map<string, string>, order: seq<string>, r: string) {
    var lines := LinesOf(content);
    && Enumerates(order, replacements.Keys - Assigned(lines, replacements))
    && r == Terminated(RewrittenAll(lines, replacements) + Assignments(order, replacements))
  }

  /** The first loop: rewrite in place, remembering the keys found. */
  method RewriteLines(lines: seq<string>, replacements: map<string, string>)
    returns (out: seq<string>, replaced: set<string>)
    ensures out == RewrittenAll(lines, replacements) && replaced == Assigned(lines, replacements)
  {
    replaced, out := {}, [];
    for i := 0 to |lines|
      invariant out == RewrittenAll(lines[..i], replacements)
      invariant replaced == Assigned(lines[..i], replacements)
    {
      var line := lines[i];
      assert lines[..i + 1] == lines[..i] + [line];
      AssignedSnoc(lines[..i], line, replacements);
      var trimmed := TrimSpace(line);
      if trimmed == "" || trimmed[0] == '#' || trimmed[0] == '!' {
        out := out + [line];
        continue;
      }
      var sepIdx := Index(line, '=');
      if sepIdx == -1 { sepIdx := Index(line, ':'); }
      var key := TrimSpace(if sepIdx != -1 then line[..sepIdx] else line);
      if key in replacements {
        out := out + [key + "=" + replacements[key]];
        replaced := replaced + {key};
      } else {
        out := out + [line];
      }
    }
    assert lines[..|lines|] == lines;
  }

  /** The second loop: append the keys not found, in whatever order Go iterates. */
  method AppendMissing(head: seq<string>, replacements: map<string, string>, replaced: set<string>)
    returns (out: seq<string>)
    ensures exists order :: Appended(head, replacements, replaced, order, out)
  {
    out := head;
    ghost var order: seq<string> := [];
    var todo := replacements.Keys;
    while todo != {}
      invariant todo <= replacements.Keys
      invariant Enumerates(order, replacements.Keys - replaced - todo)
      invariant out == head + Assignments(order, replacements)
    {
      var k :| k in todo;
      if k !in replaced {
        AssignmentsSnoc(order, k, replacements);
        assert head + Assignments(order, replacements) + [k + "=" + replacements[k]]
            == head + (Assignments(order, replacements) + [k + "=" + replacements[k]]);
        out := out + [k + "=" + replacements[k]];
        order := order + [k];
      }
      todo := todo - {k};
    }
    assert replacements.Keys - replaced - todo == replacements.Keys - replaced;
    assert Appended(head, replacements, replaced, order, out);
  }

  /** The missing keys follow, each once, in some order. */
  ghost predicate Appended(head: seq<string>, replacements: map<string, string>, replaced: set<string>,
                           order: seq<string>, out: seq<string>)
  {
    Enumerates(order, replacements.Keys - replaced) && out == head + Assignments(order, replacements)
  }

  lemma AssignmentsSnoc(order: seq<string>, k: string, replacements: map<string, string>)
    requires (forall x :: x in order ==> x in replacements) && k in replacements
    ensures (forall x :: x in order + [k] ==> x in replacements)
    ensures Assignments(order + [k], replacements) == Assignments(order, replacements) + [k + "=" + replacements[k]]
  {
  }

  /** The file written is the patched one for some order of the missing keys. */
  method ApplyPropertiesPatch(content: string, replacements: map<string, string>) returns (r: string)
    ensures exists order :: IsPatched(content, replacements, order, r)
  {
    var lines := LinesOf(content);
    var out, replaced := RewriteLines(lines, replacements);
    ghost var head := out;
    out := AppendMissing(out, replacements, replaced);
    r := Join(out, '\n');
    if !HasSuffix(r, "\n") { r := r + "\n"; }
    ghost var order :| Appended(head, replacements, replaced, order, out);
    assert IsPatched(content, replacements, order, r);
  }

  lemma AssignedSnoc(lines: seq<string>, line: string, replacements: map<string, string>)
    ensures Assigned(lines + [line], replacements) ==
      Assigned(lines, replacements) + if Replaces(line, replacements) then {KeyOf(line)} else {}
  {
    var all := lines + [line];
    assert all[|lines|] == line && forall i :: 0 <= i < |lines| ==> all[i] == lines[i];
    forall k ensures k in Assigned(all, replacements) <==>
      k in Assigned(lines, replacements) || (Replaces(line, replacements) && k == KeyOf(line))
    {
      if k in Assigned(all, replacements) {
        var i :| 0 <= i < |all| && Replaces(all[i], replacements) && KeyOf(all[i]) == k;
        assert i < |lines| ==> Replaces(lines[i], replacements);
      }
      if i :| 0 <= i < |lines| && Replaces(lines[i], replacements) && KeyOf(lines[i]) == k {
        assert Replaces(all[i], replacements) && KeyOf(all[i]) == k;
      }
      if Replaces(line, replacements) && k == KeyOf(line) {
        assert Replaces(all[|lines|], replacements);
      }
    }
  }

  // ----- the lines of the result -----

  ghost predicate NewlineFree(lines: seq<string>) {
    forall l :: l in lines ==> '\n' !in l
  }

  /** Reading the written file back gives the lines written, and at most blank lines at the end. */
  lemma LinesOfTerminated(out: seq<string>)
    requires NewlineFree(out)
    ensures LinesOf(Terminated(out)) == out || LinesOf(Terminated(out)) == out + [""] ||
      (out == [] && LinesOf(Terminated(out)) == ["", ""])
    ensures Terminated(LinesOf(Terminated(out))) == Terminated(out)
  {
    var content := Join(out, '\n');
    if out == [] {
      assert Terminated(out) == "" + "\n";
      SplitTrailing("", '\n');
      assert Split("", '\n') == [""];
      JoinSplit("\n", '\n');
    } else if HasSuffix(content, "\n") {
      SplitJoin(out, '\n');
    } else {
      SplitJoin(out, '\n');
      SplitTrailing(content, '\n');
      JoinSplit(content + "\n", '\n');
    }
  }

  // ----- readings -----

  lemma ReadingSnoc(lines: seq<string>, line: string)
    ensures Reading(lines + [line]) ==
      if IsComment(line) then Reading(lines) else Reading(lines)[KeyOf(line) := ValueOf(line)]
  {
    assert (lines + [line])[..|lines|] == lines;
  }

  ghost predicate GoodReplacements(replacements: map<string, string>) {
    forall k :: k in replacements ==> GoodKey(k)
  }

  /** Overriding only the keys already present. */
  function Overridden(reading: map<string, string>, replacements: map<string, string>): map<string, string> {
    map k | k in reading :: if k in replacements then replacements[k] else reading[k]
  }

  lemma OverriddenStep(reading: map<string, string>, k: string, v: string, replacements: map<string, string>)
    ensures Overridden(reading[k := v], replacements) ==
      Overridden(reading, replacements)[k := if k in replacements then replacements[k] else v]
  {
  }

  /** Rewriting changes at most the value of a line. */
  lemma RewrittenReads(line: string, replacements: map<string, string>)
    requires '\n' !in line
    ensures var after := Rewritten(line, replacements);
      var value := if Replaces(line, replacements) then replacements[KeyOf(line)] else ValueOf(line);
      && IsComment(after) == IsComment(line)
      && (!IsComment(line) ==> KeyOf(after) == KeyOf(line) && ValueOf(after) == value)
  {
    if Replaces(line, replacements) {
      KeysAreGood(line);
      AssignmentReads(KeyOf(line), replacements[KeyOf(line)]);
    }
  }

  lemma RewrittenSnoc(lines: seq<string>, line: string, replacements: map<string, string>)
    ensures RewrittenAll(lines + [line], replacements) ==
      RewrittenAll(lines, replacements) + [Rewritten(line, replacements)]
  {
  }

  lemma {:induction false} ReadingOfRewritten(lines: seq<string>, replacements: map<string, string>)
    requires NewlineFree(lines)
    ensures Reading(RewrittenAll(lines, replacements)) == Overridden(Reading(lines), replacements)
  {
    if lines != [] {
      var n := |lines| - 1;
      var front, line := lines[..n], lines[n];
      assert lines == front + [line] && line in lines && forall l :: l in front ==> l in lines;
      ReadingOfRewritten(front, replacements);
      RewrittenSnoc(front, line, replacements);
      RewrittenReads(line, replacements);
      ReadingSnoc(front, line);
      ReadingSnoc(RewrittenAll(front, replacements), Rewritten(line, replacements));
      OverriddenStep(Reading(front), KeyOf(line), ValueOf(line), replacements);
    }
  }

  lemma {:induction false} AssignedIsRead(lines: seq<string>, replacements: map<string, string>)
    ensures Assigned(lines, replacements) == Reading(lines).Keys * replacements.Keys
  {
    if lines != [] {
      var n := |lines| - 1;
      var front, line := lines[..n], lines[n];
      assert lines == front + [line];
      AssignedIsRead(front, replacements);
      AssignedSnoc(front, line, replacements);
      ReadingSnoc(front, line);
    }
  }

  function Picked(order: seq<string>, replacements: map<string, string>): map<string, string>
    requires forall k :: k in order ==> k in replacements
  {
    map k | k in order :: replacements[k]
  }

  lemma PickedSnoc(order: seq<string>, k: string, replacements: map<string, string>)
    requires (forall x :: x in order ==> x in replacements) && k in replacements
    ensures (forall x :: x in order + [k] ==> x in replacements)
    ensures Picked(order + [k], replacements) == Picked(order, replacements)[k := replacements[k]]
  {
  }

  lemma {:induction false} ReadingOfAppended(head: seq<string>, order: seq<string>, replacements: map<string, string>)
    requires forall k :: k in order ==> k in replacements && GoodKey(k)
    ensures Reading(head + Assignments(order, replacements)) == Reading(head) + Picked(order, replacements)
    decreases |order|
  {
    if order == [] {
      assert head + Assignments(order, replacements) == head;
    } else {
      var n := |order| - 1;
      var front, k := order[..n], order[n];
      assert order == front + [k] && k in order && forall x :: x in front ==> x in order;
      ReadingOfAppended(head, front, replacements);
      AssignmentsSnoc(front, k, replacements);
      PickedSnoc(front, k, replacements);
      var line := k + "=" + replacements[k];
      assert head + Assignments(order, replacements) == (head + Assignments(front, replacements)) + [line];
      ReadingSnoc(head + Assignments(front, replacements), line);
      AssignmentReads(k, replacements[k]);
      UpdateOfSum(Reading(head), Picked(front, replacements), k, replacements[k]);
    }
  }

  lemma UpdateOfSum(m: map<string, string>, n: map<string, string>, k: string, v: string)
    ensures (m + n)[k := v] == m + n[k := v]
  {
  }

  lemma BlankLinesReadNothing(lines: seq<string>)
    ensures Reading(lines + [""]) == Reading(lines)
    ensures lines == [] ==> Reading(["", ""]) == Reading(lines)
  {
    ReadingSnoc(lines, "");
    ReadingSnoc([""], "");
    ReadingSnoc([], "");
    assert [] + [""] == [""] && [""] + [""] == ["", ""];
  }

  // ----- what applyPropertiesPatch promises -----

  ghost predicate NewlineFreeValues(replacements: map<string, string>) {
    forall k :: k in replacements ==> '\n' !in replacements[k]
  }

  lemma LinesAreNewlineFree(content: string)
    ensures NewlineFree(LinesOf(content))
  {
    if content != "" { SplitParts(content, '\n'); }
  }

  lemma OutputIsNewlineFree(lines: seq<string>, replacements: map<string, string>, order: seq<string>)
    requires NewlineFree(lines) && NewlineFreeValues(replacements)
    requires forall k :: k in order ==> k in replacements && '\n' !in k
    ensures NewlineFree(RewrittenAll(lines, replacements) + Assignments(order, replacements))
  {
    forall i | 0 <= i < |lines| ensures '\n' !in Rewritten(lines[i], replacements) {
      assert lines[i] in lines;
      if Replaces(lines[i], replacements) { KeysAreGood(lines[i]); }
    }
    forall i | 0 <= i < |order| ensures '\n' !in Assignments(order, replacements)[i] {
      assert order[i] in order;
    }
  }

  lemma OverriddenAndPicked(reading: map<string, string>, replacements: map<string, string>, order: seq<string>)
    requires Enumerates(order, replacements.Keys - reading.Keys * replacements.Keys)
    ensures Overridden(reading, replacements) + Picked(order, replacements) == reading + replacements
  {
    var sum := Overridden(reading, replacements) + Picked(order, replacements);
    forall k ensures k in sum <==> k in reading + replacements {
      assert k in order <==> k in replacements && k !in reading;
    }
  }

  /** The lines applyPropertiesPatch writes, before the final newline. */
  function Output(content: string, replacements: map<string, string>, order: seq<string>): seq<string>
    requires forall k :: k in order ==> k in replacements
  {
    RewrittenAll(LinesOf(content), replacements) + Assignments(order, replacements)
  }

  lemma OutputReads(content: string, replacements: map<string, string>, order: seq<string>)
    requires GoodReplacements(replacements)
    requires Enumerates(order, replacements.Keys - Assigned(LinesOf(content), replacements))
    ensures Reading(Output(content, replacements, order)) == Reading(LinesOf(content)) + replacements
  {
    var lines := LinesOf(content);
    LinesAreNewlineFree(content);
    ReadingOfAppended(RewrittenAll(lines, replacements), order, replacements);
    ReadingOfRewritten(lines, replacements);
    AssignedIsRead(lines, replacements);
    OverriddenAndPicked(Reading(lines), replacements, order);
  }

  /** The file reads as before, overridden by the replacements, whatever the iteration order. */
  lemma PatchedReading(content: string, replacements: map<string, string>, order: seq<string>, r: string)
    requires GoodReplacements(replacements) && NewlineFreeValues(replacements)
    requires IsPatched(content, replacements, order, r)
    ensures Reading(LinesOf(r)) == Reading(LinesOf(content)) + replacements
  {
    var out := Output(content, replacements, order);
    LinesAreNewlineFree(content);
    OutputIsNewlineFree(LinesOf(content), replacements, order);
    LinesOfTerminated(out);
    BlankLinesReadNothing(out);
    OutputReads(content, replacements, order);
  }

  /** Lines for other keys, comments and blank lines stay where they are. */
  lemma OtherLinesStay(content: string, replacements: map<string, string>, order: seq<string>, r: string)
    requires GoodReplacements(replacements) && NewlineFreeValues(replacements)
    requires IsPatched(content, replacements, order, r)
    ensures |LinesOf(content)| <= |LinesOf(r)|
    ensures forall i :: 0 <= i < |LinesOf(content)| && !Replaces(LinesOf(content)[i], replacements) ==>
      LinesOf(r)[i] == LinesOf(content)[i]
  {
    var lines := LinesOf(content);
    LinesAreNewlineFree(content);
    OutputIsNewlineFree(lines, replacements, order);
    LinesOfTerminated(RewrittenAll(lines, replacements) + Assignments(order, replacements));
  }

  lemma RewrittenTwice(line: string, replacements: map<string, string>)
    requires '\n' !in line
    ensures Rewritten(Rewritten(line, replacements), replacements) == Rewritten(line, replacements)
  {
    RewrittenReads(line, replacements);
  }

  lemma AssignmentIsFixed(k: string, replacements: map<string, string>)
    requires k in replacements && GoodKey(k)
    ensures Rewritten(k + "=" + replacements[k], replacements) == k + "=" + replacements[k]
  {
    AssignmentReads(k, replacements[k]);
  }

  lemma OutputIsFixed(content: string, replacements: map<string, string>, order: seq<string>)
    requires GoodReplacements(replacements) && forall k :: k in order ==> k in replacements
    ensures RewrittenAll(Output(content, replacements, order), replacements) == Output(content, replacements, order)
  {
    var lines, out := LinesOf(content), Output(content, replacements, order);
    LinesAreNewlineFree(content);
    forall i | 0 <= i < |out| ensures Rewritten(out[i], replacements) == out[i] {
      if i < |lines| {
        assert lines[i] in lines && out[i] == Rewritten(lines[i], replacements);
        RewrittenTwice(lines[i], replacements);
      } else {
        var k := order[i - |lines|];
        assert k in order && out[i] == k + "=" + replacements[k];
        AssignmentIsFixed(k, replacements);
      }
    }
  }

  lemma BlankIsFixed(lines: seq<string>, replacements: map<string, string>)
    requires RewrittenAll(lines, replacements) == lines
    ensures RewrittenAll(lines + [""], replacements) == lines + [""]
    ensures RewrittenAll(["", ""], replacements) == ["", ""]
  {
    assert TrimSpace("") == "" && Rewritten("", replacements) == "";
    RewrittenSnoc(lines, "", replacements);
  }

  /** After a patch no key is missing, so a second pass has nothing to append. */
  lemma NothingMissing(r: string, replacements: map<string, string>, again: seq<string>)
    requires replacements.Keys <= Reading(LinesOf(r)).Keys
    requires Enumerates(again, replacements.Keys - Assigned(LinesOf(r), replacements))
    ensures again == []
  {
    AssignedIsRead(LinesOf(r), replacements);
    assert replacements.Keys - Assigned(LinesOf(r), replacements) == {};
    HeadIsMember(again);
  }

  /** Patching a patched file changes nothing, whatever the two iteration orders. */
  lemma PatchIsIdempotent(content: string, replacements: map<string, string>, order: seq<string>, r: string,
                          again: seq<string>, s: string)
    requires GoodReplacements(replacements) && NewlineFreeValues(replacements)
    requires IsPatched(content, replacements, order, r) && IsPatched(r, replacements, again, s)
    ensures s == r
  {
    var out, lines := Output(content, replacements, order), LinesOf(r);
    LinesAreNewlineFree(content);
    OutputIsNewlineFree(LinesOf(content), replacements, order);
    LinesOfTerminated(out);
    PatchedReading(content, replacements, order, r);
    NothingMissing(r, replacements, again);
    OutputIsFixed(content, replacements, order);
    BlankIsFixed(out, replacements);
    assert RewrittenAll(lines, replacements) + Assignments(again, replacements) == lines;
  }

  lemma {:induction false} ReadKeysAreGood(lines: seq<string>)
    requires NewlineFree(lines)
    ensures forall k :: k in Reading(lines) ==> GoodKey(k)
  {
    if lines != [] {
      var n := |lines| - 1;
      assert lines == lines[..n] + [lines[n]] && forall l :: l in lines[..n] ==> l in lines;
      ReadKeysAreGood(lines[..n]);
      if !IsComment(lines[n]) { KeysAreGood(lines[n]); }
    }
  }

  /** The replacements are all read back exactly when their keys are keys a line can have. */
  lemma ReplacementsReadBackIff(content: string, replacements: map<string, string>, order: seq<string>, r: string)
    requires NewlineFreeValues(replacements) && IsPatched(content, replacements, order, r)
    ensures (forall k :: k in replacements ==> k in Reading(LinesOf(r)) && Reading(LinesOf(r))[k] == replacements[k])
      <==> GoodReplacements(replacements)
  {
    LinesAreNewlineFree(r);
    ReadKeysAreGood(LinesOf(r));
    if GoodReplacements(replacements) {
      PatchedReading(content, replacements, order, r);
    }
  }

  lemma BadKeyIsNotRead(content: string, replacements: map<string, string>, order: seq<string>, r: string, k: string)
    requires IsPatched(content, replacements, order, r) && !GoodKey(k)
    ensures k !in Reading(LinesOf(r))
  {
    LinesAreNewlineFree(r);
    ReadKeysAreGood(LinesOf(r));
  }

  /** A key with a separator in it lands on the key before the separator. */
  lemma SeparatorMovesValue(key: string, was: string, rest: string, value: string, order: seq<string>, r: string)
    requires GoodKey(key) && '\n' !in was && '\n' !in rest && '\n' !in value
    requires IsPatched(key + "=" + was, map[key + "=" + rest := value], order, r)
    ensures key in Reading(LinesOf(r)) && Reading(LinesOf(r))[key] == rest + "=" + value
  {
    var bad, line := key + "=" + rest, key + "=" + was;
    var added := bad + "=" + value;
    assert added == key + "=" + (rest + "=" + value);
    AssignmentReads(key, was);
    AssignmentReads(key, rest + "=" + value);
    assert '=' in bad && bad != key;
    PatchOfOne(line, bad, value, order, r);
    LastAssignmentIsRead(line, added, key, r);
  }

  lemma LastAssignmentIsRead(line: string, added: string, key: string, r: string)
    requires '\n' !in line && '\n' !in added && r == Terminated([line] + [added])
    requires !IsComment(added) && KeyOf(added) == key
    ensures key in Reading(LinesOf(r)) && Reading(LinesOf(r))[key] == ValueOf(added)
  {
    ReadingSnoc([line], added);
    ReadingIsKept([line] + [added], r);
  }

  /** One line that no replacement touches, and one replacement that is appended. */
  lemma PatchOfOne(line: string, key: string, value: string, order: seq<string>, r: string)
    requires line != "" && '\n' !in line && !IsComment(line) && KeyOf(line) != key
    requires IsPatched(line, map[key := value], order, r)
    ensures r == Terminated([line] + [key + "=" + value])
  {
    var replacements := map[key := value];
    SplitOne(line, '\n');
    assert RewrittenAll([line], replacements) == [line];
    assert Assigned([line], replacements) == {};
    OnlyKey(order, key);
    assert Assignments([key], replacements) == [key + "=" + value];
  }

  lemma ReadingIsKept(out: seq<string>, r: string)
    requires NewlineFree(out) && r == Terminated(out)
    ensures Reading(LinesOf(r)) == Reading(out)
  {
    LinesOfTerminated(out);
    BlankLinesReadNothing(out);
  }

  /** Keys with a separator, a comment mark or space around them; the first one changes the value of another key. */
  lemma BadKeyExample(order: seq<string>, r: string)
    requires IsPatched("a" + "=" + "1", map["a" + "=" + "b" := "v"], order, r)
    ensures !GoodKey("a=b") && !GoodKey("#a") && !GoodKey(" a")
    ensures var reading := Reading(LinesOf(r)); "a=b" !in reading && "a" in reading && reading["a"] == "b" + "=" + "v"
  {
    assert "a=b"[1] == '=' && IsSpace(" a"[0]);
    BadKeyIsNotRead("a" + "=" + "1", map["a" + "=" + "b" := "v"], order, r, "a=b");
    assert !IsSpace("a"[0]);
    SeparatorMovesValue("a", "1", "b", "v", order, r);
  }

  // ----- lines as text -----

  /** A key with white space around it, a separator and a value: the first `=`, or the first `:` if there is none. */
  lemma LineIsRead(before: string, k: string, after: string, sep: char, v: string)
    requires AllSpace(before) && AllSpace(after) && '=' !in k
    requires k != "" ==> !IsSpace(k[0]) && !IsSpace(k[|k| - 1]) && k[0] != '#' && k[0] != '!'
    requires sep == '=' || (sep == ':' && ':' !in k && '=' !in v)
    ensures var line := before + k + after + [sep] + v;
      !IsComment(line) && KeyOf(line) == k && ValueOf(line) == v
  {
    var head := before + k + after;
    var line, rest := head + [sep] + v, after + [sep] + v;
    assert line == before + (k + rest);
    assert line[|head|] == sep && line[..|head|] == head && line[|head| + 1..] == v;
    assert sep !in head && '=' !in head;
    IndexIs(line, sep, |head|);
    if k != "" {
      TrimPadded(before, k, after);
    } else {
      assert head == before + after;
      assert AllSpace(head);
      TrimKeepsFirst(head, "");
      assert head + "" == head;
    }
    NotAComment(before, k, after, sep, v);
  }

  lemma NotAComment(before: string, k: string, after: string, sep: char, v: string)
    requires AllSpace(before) && AllSpace(after) && (sep == '=' || sep == ':')
    requires k != "" ==> !IsSpace(k[0]) && k[0] != '#' && k[0] != '!'
    ensures !IsComment(before + k + after + [sep] + v)
  {
    var line := before + k + after + [sep] + v;
    if k != "" {
      var rest := k + after + [sep] + v;
      assert line == before + rest && rest[0] == k[0];
      TrimKeepsFirst(before, rest);
    } else {
      var rest := [sep] + v;
      assert line == (before + after) + rest && rest[0] == sep;
      TrimKeepsFirst(before + after, rest);
    }
  }

  /** A line without separators is a key with no value. */
  lemma BareLineIsRead(before: string, k: string, after: string)
    requires AllSpace(before) && AllSpace(after) && k != "" && '=' !in k && ':' !in k
    requires !IsSpace(k[0]) && !IsSpace(k[|k| - 1]) && k[0] != '#' && k[0] != '!'
    ensures var line := before + k + after; !IsComment(line) && KeyOf(line) == k && ValueOf(line) == ""
  {
    var line := before + k + after;
    assert '=' !in line && ':' !in line;
    TrimPadded(before, k, after);
  }

  /** Blank lines and lines that begin with `#` or `!` are comments. */
  lemma CommentIsRead(before: string, text: string)
    requires AllSpace(before) && (text == "" || text[0] == '#' || text[0] == '!')
    ensures IsComment(before + text)
  {
    TrimKeepsFirst(before, text);
  }

  /** A file of one line, patched under its key: the line is written anew, with `=` and a line end. */
  lemma OneLineIsReplaced(k: string, sep: char, was: string, v: string, order: seq<string>, r: string)
    requires '=' !in k && k != "" && !IsSpace(k[0]) && !IsSpace(k[|k| - 1]) && k[0] != '#' && k[0] != '!'
    requires sep == '=' || (sep == ':' && ':' !in k && '=' !in was)
    requires '\n' !in k && '\n' !in was && '\n' !in v
    requires IsPatched(k + [sep] + was, map[k := v], order, r)
    ensures r == k + "=" + v + "\n"
  {
    var line := k + [sep] + was;
    assert "" + k + "" + [sep] + was == line;
    LineIsRead("", k, "", sep, was);
    ReplacedLine(line, k, v, order, r);
  }

  lemma ReplacedLine(line: string, k: string, v: string, order: seq<string>, r: string)
    requires !IsComment(line) && KeyOf(line) == k && '\n' !in line && '\n' !in k && '\n' !in v
    requires IsPatched(line, map[k := v], order, r)
    ensures r == k + "=" + v + "\n"
  {
    var replacements := map[k := v];
    SplitOne(line, '\n');
    assert LinesOf(line) == [line] by { assert IsComment(""); }
    assert RewrittenAll([line], replacements) == [k + "=" + v];
    assert k in Assigned([line], replacements) by { assert Replaces([line][0], replacements); }
    HeadIsMember(order);
    assert [k + "=" + v] + Assignments(order, replacements) == [k + "=" + v];
    OneLineIsTerminated(k + "=" + v);
  }

  lemma OneLineIsTerminated(line: string)
    requires line != "" && '\n' !in line
    ensures Terminated([line]) == line + "\n"
  {
    assert line[|line| - 1] in line && line[|line| - 1..] == [line[|line| - 1]];
  }
}
