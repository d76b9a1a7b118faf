/** Backups under an ignore file: which paths the archive holds, in terms of the patterns. */
module BackupIgnore {
  import opened Wrappers
  import opened Strings
  import opened Paths
  import opened Rootfs
  import opened FileTree
  import opened Archive
  import opened Ignore
  import opened Backup

  /** What IsIgnored answers for the list NewIgnoreList makes of the patterns. */
  ghost predicate AnswersFor(ignored: string -> bool, patterns: seq<string>) {
    var rules := Effective(RulesOf(patterns));
    rules.Some? &&
    forall rel :: ignored(rel) <==>
      var t := Clean(rel);
      t != "." && t != ".." && !HasPrefix(t, "../") && LastMatchIgnores(rules.value, t)
  }

  /** One bad pattern, and the backup holds everything the daemon does not set aside itself. */
  lemma BadPatternBacksUpAll(tree: FileMap, ignored: string -> bool, patterns: seq<string>, i: nat, p: Path)
    requires IsTree(tree) && p in tree && AnswersFor(ignored, patterns)
    requires i < |patterns| && CompiledOf(Parse(patterns[i])).Invalid?
    ensures BackedUp(tree, ignored, p) <==>
      (tree[p] == Directory || tree[p].Regular?) && p[0] != ".backups" && p[0] != ".uploads"
  {
    OneBadPattern(patterns, i);
    assert p[..|p|] == p;
    if tree[p] == Directory || tree[p].Regular? {
      forall k | 0 < k <= |p|
        ensures Passes(tree, ignored, p[..k]) <==> p[0] != ".backups" && p[0] != ".uploads"
      {
        if k < |p| { AboveIsDirectory(tree, p, k); }
      }
    }
  }

  /** Under a supported ignore file the archive holds exactly what no pattern excludes at any level. */
  lemma BackedUpByPatterns(tree: FileMap, ignored: string -> bool, patterns: seq<string>, p: Path)
    requires IsTree(tree) && p in tree && forall c :: c in p ==> '\n' !in c
    requires forall i :: 0 <= i < |patterns| ==> Parse(patterns[i]).Blank? || Supported(Parse(patterns[i]))
    requires AnswersFor(ignored, patterns)
    ensures BackedUp(tree, ignored, p) <==>
      (tree[p] == Directory || tree[p].Regular?) && forall k :: 0 < k <= |p| ==> Allowed(patterns, p[..k])
  {
    assert p[..|p|] == p;
    if tree[p] == Directory || tree[p].Regular? {
      forall k | 0 < k <= |p|
        ensures Passes(tree, ignored, p[..k]) <==> Allowed(patterns, p[..k])
      {
        if k < |p| { AboveIsDirectory(tree, p, k); }
        PrefixIsIgnored(ignored, patterns, p[..k]);
      }
    }
  }

  /** Neither set aside by the daemon nor excluded by the patterns. */
  ghost predicate Allowed(patterns: seq<string>, q: Path) {
    q != [] && q[0] != ".backups" && q[0] != ".uploads" && !PatternsIgnore(patterns, q)
  }

  lemma PrefixIsIgnored(ignored: string -> bool, patterns: seq<string>, q: Path)
    requires AllPlain(q) && q != [] && forall c :: c in q ==> '\n' !in c
    requires forall i :: 0 <= i < |patterns| ==> Parse(patterns[i]).Blank? || Supported(Parse(patterns[i]))
    requires AnswersFor(ignored, patterns)
    ensures ignored(Join(q, '/')) <==> PatternsIgnore(patterns, q)
  {
    CleanOfPlain(q);
    FirstIsPlain(q);
    RulesMeanPatterns(patterns, q);
  }

  /** What one more line in the ignore file does to a path of the walk. */
  lemma OneMoreLineIsAnswered(was: string -> bool, now: string -> bool, patterns: seq<string>, mark: string,
                              anchored: bool, v: string, directory: bool, q: Path)
    requires AllPlain(q) && q != [] && forall c :: c in q ==> '\n' !in c
    requires RulesOf(patterns).Rules? && Written(mark, anchored, v, directory) && PlainGlob(v)
    requires AnswersFor(was, patterns) && AnswersFor(now, patterns + [mark + Slashed(anchored, v, directory)])
    ensures now(Join(q, '/')) ==
      if (if anchored || '/' in v then MatchesFromRoot(v, directory || '/' !in v, q) else MatchesComponent(v, q))
      then mark != "!"
      else was(Join(q, '/'))
  {
    var line := mark + Slashed(anchored, v, directory);
    assert "" + line + "" == line;
    OneMoreLine(patterns, "", mark, anchored, v, directory, "", q);
    ListIsAnswered(was, patterns, q);
    ListIsAnswered(now, patterns + [line], q);
  }

  lemma ListIsAnswered(ignored: string -> bool, patterns: seq<string>, q: Path)
    requires AllPlain(q) && q != [] && AnswersFor(ignored, patterns)
    ensures ignored(Join(q, '/')) <==> ListIgnores(patterns, q)
  {
    CleanOfPlain(q);
    FirstIsPlain(q);
  }
}
