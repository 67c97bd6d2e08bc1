/** Laws of the compiled policy: what a match may depend on, and which rules can never decide. */
module PolicyLaws {
  import opened Seqs
  import opened Flags
  import opened CStrings
  import opened PolicyTable
  import opened Matcher

  // ----- what a match depends on -------------------------------------------------------------------

  /** Two rule lists that differ at most in uid lists and in bytes after a NUL. */
  ghost predicate SameRules(a: LsmPolicies, b: LsmPolicies) {
    && |a.file| == |b.file| && |a.process| == |b.process|
    && (forall i :: 0 <= i < |a.file| ==>
          CString(a.file[i].path) == CString(b.file[i].path) && FlagsOf(a.file[i].flags) == FlagsOf(b.file[i].flags))
    && (forall i :: 0 <= i < |a.process| ==>
          CString(a.process[i].comm) == CString(b.process[i].comm)
          && FlagsOf(a.process[i].flags) == FlagsOf(b.process[i].flags))
  }

  /** Two strings that the kernel reads alike: they agree up to the first NUL. */
  ghost predicate SameString(a: seq<char>, b: seq<char>, len: nat) {
    CString(UpTo(a, len)) == CString(UpTo(b, len))
  }

  /** Match results do not depend on uid lists, on network rules, on what the record held before it
      was filled, on the slots from the counts on, or on bytes after a NUL. */
  lemma NonInterference(t: Table, p: LsmPolicies, u: Table, q: LsmPolicies, x: seq<char>, y: seq<char>)
    requires Represents(t, p) && Represents(u, q) && SameRules(p, q)
    ensures SameString(x, y, MAX_PATH_LENGTH) ==> FileFlags(t, x) == FileFlags(u, y)
    ensures SameString(x, y, TASK_COMM_LEN) ==> ProcessFlags(t, x) == ProcessFlags(u, y)
  {
    if SameString(x, y, MAX_PATH_LENGTH) {
      SameFileSlots(t, p, u, q, x, y);
    }
    if SameString(x, y, TASK_COMM_LEN) {
      SameProcessSlots(t, p, u, q, x, y);
    }
  }

  lemma SameDeciding<S>(slots: seq<S>, matches: S -> bool, others: seq<S>, also: S -> bool, n: nat)
    requires n <= |slots| && n <= |others|
    requires forall i :: 0 <= i < n ==> (matches(slots[i]) <==> also(others[i]))
    ensures Deciding(slots, n, matches) == Deciding(others, n, also)
  {
    var i := Deciding(slots, n, matches);
    if i.Some? {
      DecidingIs(others, n, also, i.value);
    } else {
      NoneDecides(slots, n, matches, n);
    }
  }

  lemma SameFileSlots(t: Table, p: LsmPolicies, u: Table, q: LsmPolicies, x: seq<char>, y: seq<char>)
    requires Represents(t, p) && Represents(u, q) && SameRules(p, q)
    requires SameString(x, y, MAX_PATH_LENGTH)
    ensures FileFlags(t, x) == FileFlags(u, y)
  {
    SameDeciding(t.file, FileMatcher(x), u.file, FileMatcher(y), t.numFile);
  }

  lemma SameProcessSlots(t: Table, p: LsmPolicies, u: Table, q: LsmPolicies, x: seq<char>, y: seq<char>)
    requires Represents(t, p) && Represents(u, q) && SameRules(p, q)
    requires SameString(x, y, TASK_COMM_LEN)
    ensures ProcessFlags(t, x) == ProcessFlags(u, y)
  {
    SameDeciding(t.process, ProcessMatcher(x), u.process, ProcessMatcher(y), t.numProcess);
  }

  // ----- rules that never decide -------------------------------------------------------------------

  predicate IsTree(rule: YamlFile) {
    var path := CString(rule.path);
    Name(Recursive) in rule.flags && path != [] && path[|path| - 1] == '/'
  }

  /** A recursive rule shadows every rule whose path lies in its tree; any rule shadows a later rule
      for the same path that is not itself a tree. */
  predicate Shadows(a: YamlFile, b: YamlFile) {
    if IsTree(a) then CString(a.path) <= CString(b.path)
    else CString(a.path) == CString(b.path) && !IsTree(b)
  }

  lemma ShadowsCovers(a: YamlFile, b: YamlFile, path: seq<char>)
    requires Shadows(a, b) && RuleCovers(b, path)
    ensures RuleCovers(a, path)
  {
  }

  /** A path is decided by rule `j`. */
  ghost predicate DecidesPath(rules: seq<YamlFile>, j: nat, path: seq<char>)
    requires j < |rules|
  {
    RuleCovers(rules[j], path) && forall i :: 0 <= i < j ==> !RuleCovers(rules[i], path)
  }

  /** A table holds 64 rules, so 65 letters are enough to find one that continues no rule's path. */
  function Letters(n: nat): (r: set<char>)
    requires n <= 65
    ensures |r| == n && forall c :: c in r ==> '0' as int <= c as int < '0' as int + n
  {
    if n == 0 then {} else Letters(n - 1) + {('0' as int + n - 1) as char}
  }

  lemma {:induction false} FreshLetter(rules: seq<YamlFile>, base: seq<char>, letters: set<char>) returns (c: char)
    requires |letters| > |rules|
    ensures c in letters && forall i :: 0 <= i < |rules| ==> CString(rules[i].path) != base + [c]
  {
    if rules == [] {
      c :| c in letters;
    } else {
      var path := CString(rules[0].path);
      var used := if path == [] then {} else {path[|path| - 1]};
      assert |letters - used| >= |letters| - 1 by {
        assert letters - used == letters || letters == (letters - used) + used;
      }
      c := FreshLetter(rules[1..], base, letters - used);
      assert (base + [c])[|base|] == c;
      forall i | 0 <= i < |rules| ensures CString(rules[i].path) != base + [c] {
        assert i > 0 ==> rules[i] == rules[1..][i - 1];
      }
    }
  }

  /** A tree that ends in a slash reaches `base` plus letters only if it already reaches `base`. */
  lemma TreeAboveLetters(tree: seq<char>, base: seq<char>, letters: seq<char>)
    requires tree != [] && tree[|tree| - 1] == '/' && tree < base + letters
    requires forall i :: 0 <= i < |letters| ==> letters[i] != '/'
    ensures tree <= base
  {
    var whole := base + letters;
    assert tree[|tree| - 1] == whole[|tree| - 1];
    forall k | |base| <= k < |whole| ensures whole[k] != '/' {
      assert whole[k] == letters[k - |base|];
    }
  }

  /** A path below rule `j`'s tree, one letter longer, that no unshadowing earlier rule covers. */
  lemma FreshPath(rules: seq<YamlFile>, j: nat) returns (path: seq<char>)
    requires j < |rules| <= MAX_POLICIES && IsTree(rules[j])
    requires forall i :: 0 <= i < j ==> !Shadows(rules[i], rules[j])
    ensures DecidesPath(rules, j, path) && NUL !in path && |path| == |CString(rules[j].path)| + 1
  {
    var base := CString(rules[j].path);
    CStringPrefix(rules[j].path);
    var c := FreshLetter(rules, base, Letters(65));
    path := base + [c];
    forall i | 0 <= i < j ensures !RuleCovers(rules[i], path) {
      if RuleCovers(rules[i], path) {
        TreeAboveLetters(CString(rules[i].path), base, [c]);
      }
    }
  }

  /** The 256 bytes of the event record's path field that hold a string. */
  function Buffer(text: seq<char>): (r: seq<char>)
    requires |text| <= MAX_PATH_LENGTH && NUL !in text
    ensures |r| == MAX_PATH_LENGTH && CString(r) == text && (|text| < MAX_PATH_LENGTH ==> NUL in r)
  {
    var r := text + seq(MAX_PATH_LENGTH - |text|, _ => NUL);
    assert r[..|text|] == text;
    assert |text| < MAX_PATH_LENGTH ==> r[|text|] == NUL;
    CStringAt(r, |text|);
    r
  }

  lemma DecidingIsDecides(t: Table, p: LsmPolicies, j: nat, path: seq<char>)
    requires Represents(t, p) && j < |p.file| && |path| == MAX_PATH_LENGTH
    ensures DecidingFile(t, path) == Some(j) <==> DecidesPath(p.file, j, CString(path))
  {
    assert UpTo(path, MAX_PATH_LENGTH) == path;
    forall i | 0 <= i < t.numFile ensures FileMatcher(path)(t.file[i]) <==> RuleCovers(p.file[i], CString(path)) {
      SlotMatchesRule(t, p, path, i);
    }
    if DecidesPath(p.file, j, CString(path)) {
      DecidingIs(t.file, t.numFile, FileMatcher(path), j);
    }
  }

  lemma RulePathLength(t: Table, p: LsmPolicies, j: nat)
    requires Represents(t, p) && j < |p.file|
    ensures |CString(p.file[j].path)| < MAX_PATH_LENGTH && NUL !in CString(p.file[j].path)
  {
    CStringPrefix(t.file[j].path);
    var buf := t.file[j].path;
    assert |CString(buf)| == |buf| ==> CString(buf) == buf;
  }

  /** Some 256 bytes make rule `j` decide. */
  ghost predicate CanDecide(t: Table, j: nat) {
    exists path :: |path| == MAX_PATH_LENGTH && DecidingFile(t, path) == Some(j)
  }

  /** Some 256 bytes with a NUL in them do. */
  ghost predicate CanDecideTerminated(t: Table, j: nat) {
    exists path :: |path| == MAX_PATH_LENGTH && NUL in path && DecidingFile(t, path) == Some(j)
  }

  lemma ShadowedDecidesNothing(rules: seq<YamlFile>, i: nat, j: nat, path: seq<char>)
    requires i < j < |rules| && Shadows(rules[i], rules[j])
    ensures !DecidesPath(rules, j, path)
  {
    if RuleCovers(rules[j], path) {
      ShadowsCovers(rules[i], rules[j], path);
    }
  }

  lemma TextDecides(t: Table, p: LsmPolicies, j: nat, text: seq<char>)
    requires Represents(t, p) && j < |p.file|
    requires |text| <= MAX_PATH_LENGTH && NUL !in text && DecidesPath(p.file, j, text)
    ensures CanDecide(t, j) && (|text| < MAX_PATH_LENGTH ==> CanDecideTerminated(t, j))
  {
    DecidingIsDecides(t, p, j, Buffer(text));
  }

  lemma NoneShadows(t: Table, p: LsmPolicies, j: nat, path: seq<char>, i: nat)
    requires Represents(t, p) && i < j < |p.file| && |path| == MAX_PATH_LENGTH && DecidingFile(t, path) == Some(j)
    ensures !Shadows(p.file[i], p.file[j])
    ensures NUL in path ==> !Fills(p.file[i], p.file[j])
  {
    DecidingIsDecides(t, p, j, path);
    CStringPrefix(path);
    assert |CString(path)| == |path| ==> CString(path) == path;
    if Shadows(p.file[i], p.file[j]) {
      ShadowedDecidesNothing(p.file, i, j, CString(path));
    }
  }

  /** In a compiled table a rule is dead, for every string in the kernel's 256 bytes, exactly when one
      single earlier rule shadows it. */
  lemma DeadExactlyWhenShadowed(t: Table, p: LsmPolicies, j: nat)
    requires Represents(t, p) && j < |p.file|
    ensures CanDecide(t, j) <==> forall i :: 0 <= i < j ==> !Shadows(p.file[i], p.file[j])
  {
    RulePathLength(t, p, j);
    if forall i :: 0 <= i < j ==> !Shadows(p.file[i], p.file[j]) {
      var text := CString(p.file[j].path);
      if IsTree(p.file[j]) {
        text := FreshPath(p.file, j);
      }
      TextDecides(t, p, j, text);
    }
    if path :| |path| == MAX_PATH_LENGTH && DecidingFile(t, path) == Some(j) {
      forall i | 0 <= i < j ensures !Shadows(p.file[i], p.file[j]) {
        NoneShadows(t, p, j, path, i);
      }
    }
  }

  /** The longest tree path leaves no room below it in a terminated string, so there an earlier rule for
      the same path is enough. */
  predicate Fills(a: YamlFile, b: YamlFile) {
    CString(a.path) == CString(b.path) && |CString(b.path)| == MAX_PATH_LENGTH - 1
  }

  /** The same for terminated strings, which is what bpf_d_path writes when it succeeds. */
  lemma DeadForTerminatedExactly(t: Table, p: LsmPolicies, j: nat)
    requires Represents(t, p) && j < |p.file|
    ensures CanDecideTerminated(t, j) <==>
            forall i :: 0 <= i < j ==> !Shadows(p.file[i], p.file[j]) && !Fills(p.file[i], p.file[j])
  {
    RulePathLength(t, p, j);
    if forall i :: 0 <= i < j ==> !Shadows(p.file[i], p.file[j]) && !Fills(p.file[i], p.file[j]) {
      var text := CString(p.file[j].path);
      if IsTree(p.file[j]) && |text| < MAX_PATH_LENGTH - 1 {
        text := FreshPath(p.file, j);
      }
      TextDecides(t, p, j, text);
    }
    if path :| |path| == MAX_PATH_LENGTH && NUL in path && DecidingFile(t, path) == Some(j) {
      forall i | 0 <= i < j ensures !Shadows(p.file[i], p.file[j]) && !Fills(p.file[i], p.file[j]) {
        NoneShadows(t, p, j, path, i);
      }
    }
  }

  function Without(rules: seq<YamlFile>, j: nat): seq<YamlFile>
    requires j < |rules|
  {
    rules[..j] + rules[j + 1..]
  }

  /** Deleting a shadowed rule changes the deciding rule of no path. */
  lemma DeleteShadowed(rules: seq<YamlFile>, i: nat, j: nat, path: seq<char>)
    requires i < j < |rules| && Shadows(rules[i], rules[j])
    ensures FirstRule(Without(rules, j), path) == FirstRule(rules, path)
  {
    var front, back := rules[..j], rules[j + 1..];
    assert rules == front + ([rules[j]] + back);
    FirstThatConcat(front, back, Covering(path));
    FirstThatConcat(front, [rules[j]] + back, Covering(path));
    FirstThatConcat([rules[j]], back, Covering(path));
    assert [rules[j]][1..] == [];
    if RuleCovers(rules[j], path) {
      ShadowsCovers(rules[i], rules[j], path);
      FirstThatExists(front, Covering(path), i);
    }
  }

  /** The same on compiled tables, for every string the kernel may pass. */
  lemma DeleteShadowedCompiled(t: Table, p: LsmPolicies, u: Table, i: nat, j: nat, path: seq<char>)
    requires Represents(t, p) && i < j < |p.file| && Shadows(p.file[i], p.file[j])
    requires Represents(u, p.(file := Without(p.file, j)))
    ensures FileFlags(u, path) == FileFlags(t, path)
  {
    FileMatchMeaning(t, p, path);
    FileMatchMeaning(u, p.(file := Without(p.file, j)), path);
    DeleteShadowed(p.file, i, j, CString(UpTo(path, MAX_PATH_LENGTH)));
  }

  /** What a rule covers: its own path, and with POLICY_RECURSIVE and a final slash everything below it. */
  lemma CoversExactly(rule: YamlFile, path: seq<char>)
    ensures RuleCovers(rule, path) <==>
            || path == CString(rule.path)
            || ("POLICY_RECURSIVE" in rule.flags && CString(rule.path) != []
                && CString(rule.path)[|CString(rule.path)| - 1] == '/'
                && |CString(rule.path)| < |path| && path[..|CString(rule.path)|] == CString(rule.path))
  {
    var own := CString(rule.path);
    assert own < path <==> |own| < |path| && path[..|own|] == own;
  }

  /** POLICY_RECURSIVE on a path without a trailing slash has no effect: the rule covers its own path
      only, whatever lies below it. */
  lemma RecursiveNeedsSlash(rule: YamlFile, path: seq<char>)
    requires CString(rule.path) != [] && CString(rule.path)[|CString(rule.path)| - 1] != '/'
    ensures RuleCovers(rule, path) <==> path == CString(rule.path)
  {
  }
}
