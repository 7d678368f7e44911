/**
 * The bookkeeping of one fixer run: which rules are active, which files are
 * in scope, the list of files handed to the structural weaver, and the merge
 * of the structural and textual weaving results.
 */
module CliRun {
  import opened Weaving

  // ---------------------------------------------------------------------------
  // Weaving results
  // ---------------------------------------------------------------------------

  /** A file some rule changed: its path, its new content and the weaves applied to it. */
  datatype ChangedFile = ChangedFile(path: string, modifiedFile: string, weaves: seq<Weave>)

  /** The outcome of a weaving pass: the changed files and the paths that could not be scanned. */
  datatype WeavingResult = WeavingResult(changedFiles: set<ChangedFile>, unscannableFiles: set<string>)

  /** The specification of the merge: both sets are unions of the inputs' sets. */
  function Merged(r1: WeavingResult, r2: WeavingResult): WeavingResult
  {
    WeavingResult(r1.changedFiles + r2.changedFiles, r1.unscannableFiles + r2.unscannableFiles)
  }

  /** Adds every element of `xs` to the accumulator `acc`, one element at a time. */
  method AddAll<T>(acc: set<T>, xs: set<T>) returns (r: set<T>)
    ensures forall x :: x in r <==> x in acc || x in xs
  {
    r := acc;
    var rest := xs;
    while rest != {}
      invariant rest <= xs
      invariant r == acc + (xs - rest)
      decreases rest
    {
      var x :| x in rest;
      r := r + {x};
      rest := rest - {x};
    }
  }

  /**
   * Combines two weaving results. Each combined set starts empty and receives
   * the first result's elements, then the second's.
   */
  method Merge(r1: WeavingResult, r2: WeavingResult) returns (m: WeavingResult)
    ensures forall c :: c in m.changedFiles <==> c in r1.changedFiles || c in r2.changedFiles
    ensures forall p :: p in m.unscannableFiles <==> p in r1.unscannableFiles || p in r2.unscannableFiles
    ensures m == Merged(r1, r2)
  {
    var combinedChangedFiles: set<ChangedFile> := {};
    combinedChangedFiles := AddAll(combinedChangedFiles, r1.changedFiles);
    combinedChangedFiles := AddAll(combinedChangedFiles, r2.changedFiles);

    var combinedUnscannableFiles: set<string> := {};
    combinedUnscannableFiles := AddAll(combinedUnscannableFiles, r1.unscannableFiles);
    combinedUnscannableFiles := AddAll(combinedUnscannableFiles, r2.unscannableFiles);

    m := WeavingResult(combinedChangedFiles, combinedUnscannableFiles);
  }

  /** The result with nothing changed and nothing unscannable. */
  const Empty := WeavingResult({}, {})

  lemma MergeCommutes(r1: WeavingResult, r2: WeavingResult)
    ensures Merged(r1, r2) == Merged(r2, r1)
  {
  }

  lemma MergeWithEmpty(r: WeavingResult)
    ensures Merged(r, Empty) == r && Merged(Empty, r) == r
  {
  }

  lemma MergeIdempotent(r: WeavingResult)
    ensures Merged(r, r) == r
  {
  }

  lemma MergeAssociative(r1: WeavingResult, r2: WeavingResult, r3: WeavingResult)
    ensures Merged(Merged(r1, r2), r3) == Merged(r1, Merged(r2, r3))
  {
  }

  /**
   * The merge does not deduplicate by path: two different records for the same
   * path both survive it.
   */
  lemma MergeKeepsBothRecordsForOnePath(c1: ChangedFile, c2: ChangedFile, r1: WeavingResult, r2: WeavingResult)
    requires c1 in r1.changedFiles && c2 in r2.changedFiles
    requires c1.path == c2.path && c1 != c2
    ensures c1 in Merged(r1, r2).changedFiles && c2 in Merged(r1, r2).changedFiles
    ensures |set c | c in Merged(r1, r2).changedFiles && c.path == c1.path| >= 2
  {
    var same := set c | c in Merged(r1, r2).changedFiles && c.path == c1.path;
    assert {c1, c2} <= same;
    assert |{c1, c2}| == 2;
    SubsetCardinality({c1, c2}, same);
  }

  lemma SubsetCardinality<T>(a: set<T>, b: set<T>)
    requires a <= b
    ensures |a| <= |b|
  {
    assert b == a + (b - a);
  }

  /** No path is reported both as changed and as unscannable. */
  predicate Consistent(r: WeavingResult)
  {
    forall c :: c in r.changedFiles ==> c.path !in r.unscannableFiles
  }

  /**
   * The merge keeps a result consistent when neither input reports as changed a
   * path that the other reports as unscannable; it does not enforce this itself.
   */
  lemma MergeKeepsConsistency(r1: WeavingResult, r2: WeavingResult)
    requires Consistent(r1) && Consistent(r2)
    requires forall c :: c in r1.changedFiles ==> c.path !in r2.unscannableFiles
    requires forall c :: c in r2.changedFiles ==> c.path !in r1.unscannableFiles
    ensures Consistent(Merged(r1, r2))
  {
  }

  lemma MergeCanBreakConsistency(c: ChangedFile)
    ensures Consistent(WeavingResult({c}, {})) && Consistent(WeavingResult({}, {c.path}))
    ensures !Consistent(Merged(WeavingResult({c}, {}), WeavingResult({}, {c.path})))
  {
  }

  // ---------------------------------------------------------------------------
  // Rule settings
  // ---------------------------------------------------------------------------

  datatype DefaultRuleSetting = Enabled | Disabled

  /** The default setting together with the rules whose setting is the opposite of it. */
  datatype RuleContext = RuleContext(defaultSetting: DefaultRuleSetting, ruleExceptions: seq<string>)

  predicate IsRuleActive(context: RuleContext, ruleId: string)
  {
    (context.defaultSetting == Enabled) != (ruleId in context.ruleExceptions)
  }

  /** A listed rule gets the opposite of the default setting, any other rule gets the default. */
  lemma RuleActiveIffDefaultXorException(context: RuleContext, ruleId: string)
    ensures ruleId !in context.ruleExceptions ==>
              (IsRuleActive(context, ruleId) <==> context.defaultSetting == Enabled)
    ensures ruleId in context.ruleExceptions ==>
              (IsRuleActive(context, ruleId) <==> context.defaultSetting == Disabled)
  {
  }

  lemma RuleSettingExamples()
    ensures !IsRuleActive(RuleContext(Enabled, ["rule:x"]), "rule:x")
    ensures IsRuleActive(RuleContext(Enabled, ["rule:x"]), "rule:y")
    ensures IsRuleActive(RuleContext(Disabled, ["rule:x"]), "rule:x")
    ensures !IsRuleActive(RuleContext(Disabled, ["rule:x"]), "rule:y")
  {
    assert "rule:y" != "rule:x" by { assert "rule:y"[5] != "rule:x"[5]; }
  }

  // ---------------------------------------------------------------------------
  // Includes and excludes
  // ---------------------------------------------------------------------------

  /**
   * A configured path pattern. How a pattern matches a path is left abstract:
   * `matches` says whether it matches a path relative to the repository root,
   * and the length of `matchedPath` is how specific it is.
   */
  datatype PathMatcher = PathMatcher(matchedPath: string, matches: string -> bool)

  datatype IncludesExcludes = IncludesExcludes(includes: seq<PathMatcher>, excludes: seq<PathMatcher>)

  /** The length of the longest matching pattern in `ms`, or None when none matches `path`. */
  function LongestMatch(ms: seq<PathMatcher>, path: string): (r: Option<nat>)
    ensures r.None? <==> forall k :: 0 <= k < |ms| ==> !ms[k].matches(path)
    ensures r.Some? ==> exists k :: 0 <= k < |ms| && ms[k].matches(path) && |ms[k].matchedPath| == r.value
    ensures r.Some? ==> forall k :: 0 <= k < |ms| && ms[k].matches(path) ==> |ms[k].matchedPath| <= r.value
    decreases |ms|
  {
    if ms == [] then None
    else
      var rest := LongestMatch(ms[1..], path);
      assert forall k :: 1 <= k < |ms| ==> ms[k] == ms[1..][k - 1];
      if !ms[0].matches(path) then rest
      else if rest.Some? && rest.value >= |ms[0].matchedPath| then rest
      else Some(|ms[0].matchedPath|)
  }

  /**
   * Includes win unless the exclude has a longer matching path; an empty include
   * list includes every path.
   */
  predicate ShouldInspect(ie: IncludesExcludes, path: string)
  {
    var longestInclude := LongestMatch(ie.includes, path);
    var longestExclude := LongestMatch(ie.excludes, path);
    (ie.includes == [] || longestInclude.Some?) &&
    (longestExclude.None? || (longestInclude.Some? && longestExclude.value <= longestInclude.value))
  }

  /** The scope decision stated pattern by pattern. */
  lemma ShouldInspectByPatterns(ie: IncludesExcludes, path: string)
    ensures ShouldInspect(ie, path) <==>
      (ie.includes == [] || exists i :: 0 <= i < |ie.includes| && ie.includes[i].matches(path)) &&
      (forall e :: 0 <= e < |ie.excludes| && ie.excludes[e].matches(path) ==>
         exists i :: 0 <= i < |ie.includes| && ie.includes[i].matches(path) &&
                     |ie.excludes[e].matchedPath| <= |ie.includes[i].matchedPath|)
  {
    var inc := LongestMatch(ie.includes, path);
    var exc := LongestMatch(ie.excludes, path);
    if exc.Some? {
      var e :| 0 <= e < |ie.excludes| && ie.excludes[e].matches(path) && |ie.excludes[e].matchedPath| == exc.value;
      if inc.Some? {
        var i :| 0 <= i < |ie.includes| && ie.includes[i].matches(path) && |ie.includes[i].matchedPath| == inc.value;
      }
    }
  }

  lemma NoPatternsInspectEverything(path: string)
    ensures ShouldInspect(IncludesExcludes([], []), path)
  {
  }

  /** An include and an exclude both match: the include wins unless the exclude is strictly longer. */
  lemma IncludeWinsTies(inc: PathMatcher, exc: PathMatcher, path: string)
    requires inc.matches(path) && exc.matches(path)
    ensures ShouldInspect(IncludesExcludes([inc], [exc]), path) <==>
            |exc.matchedPath| <= |inc.matchedPath|
  {
    ShouldInspectByPatterns(IncludesExcludes([inc], [exc]), path);
  }

  /** A matcher for a glob that selects every path under the directory `dir`. */
  function UnderDirectory(dir: string): PathMatcher
  {
    PathMatcher(dir, p => dir <= p)
  }

  lemma ScopeExamples()
    ensures ShouldInspect(IncludesExcludes([UnderDirectory("src/app/")], [UnderDirectory("src/")]), "src/app/Main.x")
    ensures !ShouldInspect(IncludesExcludes([UnderDirectory("src/")], [UnderDirectory("src/legacy/")]), "src/legacy/Old.x")
  {
    assert "src/app/" <= "src/app/Main.x";
    assert "src/" <= "src/app/Main.x";
    assert "src/" <= "src/legacy/Old.x";
    assert "src/legacy/" <= "src/legacy/Old.x";
  }

  // ---------------------------------------------------------------------------
  // The files handed to the structural weaver
  // ---------------------------------------------------------------------------

  datatype SourceDirectory = SourceDirectory(path: string, files: seq<string>)

  /** The files of one directory that are in scope, in their listed order. */
  function InspectedFiles(files: seq<string>, ie: IncludesExcludes): (r: seq<string>)
    ensures |r| <= |files|
    ensures forall f :: f in r <==> f in files && ShouldInspect(ie, f)
  {
    if files == [] then []
    else
      var init := InspectedFiles(files[..|files| - 1], ie);
      assert files == files[..|files| - 1] + [files[|files| - 1]];
      if ShouldInspect(ie, files[|files| - 1]) then init + [files[|files| - 1]] else init
  }

  /** Directory after directory, each directory's in-scope files. */
  function CollectedFiles(dirs: seq<SourceDirectory>, ie: IncludesExcludes): seq<string>
  {
    if dirs == [] then []
    else CollectedFiles(dirs[..|dirs| - 1], ie) + InspectedFiles(dirs[|dirs| - 1].files, ie)
  }

  /** Every file of the directories, directory after directory, each in its listed order. */
  function AllFiles(dirs: seq<SourceDirectory>): seq<string>
  {
    if dirs == [] then [] else AllFiles(dirs[..|dirs| - 1]) + dirs[|dirs| - 1].files
  }

  /** The filter keeps order: filtering a concatenation filters each part and concatenates. */
  lemma {:induction false} InspectedFilesAppend(a: seq<string>, b: seq<string>, ie: IncludesExcludes)
    ensures InspectedFiles(a + b, ie) == InspectedFiles(a, ie) + InspectedFiles(b, ie)
  {
    if b == [] {
      assert a + b == a;
    } else {
      var init := b[..|b| - 1];
      InspectedFilesAppend(a, init, ie);
      assert (a + b)[..|a + b| - 1] == a + init;
    }
  }

  /** Collecting directory by directory is filtering the whole listing at once, in its order. */
  lemma {:induction false} CollectedFilesIsFilteredListing(dirs: seq<SourceDirectory>, ie: IncludesExcludes)
    ensures CollectedFiles(dirs, ie) == InspectedFiles(AllFiles(dirs), ie)
  {
    if dirs != [] {
      CollectedFilesIsFilteredListing(dirs[..|dirs| - 1], ie);
      InspectedFilesAppend(AllFiles(dirs[..|dirs| - 1]), dirs[|dirs| - 1].files, ie);
    }
  }

  lemma {:induction false} CollectedFilesMembership(dirs: seq<SourceDirectory>, ie: IncludesExcludes, f: string)
    ensures f in CollectedFiles(dirs, ie) <==>
            ShouldInspect(ie, f) && exists d :: 0 <= d < |dirs| && f in dirs[d].files
  {
    if dirs != [] {
      var init := dirs[..|dirs| - 1];
      CollectedFilesMembership(init, ie, f);
      assert forall d :: 0 <= d < |init| ==> init[d] == dirs[d];
      if f in dirs[|dirs| - 1].files && ShouldInspect(ie, f) {
        assert f in InspectedFiles(dirs[|dirs| - 1].files, ie);
      }
    }
  }

  /** Gathers, directory by directory, the files that pass the scope filter. */
  method CollectFiles(dirs: seq<SourceDirectory>, ie: IncludesExcludes) returns (allJavaFiles: seq<string>)
    ensures allJavaFiles == CollectedFiles(dirs, ie)
    ensures allJavaFiles == InspectedFiles(AllFiles(dirs), ie)
    ensures forall f :: f in allJavaFiles <==>
              ShouldInspect(ie, f) && exists d :: 0 <= d < |dirs| && f in dirs[d].files
  {
    allJavaFiles := [];
    var d := 0;
    while d < |dirs|
      invariant 0 <= d <= |dirs|
      invariant allJavaFiles == CollectedFiles(dirs[..d], ie)
    {
      assert dirs[..d + 1][..d] == dirs[..d];
      allJavaFiles := allJavaFiles + InspectedFiles(dirs[d].files, ie);
      d := d + 1;
    }
    assert dirs[..d] == dirs;
    CollectedFilesIsFilteredListing(dirs, ie);
    forall f ensures f in allJavaFiles <==> ShouldInspect(ie, f) && exists d :: 0 <= d < |dirs| && f in dirs[d].files {
      CollectedFilesMembership(dirs, ie, f);
    }
  }
}
