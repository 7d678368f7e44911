# Weaving pipeline of the Java fixer, modelled in Dafny

The fixer parses Java sources, runs security rules ("visitors") over them,
runs text rules over other files such as `web.xml`, and merges what both
passes report. This project models three pieces of that pipeline and proves
what they promise:

- **Run bookkeeping** (`cli_run.dfy`, module `CliRun`). It covers the merge of
  two weaving results, which unions the changed-file sets and the
  unscannable-path sets by adding elements one at a time. It covers the loop
  that gathers, directory by directory, the source files that pass the
  include/exclude filter. It also covers the two decision rules the run's
  documentation states. A rule is active iff the default setting is "enabled"
  XOR the rule is in the exception list. A path is in scope iff the include
  list is empty or some include matches, and no matching exclude is strictly
  longer than the longest matching include.
- **The weak-PRNG rule** (`weak_prng.dfy`, module `WeakPrng`). A parsed file is
  reduced to its object-creation expressions (type name, argument count, first
  line) in an array. A node is selected iff it has no arguments and its type
  is `Random` or `java.util.Random`. The pass edits each selected node in place,
  giving it the type `java.security.SecureRandom`, and records one
  `Weave(line, "pixee:java/secure-random")` for it.
- **The verb-tampering rule** (`verb_tampering.dfy`, module `VerbTampering`).
  It applies only to files named `web.xml`, in any case. A hand-written matcher
  recognises the pattern `<http-method(\s*)>[a-zA-Z\s*]+</http-method>`. The
  rewrite replaces every match with `""`, left to right and without overlap.
  Its rule id is `pixee:java/verb-tampering-jakarta`.

`weaving.dfy` (module `Weaving`) holds the shared `Option` and `Weave` values.

Two properties one might expect do not hold, and the model says so. The
verb-tampering pass is not idempotent: removing an inner element can join its
neighbours into a new one (`VerbTampering.ReplaceMatchesNotIdempotent`). The
merge does not deduplicate changed files by path: two different records for one
path both survive it (`CliRun.MergeKeepsBothRecordsForOnePath`).

## Model

| member | source | states |
|---|---|---|
| `CliRun.Merged` | src/main/java/io/pixee/codefixer/java/JavaFixitCliRun.java:162-171 | the specification of the merge: each of its two sets is the union of the inputs' sets |
| `CliRun.AddAll` | src/main/java/io/pixee/codefixer/java/JavaFixitCliRun.java:163-169 | adding a collection element by element leaves the accumulator holding exactly its old elements and the added ones |
| `CliRun.Merge` | src/main/java/io/pixee/codefixer/java/JavaFixitCliRun.java:162-172 | a changed file or unscannable path is in the merge iff it is in one of the two inputs: nothing is lost and nothing is invented |
| `CliRun.MergeCommutes` | src/main/java/io/pixee/codefixer/java/JavaFixitCliRun.java:162-171 | the order of the two results does not matter |
| `CliRun.MergeWithEmpty` | src/main/java/io/pixee/codefixer/java/JavaFixitCliRun.java:162-171 | merging with an empty result, on either side, gives back the other result |
| `CliRun.MergeIdempotent` | src/main/java/io/pixee/codefixer/java/JavaFixitCliRun.java:163-171 | merging a result with itself gives the same sets: set semantics keep every record once |
| `CliRun.MergeAssociative` | src/main/java/io/pixee/codefixer/java/JavaFixitCliRun.java:162-171 | merging three results does not depend on grouping |
| `CliRun.MergeKeepsBothRecordsForOnePath` | src/main/java/io/pixee/codefixer/java/JavaFixitCliRun.java:156-161 | two different changed-file records for the same path both survive the merge, so the merge holds at least two entries for that path |
| `CliRun.MergeKeepsConsistency` | src/main/java/io/pixee/codefixer/java/JavaFixitCliRun.java:156-161 | when neither input reports as changed a path the other reports unscannable, no path is both changed and unscannable after the merge |
| `CliRun.MergeCanBreakConsistency` | src/main/java/io/pixee/codefixer/java/JavaFixitCliRun.java:156-161 | the merge does not enforce that: two consistent inputs can merge into a result where a path is both changed and unscannable |
| `CliRun.IsRuleActive` | src/main/java/io/pixee/codefixer/java/JavaFixitCliRun.java:45-47 | a rule is active iff the default setting is "enabled" XOR the rule is among the exceptions |
| `CliRun.RuleActiveIffDefaultXorException` | src/main/java/io/pixee/codefixer/java/JavaFixitCliRun.java:45-47 | a rule in the exception list has the opposite of the default setting; any other rule has the default |
| `CliRun.RuleSettingExamples` | src/main/java/io/pixee/codefixer/java/JavaFixitCliRun.java:45-47 | default enabled with exception `rule:x`: `rule:x` off and `rule:y` on; default disabled: the reverse |
| `CliRun.LongestMatch` | src/main/java/io/pixee/codefixer/java/JavaFixitCliRun.java:42-43 | None iff no pattern matches the path; otherwise the length of a matching pattern that no other matching pattern exceeds |
| `CliRun.ShouldInspect` | src/main/java/io/pixee/codefixer/java/JavaFixitCliRun.java:42-51 | a path is in scope iff the include list is empty or an include matches, and the longest matching exclude, if any, is no longer than the longest matching include |
| `CliRun.ShouldInspectByPatterns` | src/main/java/io/pixee/codefixer/java/JavaFixitCliRun.java:42-51 | a path is in scope iff (the include list is empty or an include matches) and every matching exclude is no longer than some matching include |
| `CliRun.NoPatternsInspectEverything` | src/main/java/io/pixee/codefixer/java/JavaFixitCliRun.java:50-51 | with empty include and exclude lists every path is in scope |
| `CliRun.IncludeWinsTies` | src/main/java/io/pixee/codefixer/java/JavaFixitCliRun.java:42-43 | when an include and an exclude both match, the path is in scope iff the exclude's path is not strictly longer |
| `CliRun.ScopeExamples` | src/main/java/io/pixee/codefixer/java/JavaFixitCliRun.java:42-43 | include `src/app/` beats exclude `src/` for `src/app/Main.x`; exclude `src/legacy/` beats include `src/` for `src/legacy/Old.x` |
| `CliRun.InspectedFiles` | src/main/java/io/pixee/codefixer/java/JavaFixitCliRun.java:100-102 | the filtered stream holds exactly the directory's files that pass the scope filter, and is no longer than the directory's list |
| `CliRun.InspectedFilesAppend` | src/main/java/io/pixee/codefixer/java/JavaFixitCliRun.java:100-102 | the filter keeps order: filtering a concatenation gives the filtered parts, concatenated in the same order |
| `CliRun.AllFiles` | src/main/java/io/pixee/codefixer/java/JavaFixitCliRun.java:97-100 | the files of the source directories, directory after directory, each in its listed order |
| `CliRun.CollectedFiles` | src/main/java/io/pixee/codefixer/java/JavaFixitCliRun.java:96-102 | the collected list: for each directory in turn, its in-scope files appended in their order |
| `CliRun.CollectedFilesIsFilteredListing` | src/main/java/io/pixee/codefixer/java/JavaFixitCliRun.java:96-102 | collecting directory by directory gives exactly the in-scope files of the whole listing, in the listing's order |
| `CliRun.CollectedFilesMembership` | src/main/java/io/pixee/codefixer/java/JavaFixitCliRun.java:96-102 | a file is collected iff it is in scope and listed in some source directory |
| `CliRun.CollectFiles` | src/main/java/io/pixee/codefixer/java/JavaFixitCliRun.java:96-102 | the loop yields directory after directory, each directory's in-scope files in order, and exactly the in-scope files of the directories |
| `WeakPrng.IsWeakRandomCreation` | src/main/java/io/pixee/codefixer/java/protections/WeakPRNGVisitorFactory.java:28-32 | a node is selected iff it has no arguments and its type is `Random` or `java.util.Random` |
| `WeakPrng.Rewrite` | src/main/java/io/pixee/codefixer/java/protections/WeakPRNGVisitorFactory.java:37-39 | a selected node gets the type `java.security.SecureRandom` and keeps everything else; any other node is left as it is |
| `WeakPrng.Rewritten` | src/main/java/io/pixee/codefixer/java/protections/WeakPRNGVisitorFactory.java:28-46 | the node sequence after a pass: the same length, each node replaced by its rewrite |
| `WeakPrng.WeavesFor` | src/main/java/io/pixee/codefixer/java/protections/WeakPRNGVisitorFactory.java:40-42 | the weaves of a pass: for each selected node in traversal order, one weave with its line and `pixee:java/secure-random` |
| `WeakPrng.Transform` | src/main/java/io/pixee/codefixer/java/protections/WeakPRNGVisitorFactory.java:37-43 | the node's type becomes `java.security.SecureRandom` in place, nothing else in the array changes, no replacement node is requested, and the weave carries the node's line and the rule id |
| `WeakPrng.WeavePass` | src/main/java/io/pixee/codefixer/java/protections/WeakPRNGVisitorFactory.java:28-46 | after the pass each node is its rewrite and the weaves are those of the selected nodes, in traversal order |
| `WeakPrng.RewrittenChangesOnlySelected` | src/main/java/io/pixee/codefixer/java/protections/WeakPRNGVisitorFactory.java:28-39 | a selected node gets the secure type and keeps its argument count and line; an unselected node is untouched |
| `WeakPrng.NothingSelectedNoWeaves` | src/main/java/io/pixee/codefixer/java/protections/WeakPRNGVisitorFactory.java:28-32 | a pass over nodes none of which is selected records no weave |
| `WeakPrng.SecondPassSelectsNothing` | src/main/java/io/pixee/codefixer/java/protections/WeakPRNGVisitorFactory.java:28-39 | after one pass no node is selected, a second pass changes nothing and records nothing |
| `WeakPrng.WeavesAreSound` | src/main/java/io/pixee/codefixer/java/protections/WeakPRNGVisitorFactory.java:40-41 | every weave carries the rule id `pixee:java/secure-random` and the line of a selected node |
| `WeakPrng.WeavesAreComplete` | src/main/java/io/pixee/codefixer/java/protections/WeakPRNGVisitorFactory.java:28-41 | every selected node's line is recorded in a weave with the rule id |
| `WeakPrng.OneWeavePerSelectedNode` | src/main/java/io/pixee/codefixer/java/protections/WeakPRNGVisitorFactory.java:37-42 | the number of weaves equals the number of selected nodes |
| `WeakPrng.ThreeSitesExample` | src/main/java/io/pixee/codefixer/java/protections/WeakPRNGVisitorFactory.java:28-41 | three zero-argument `Random` creations among other creations give exactly three weaves, with their lines, in order |
| `VerbTampering.EqualsIgnoreCase` | src/main/java/io/pixee/codefixer/java/protections/VerbTamperingVisitor.java:15 | two names are equal ignoring case iff they have the same length and agree at every position once ASCII letters are folded to lower case |
| `VerbTampering.AppliesTo` | src/main/java/io/pixee/codefixer/java/protections/VerbTamperingVisitor.java:15 | the rule applies to a file iff its name equals `web.xml` ignoring case |
| `VerbTampering.AppliesToIgnoresCase` | src/main/java/io/pixee/codefixer/java/protections/VerbTamperingVisitor.java:15 | names that differ only in letter case are both accepted or both refused |
| `VerbTampering.AppliesToExamples` | src/main/java/io/pixee/codefixer/java/protections/VerbTamperingVisitor.java:15 | `web.xml`, `WEB.XML` and `Web.Xml` pass the gate; `web.xml.bak`, `webxxml` and the empty name do not |
| `VerbTampering.ElementShape` | src/main/java/io/pixee/codefixer/java/protections/VerbTamperingVisitor.java:28-30 | the shape of one match: `<http-method`, whitespace, `>`, a non-empty run of letters, whitespace and `*`, then `</http-method>` ending the text |
| `VerbTampering.IsHttpMethodElement` | src/main/java/io/pixee/codefixer/java/protections/VerbTamperingVisitor.java:28-30 | a text is one match of the pattern iff it has that shape for some position of `>` and of the closing tag |
| `VerbTampering.SkipWhile` | src/main/java/io/pixee/codefixer/java/protections/VerbTamperingVisitor.java:29-30 | the end of the longest run of characters of one class from a position, as a greedy quantifier consumes it |
| `VerbTampering.ElementAt` | src/main/java/io/pixee/codefixer/java/protections/VerbTamperingVisitor.java:28-30 | what the matcher finds at the front of a text is non-empty and is exactly one match of the pattern |
| `VerbTampering.ElementAtComplete` | src/main/java/io/pixee/codefixer/java/protections/VerbTamperingVisitor.java:28-30 | any match at the front of a text is found, whole: the matcher accepts exactly the pattern's shape |
| `VerbTampering.ElementDeterminedByStart` | src/main/java/io/pixee/codefixer/java/protections/VerbTamperingVisitor.java:29-30 | two matches starting at the same place have the same length |
| `VerbTampering.OnlyTagsOpenInElement` | src/main/java/io/pixee/codefixer/java/protections/VerbTamperingVisitor.java:29-30 | inside a match `<` occurs only at the start and at the closing tag, so a match ends at the first following `</http-method>` |
| `VerbTampering.GetReplacementFor` | src/main/java/io/pixee/codefixer/java/protections/VerbTamperingVisitor.java:24-26 | every match is replaced by the empty string |
| `VerbTampering.ReplaceMatches` | src/main/java/io/pixee/codefixer/java/protections/VerbTamperingVisitor.java:24-30 | the rewritten text is never longer than the input |
| `VerbTampering.SegmentsIsScan` | src/main/java/io/pixee/codefixer/java/protections/VerbTamperingVisitor.java:28-30 | every text has a left-to-right scan: each piece is either a character where no match starts or a whole match |
| `VerbTampering.ScanTiles` | src/main/java/io/pixee/codefixer/java/protections/VerbTamperingVisitor.java:28-30 | the pieces of a scan join back to the text, and its length is the kept characters plus the removed matches |
| `VerbTampering.ScanIsUnique` | src/main/java/io/pixee/codefixer/java/protections/VerbTamperingVisitor.java:28-30 | a text has only one left-to-right scan |
| `VerbTampering.ReplaceMatchesKeepsScanText` | src/main/java/io/pixee/codefixer/java/protections/VerbTamperingVisitor.java:24-30 | the output is the scan's kept characters in their order, every match being replaced by the empty string, and it is shorter than the input by exactly the removed matches' total length |
| `VerbTampering.NoMatchUnchanged` | src/main/java/io/pixee/codefixer/java/protections/VerbTamperingVisitor.java:24-30 | a text in which no match occurs is returned unchanged |
| `VerbTampering.KeepsPrefixWithoutElements` | src/main/java/io/pixee/codefixer/java/protections/VerbTamperingVisitor.java:24-30 | characters at which no match starts are copied to the output as they are |
| `VerbTampering.ReplaceMatchesWholeElement` | src/main/java/io/pixee/codefixer/java/protections/VerbTamperingVisitor.java:24-30 | `<http-method>GET</http-method>` is removed entirely |
| `VerbTampering.ReplaceMatchesKeepsSurroundings` | src/main/java/io/pixee/codefixer/java/protections/VerbTamperingVisitor.java:28-30 | an element with a space before `>` and `*` in its body is removed and the text before it stays |
| `VerbTampering.ReplaceMatchesNotIdempotent` | src/main/java/io/pixee/codefixer/java/protections/VerbTamperingVisitor.java:24-30 | removing an inner element can join its neighbours into a new one: a second pass over the output still removes something |

## Left out

- Logging setup, log calls, the stopwatch, report generation and writing the JSON report: I/O and library plumbing with no logic to model.
- SARIF inputs: they are passed through unread to the visitor assembly.
- The directory lister, the Java source weaver, the file weaver, the visitor assembler and the report generator are not part of this model. Their code is not available. The model starts from the lister's result, a sequence of directories with their files, and ends at the merge of the two weavers' results.
- How an include or exclude pattern matches a path is not part of this model either; its code is not available. Each pattern is a `matches` predicate on the path relative to the repository root, plus the matched path whose length decides ties.
- `RuleContext` is modelled only by the documented rule. Its exception list is kept as a sequence of rule ids.
- The record shapes of `ChangedFile` and `WeavingResult` are assumed: a path, the new content and the weaves; a set of changed files and a set of unscannable paths.
- JavaParser's syntax tree and its traversal are replaced by a flat array of object-creation nodes in traversal order. Types are compared by their written name, as the `withType` predicates are given names. The per-file weaving context is not modelled.
- How the text visitor records weaves for its matches, and what its fourth constructor argument means, are not part of this model. Only the rewritten text is modelled.
- The text visitor's base class is not part of this model; its code is not available. That it replaces every match, leftmost first and without overlap, is an assumption: `VerbTampering.ReplaceMatches` gives it the semantics of Java's `Matcher.replaceAll`.
- `WeakPrng.Transform` cannot fail, unlike the source. The source reads the node's line with `getRange().get()`, which throws `NoSuchElementException` for a node without a source range, such as one an earlier rule inserted into the tree. Every modelled node has a line.
- Null include or exclude lists are not modelled; the model has no null. The run's documentation says a null list means all files are scanned. But `run` calls `size()` on both lists before it builds the filter, so a null list throws there. The model covers the empty lists, which do mean all files.
- `File.getName()` is not modelled: the gate takes the file's name directly.
- `equalsIgnoreCase` is modelled by folding ASCII letters. For the fixed name `web.xml` this gives the same answer as Java's comparison, because no non-ASCII character changes case into one of its letters.
- The `MULTILINE` and `DOTALL` flags have no effect on this pattern, which uses neither anchors nor `.`.
- Idempotence of the verb-tampering rewrite is not claimed. It does not hold, as `VerbTampering.ReplaceMatchesNotIdempotent` shows.
- Both rule ids are constants of the model (`WeakPrng.SecureRandomRuleId`, `VerbTampering.VerbTamperingRuleId`). The weak-PRNG one is stated in the weave lemmas; the verb-tampering one is not used, since its weaves are not modelled.
