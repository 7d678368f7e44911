/**
 * The rule that removes `<http-method>` entries from `web.xml` files, so that a
 * security constraint applies to every HTTP verb rather than to the listed ones.
 * The pattern `<http-method(\s*)>[a-zA-Z\s*]+</http-method>` is matched by hand,
 * and every match is replaced by the empty string, left to right.
 */
module VerbTampering {
  import opened Weaving

  const VerbTamperingRuleId := "pixee:java/verb-tampering-jakarta"
  const WebXml := "web.xml"
  const OpenTag := "<http-method"
  const CloseTag := "</http-method>"

  // ---------------------------------------------------------------------------
  // The file gate
  // ---------------------------------------------------------------------------

  function ToLowerAscii(c: char): char
  {
    if 'A' <= c <= 'Z' then (c as int + 32) as char else c
  }

  /** Character-by-character equality up to the case of ASCII letters. */
  predicate EqualsIgnoreCase(a: string, b: string)
  {
    |a| == |b| && forall i :: 0 <= i < |a| ==> ToLowerAscii(a[i]) == ToLowerAscii(b[i])
  }

  /** The rule only looks at files named `web.xml`, in any case. */
  predicate AppliesTo(fileName: string)
  {
    EqualsIgnoreCase(WebXml, fileName)
  }

  /** The gate does not depend on case: names that differ only in case are treated alike. */
  lemma AppliesToIgnoresCase(a: string, b: string)
    requires EqualsIgnoreCase(a, b)
    ensures AppliesTo(a) <==> AppliesTo(b)
  {
  }

  lemma AppliesToExamples()
    ensures AppliesTo("web.xml") && AppliesTo("WEB.XML") && AppliesTo("Web.Xml")
    ensures !AppliesTo("web.xml.bak") && !AppliesTo("webxxml") && !AppliesTo("")
  {
    assert ToLowerAscii("webxxml"[3]) != ToLowerAscii(WebXml[3]);
  }

  // ---------------------------------------------------------------------------
  // The pattern
  // ---------------------------------------------------------------------------

  /** Java's `\s`: space, tab, newline, vertical tab, form feed, carriage return. */
  predicate IsSpace(c: char)
  {
    c == ' ' || c == '\t' || c == '\n' || c as int == 0x0B || c as int == 0x0C || c == '\r'
  }

  predicate IsAsciiLetter(c: char)
  {
    'a' <= c <= 'z' || 'A' <= c <= 'Z'
  }

  /** The class `[a-zA-Z\s*]` of the element's body. */
  predicate IsBodyChar(c: char)
  {
    IsAsciiLetter(c) || IsSpace(c) || c == '*'
  }

  /**
   * `m` is an element whose `>` is at `j` and whose closing tag starts at `k`:
   * the opening tag's name, spaces, `>`, a non-empty body, the closing tag.
   */
  predicate ElementShape(m: string, j: int, k: int)
  {
    |OpenTag| <= j && j + 1 < k && k + |CloseTag| == |m| &&
    m[..|OpenTag|] == OpenTag &&
    (forall i :: |OpenTag| <= i < j ==> IsSpace(m[i])) &&
    m[j] == '>' &&
    (forall i :: j < i < k ==> IsBodyChar(m[i])) &&
    m[k..] == CloseTag
  }

  /** `m` is exactly one match of the pattern. */
  ghost predicate IsHttpMethodElement(m: string)
  {
    exists j, k :: ElementShape(m, j, k)
  }

  /** The end of the longest run of characters satisfying `p` that starts at `k`. */
  function SkipWhile(s: string, k: nat, p: char -> bool): (j: nat)
    requires k <= |s|
    ensures k <= j <= |s|
    ensures forall m :: k <= m < j ==> p(s[m])
    ensures j == |s| || !p(s[j])
    decreases |s| - k
  {
    if k == |s| || !p(s[k]) then k else SkipWhile(s, k + 1, p)
  }

  lemma SkipWhileStopsAt(s: string, k: nat, e: nat, p: char -> bool)
    requires k <= e < |s|
    requires forall m :: k <= m < e ==> p(s[m])
    requires !p(s[e])
    ensures SkipWhile(s, k, p) == e
  {
  }

  /** The length of the element at the very front of `t`, or None when no element starts there. */
  function ElementAt(t: string): (r: Option<nat>)
    ensures r.Some? ==> 0 < r.value <= |t| && IsHttpMethodElement(t[..r.value])
  {
    if !(OpenTag <= t) then None
    else
      var j := SkipWhile(t, |OpenTag|, IsSpace);
      if j == |t| || t[j] != '>' then None
      else
        var k := SkipWhile(t, j + 1, IsBodyChar);
        if k == j + 1 || !(CloseTag <= t[k..]) then None
        else
          ElementShapeFromText(t, j, k);
          Some(k + |CloseTag|)
  }

  /** An element read off `t`, piece by piece, is an element at the front of `t`. */
  lemma ElementShapeFromText(t: string, j: nat, k: nat)
    requires |OpenTag| <= j && j + 1 < k <= |t| && OpenTag <= t
    requires forall i :: |OpenTag| <= i < j ==> IsSpace(t[i])
    requires t[j] == '>'
    requires forall i :: j < i < k ==> IsBodyChar(t[i])
    requires CloseTag <= t[k..]
    ensures k + |CloseTag| <= |t| && IsHttpMethodElement(t[..k + |CloseTag|])
  {
    var m := t[..k + |CloseTag|];
    assert m[..|OpenTag|] == t[..|OpenTag|];
    assert m[k..] == t[k..][..|CloseTag|];
    assert ElementShape(m, j, k);
  }

  /** Nothing but an element is found, and an element at the front is always found, whole. */
  lemma ElementAtComplete(t: string, n: nat)
    requires n <= |t| && IsHttpMethodElement(t[..n])
    ensures ElementAt(t) == Some(n)
  {
    var j, k :| ElementShape(t[..n], j, k);
    ElementShapeInText(t, n, j, k);
    SkipWhileStopsAt(t, |OpenTag|, j, IsSpace);
    SkipWhileStopsAt(t, j + 1, k, IsBodyChar);
  }

  /** The shape of an element at the front of `t`, read off `t` itself. */
  lemma ElementShapeInText(t: string, n: nat, j: int, k: int)
    requires n <= |t| && ElementShape(t[..n], j, k)
    ensures OpenTag <= t && k + |CloseTag| == n && |OpenTag| <= j && j + 1 < k
    ensures forall i :: |OpenTag| <= i < j ==> IsSpace(t[i])
    ensures t[j] == '>' && !IsSpace(t[j])
    ensures forall i :: j < i < k ==> IsBodyChar(t[i])
    ensures t[k] == '<' && !IsBodyChar(t[k])
    ensures CloseTag <= t[k..]
  {
    var m := t[..n];
    assert t[..|OpenTag|] == m[..|OpenTag|];
    assert m[k..][0] == '<';
    assert t[k..][..|CloseTag|] == m[k..];
  }

  /** A match is determined by where it starts. */
  lemma ElementDeterminedByStart(t: string, n1: nat, n2: nat)
    requires n1 <= |t| && n2 <= |t|
    requires IsHttpMethodElement(t[..n1]) && IsHttpMethodElement(t[..n2])
    ensures n1 == n2
  {
    ElementAtComplete(t, n1);
    ElementAtComplete(t, n2);
  }

  /** Inside a match, `<` only opens the two tags, so the match ends at the first closing tag. */
  lemma OnlyTagsOpenInElement(m: string)
    requires IsHttpMethodElement(m)
    ensures m[0] == '<' && m[1] == 'h' && m[|m| - |CloseTag|] == '<'
    ensures forall i :: 0 < i < |m| && m[i] == '<' ==> i == |m| - |CloseTag|
  {
    var j, k :| ElementShape(m, j, k);
    assert m[..|OpenTag|][0] == '<' && m[..|OpenTag|][1] == 'h';
    assert m[k..][0] == '<';
    forall i | 0 < i < |m| ensures m[i] == '<' ==> i == k {
      if i < |OpenTag| {
        assert m[i] == m[..|OpenTag|][i] == OpenTag[i];
      } else if k < i {
        assert m[i] == m[k..][i - k] == CloseTag[i - k];
      }
    }
  }

  // ---------------------------------------------------------------------------
  // The rewrite
  // ---------------------------------------------------------------------------

  /** Every match is replaced by nothing. */
  function GetReplacementFor(matchingSnippet: string): string
  {
    ""
  }

  /** Replaces, left to right and without overlap, every match in `s` by its replacement. */
  function ReplaceMatches(s: string): (r: string)
    ensures |r| <= |s|
    decreases |s|
  {
    if s == [] then []
    else match ElementAt(s)
      case Some(n) => GetReplacementFor(s[..n]) + ReplaceMatches(s[n..])
      case None => [s[0]] + ReplaceMatches(s[1..])
  }

  /** A piece of the input as a left-to-right scan sees it. */
  datatype Segment = Kept(c: char) | Removed(element: string)

  /** No match starts at the front of `s`. */
  ghost predicate NoElementAtStart(s: string)
  {
    forall n :: 0 < n <= |s| ==> !IsHttpMethodElement(s[..n])
  }

  /**
   * `segs` is a left-to-right scan of `s`: a character is kept where no match
   * starts, and a whole match is removed where one starts.
   */
  ghost predicate IsScan(s: string, segs: seq<Segment>)
    decreases |segs|
  {
    if segs == [] then s == []
    else match segs[0]
      case Kept(c) => s != [] && s[0] == c && NoElementAtStart(s) && IsScan(s[1..], segs[1..])
      case Removed(e) => |e| <= |s| && s[..|e|] == e && IsHttpMethodElement(e) && IsScan(s[|e|..], segs[1..])
  }

  /** The text of all segments, in order. */
  function Text(segs: seq<Segment>): string
  {
    if segs == [] then []
    else (match segs[0] case Kept(c) => [c] case Removed(e) => e) + Text(segs[1..])
  }

  /** The text of the kept segments, in order. */
  function KeptText(segs: seq<Segment>): string
  {
    if segs == [] then []
    else (match segs[0] case Kept(c) => [c] case Removed(_) => []) + KeptText(segs[1..])
  }

  /** The number of characters in removed segments. */
  function RemovedLength(segs: seq<Segment>): nat
  {
    if segs == [] then 0
    else (match segs[0] case Kept(_) => 0 case Removed(e) => |e|) + RemovedLength(segs[1..])
  }

  /** The scan the rewrite performs. */
  function Segments(s: string): seq<Segment>
    decreases |s|
  {
    if s == [] then []
    else match ElementAt(s)
      case Some(n) => [Removed(s[..n])] + Segments(s[n..])
      case None => [Kept(s[0])] + Segments(s[1..])
  }

  lemma NoElementAtStartIfNotFound(s: string)
    requires ElementAt(s).None?
    ensures NoElementAtStart(s)
  {
    forall n | 0 < n <= |s| ensures !IsHttpMethodElement(s[..n]) {
      if IsHttpMethodElement(s[..n]) {
        ElementAtComplete(s, n);
      }
    }
  }

  /** Every input has a scan. */
  lemma {:induction false} SegmentsIsScan(s: string)
    ensures IsScan(s, Segments(s))
    decreases |s|
  {
    if s != [] {
      match ElementAt(s)
      case Some(n) =>
        SegmentsIsScan(s[n..]);
      case None =>
        NoElementAtStartIfNotFound(s);
        SegmentsIsScan(s[1..]);
    }
  }

  /** A scan cuts its input into pieces that join back to it. */
  lemma {:induction false} ScanTiles(s: string, segs: seq<Segment>)
    requires IsScan(s, segs)
    ensures Text(segs) == s
    ensures |s| == |KeptText(segs)| + RemovedLength(segs)
    decreases |segs|
  {
    if segs != [] {
      match segs[0]
      case Kept(c) =>
        ScanTiles(s[1..], segs[1..]);
        assert s == [c] + s[1..];
      case Removed(e) =>
        ScanTiles(s[|e|..], segs[1..]);
        assert s == e + s[|e|..];
    }
  }

  /** Any two scans of the same input agree. */
  lemma {:induction false} ScanIsUnique(s: string, a: seq<Segment>, b: seq<Segment>)
    requires IsScan(s, a) && IsScan(s, b)
    ensures a == b
    decreases |a|
  {
    if a != [] && b != [] {
      match a[0] {
        case Kept(c) =>
          match b[0] {
            case Kept(_) =>
              ScanIsUnique(s[1..], a[1..], b[1..]);
            case Removed(_) =>
          }
        case Removed(e) =>
          match b[0] {
            case Kept(_) =>
            case Removed(e2) =>
              assert s[..|e|] == e && s[..|e2|] == e2;
              ElementDeterminedByStart(s, |e|, |e2|);
              ScanIsUnique(s[|e|..], a[1..], b[1..]);
          }
      }
    }
  }

  /** The rewrite keeps exactly the kept characters of the scan, in order. */
  lemma {:induction false} ReplaceMatchesKeepsScanText(s: string, segs: seq<Segment>)
    requires IsScan(s, segs)
    ensures ReplaceMatches(s) == KeptText(segs)
    ensures |ReplaceMatches(s)| == |s| - RemovedLength(segs)
    decreases |segs|
  {
    ScanTiles(s, segs);
    if segs != [] {
      match segs[0]
      case Kept(c) =>
        ReplaceMatchesKeepsScanText(s[1..], segs[1..]);
      case Removed(e) =>
        assert s[..|e|] == e;
        ElementAtComplete(s, |e|);
        ReplaceMatchesKeepsScanText(s[|e|..], segs[1..]);
    }
  }

  /** A text in which no match occurs anywhere is returned unchanged. */
  lemma {:induction false} NoMatchUnchanged(s: string)
    requires forall i, n :: 0 <= i < n <= |s| ==> !IsHttpMethodElement(s[i..n])
    ensures ReplaceMatches(s) == s
    decreases |s|
  {
    if s != [] {
      forall n | 0 < n <= |s| ensures !IsHttpMethodElement(s[..n]) {
        assert s[0..n] == s[..n];
      }
      forall i, n | 0 <= i < n <= |s[1..]| ensures !IsHttpMethodElement(s[1..][i..n]) {
        assert s[1..][i..n] == s[i + 1..n + 1];
      }
      NoMatchUnchanged(s[1..]);
    }
  }

  // The examples below take their texts as parameters fixed by `requires`: written
  // inline, the literals would make the verifier unfold the matcher character by
  // character and spend far more effort on each example.

  /** A whole element disappears. */
  lemma ReplaceMatchesWholeElement(e: string)
    requires e == "<http-method>GET</http-method>"
    ensures ReplaceMatches(e) == ""
  {
    assert ElementShape(e, 12, 16);
    assert e[..|e|] == e;
    ElementAtComplete(e, |e|);
    assert e[|e|..] == [];
  }

  /** An element with spaces and `*` in it disappears; the text before it stays. */
  lemma ReplaceMatchesKeepsSurroundings(e: string)
    requires e == "<http-method >P*T</http-method>"
    ensures ReplaceMatches("a" + e) == "a"
  {
    var s := "a" + e;
    assert ElementShape(e, 13, 17);
    assert e[..|e|] == e;
    ElementAtComplete(e, |e|);
    assert e[|e|..] == [];
    assert s[1..] == e;
    assert !(OpenTag <= s) by { assert s[0] != OpenTag[0]; }
  }

  /** Characters at which no element starts are kept as they are. */
  lemma {:induction false} KeepsPrefixWithoutElements(p: string, t: string)
    requires forall i :: 0 <= i < |p| ==> ElementAt((p + t)[i..]).None?
    ensures ReplaceMatches(p + t) == p + ReplaceMatches(t)
    decreases |p|
  {
    if p != [] {
      assert ElementAt((p + t)[0..]).None?;
      assert (p + t)[0..] == p + t;
      assert (p + t)[1..] == p[1..] + t;
      forall i | 0 <= i < |p[1..]| ensures ElementAt((p[1..] + t)[i..]).None? {
        assert (p[1..] + t)[i..] == (p + t)[i + 1..];
      }
      KeepsPrefixWithoutElements(p[1..], t);
    }
  }

  /** Every element starts with `<h`. */
  lemma ElementStartsWithTag(m: string)
    ensures IsHttpMethodElement(m) ==> |m| > 1 && m[0] == '<' && m[1] == 'h'
  {
    if IsHttpMethodElement(m) {
      OnlyTagsOpenInElement(m);
    }
  }

  /** No element starts where the text does not start with the opening tag. */
  lemma NoElementWithoutOpenTag(t: string)
    requires |t| > 6 && (t[0] != '<' || t[6] != 'm')
    ensures ElementAt(t).None?
  {
    assert !(OpenTag <= t) by { assert OpenTag[0] == '<' && OpenTag[6] == 'm'; }
  }

  /** The text after the inner element of the nested example holds no element. */
  lemma NestedExampleTail(rest: string)
    requires rest == "method>GET</http-method>"
    ensures ReplaceMatches(rest) == rest
  {
    forall i, n | 0 <= i < n <= |rest| ensures !IsHttpMethodElement(rest[i..n]) {
      ElementStartsWithTag(rest[i..n]);
    }
    NoMatchUnchanged(rest);
  }

  /** The text before the inner element of the nested example is kept. */
  lemma NestedExampleHead(head: string, t: string)
    requires head == "<http-" && |t| > 6 && t[0] == '<'
    ensures ReplaceMatches(head + t) == head + ReplaceMatches(t)
  {
    var s := head + t;
    forall i | 0 <= i < 6 ensures ElementAt(s[i..]).None? {
      assert s[i..][0] == head[i] && s[i..][6] == s[i + 6];
      assert s[6] == '<';
      NoElementWithoutOpenTag(s[i..]);
    }
    KeepsPrefixWithoutElements(head, t);
  }

  /** The nested example with its inner element removed. */
  lemma NestedExampleInner(inner: string, rest: string)
    requires inner == "<http-method>GET</http-method>"
    ensures ReplaceMatches(inner + rest) == ReplaceMatches(rest)
  {
    assert ElementShape(inner, 12, 16);
    assert (inner + rest)[..|inner|] == inner;
    ElementAtComplete(inner + rest, |inner|);
    assert (inner + rest)[|inner|..] == rest;
  }

  /**
   * Removing an inner element can join its neighbours into a new element: in
   * `<http-<http-method>GET</http-method>method>GET</http-method>` the pass
   * removes the inner element, and a second pass removes what is left.
   */
  lemma ReplaceMatchesNotIdempotent(inner: string, rest: string)
    requires inner == "<http-method>GET</http-method>"
    requires rest == "method>GET</http-method>"
    ensures ReplaceMatches("<http-" + (inner + rest)) == inner
    ensures ReplaceMatches(ReplaceMatches("<http-" + (inner + rest))) == ""
  {
    NestedExampleHead("<http-", inner + rest);
    NestedExampleInner(inner, rest);
    NestedExampleTail(rest);
    NeighboursJoin(inner, rest);
    ReplaceMatchesWholeElement(inner);
  }

  lemma NeighboursJoin(inner: string, rest: string)
    requires inner == "<http-method>GET</http-method>"
    requires rest == "method>GET</http-method>"
    ensures "<http-" + rest == inner
  {
  }
}
