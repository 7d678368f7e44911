/**
 * The rule that replaces `new Random()` with `new java.security.SecureRandom()`.
 * A parsed file is reduced to the object-creation expressions it contains, in
 * traversal order; each is rewritten in place.
 */
module WeakPrng {
  import opened Weaving

  const SecureRandomRuleId := "pixee:java/secure-random"
  const SecureRandomType := "java.security.SecureRandom"

  /** An object-creation expression: the written type name, the number of arguments and its first line. */
  datatype ObjectCreation = ObjectCreation(typeName: string, argumentCount: nat, beginLine: int)

  predicate WithArgumentCount(node: ObjectCreation, count: nat)
  {
    node.argumentCount == count
  }

  predicate WithType(node: ObjectCreation, typeName: string)
  {
    node.typeName == typeName
  }

  /** Both predicates of the rule hold: no arguments, and the type is `Random` or `java.util.Random`. */
  predicate IsWeakRandomCreation(node: ObjectCreation)
  {
    WithArgumentCount(node, 0) && (WithType(node, "Random") || WithType(node, "java.util.Random"))
  }

  /** What the transformer hands back: an optional replacement node and the weave it records. */
  datatype TransformationResult = TransformationResult(replacement: Option<ObjectCreation>, weave: Weave)

  /** The node as the rule leaves it. */
  function Rewrite(node: ObjectCreation): ObjectCreation
  {
    if IsWeakRandomCreation(node) then node.(typeName := SecureRandomType) else node
  }

  function Rewritten(nodes: seq<ObjectCreation>): (r: seq<ObjectCreation>)
    ensures |r| == |nodes|
  {
    seq(|nodes|, k requires 0 <= k < |nodes| => Rewrite(nodes[k]))
  }

  /** The weaves a pass over `nodes` records, in traversal order. */
  function WeavesFor(nodes: seq<ObjectCreation>): seq<Weave>
  {
    if nodes == [] then []
    else
      var last := nodes[|nodes| - 1];
      WeavesFor(nodes[..|nodes| - 1]) +
      (if IsWeakRandomCreation(last) then [Weave(last.beginLine, SecureRandomRuleId)] else [])
  }

  /** The positions of the selected nodes. */
  function SelectedPositions(nodes: seq<ObjectCreation>): set<nat>
  {
    set k: nat | k < |nodes| && IsWeakRandomCreation(nodes[k])
  }

  /** Rewrites the selected node at `i` in place and reports the weave; no replacement node. */
  method Transform(nodes: array<ObjectCreation>, i: nat) returns (t: TransformationResult)
    requires i < nodes.Length
    modifies nodes
    ensures nodes[..] == old(nodes[..])[i := old(nodes[i]).(typeName := SecureRandomType)]
    ensures t == TransformationResult(None, Weave(old(nodes[i]).beginLine, SecureRandomRuleId))
  {
    nodes[i] := nodes[i].(typeName := SecureRandomType);
    var weave := Weave(nodes[i].beginLine, SecureRandomRuleId);
    t := TransformationResult(None, weave);
  }

  /** Visits every node in order; each one both predicates select is transformed. */
  method WeavePass(nodes: array<ObjectCreation>) returns (weaves: seq<Weave>)
    modifies nodes
    ensures nodes[..] == Rewritten(old(nodes[..]))
    ensures weaves == WeavesFor(old(nodes[..]))
  {
    weaves := [];
    var i := 0;
    while i < nodes.Length
      invariant 0 <= i <= nodes.Length
      invariant forall k :: 0 <= k < i ==> nodes[k] == Rewrite(old(nodes[k]))
      invariant forall k :: i <= k < nodes.Length ==> nodes[k] == old(nodes[k])
      invariant weaves == WeavesFor(old(nodes[..])[..i])
    {
      assert old(nodes[..])[..i + 1][..i] == old(nodes[..])[..i];
      if IsWeakRandomCreation(nodes[i]) {
        var t := Transform(nodes, i);
        weaves := weaves + [t.weave];
      }
      i := i + 1;
    }
    assert old(nodes[..])[..i] == old(nodes[..]);
  }

  /** A selected node gets the secure type and keeps its arguments and line; no other node changes. */
  lemma RewrittenChangesOnlySelected(nodes: seq<ObjectCreation>, k: nat)
    requires k < |nodes|
    ensures IsWeakRandomCreation(nodes[k]) ==>
              Rewritten(nodes)[k].typeName == SecureRandomType &&
              Rewritten(nodes)[k].argumentCount == nodes[k].argumentCount &&
              Rewritten(nodes)[k].beginLine == nodes[k].beginLine
    ensures !IsWeakRandomCreation(nodes[k]) ==> Rewritten(nodes)[k] == nodes[k]
  {
  }

  lemma {:induction false} NothingSelectedNoWeaves(nodes: seq<ObjectCreation>)
    requires forall k :: 0 <= k < |nodes| ==> !IsWeakRandomCreation(nodes[k])
    ensures WeavesFor(nodes) == []
  {
    if nodes != [] {
      NothingSelectedNoWeaves(nodes[..|nodes| - 1]);
    }
  }

  /** A second pass over the rewritten nodes selects nothing and records nothing. */
  lemma SecondPassSelectsNothing(nodes: seq<ObjectCreation>)
    ensures forall k :: 0 <= k < |nodes| ==> !IsWeakRandomCreation(Rewritten(nodes)[k])
    ensures Rewritten(Rewritten(nodes)) == Rewritten(nodes)
    ensures WeavesFor(Rewritten(nodes)) == []
  {
    assert "java.security.SecureRandom" != "Random";
    assert "java.security.SecureRandom" != "java.util.Random" by {
      assert "java.security.SecureRandom"[5] != "java.util.Random"[5];
    }
    NothingSelectedNoWeaves(Rewritten(nodes));
  }

  /** Every weave carries the rule id and the line of a selected node. */
  lemma {:induction false} WeavesAreSound(nodes: seq<ObjectCreation>)
    ensures forall w :: w in WeavesFor(nodes) ==>
              w.ruleId == SecureRandomRuleId &&
              exists k :: 0 <= k < |nodes| && IsWeakRandomCreation(nodes[k]) && nodes[k].beginLine == w.line
  {
    if nodes != [] {
      var init := nodes[..|nodes| - 1];
      WeavesAreSound(init);
      assert forall k :: 0 <= k < |init| ==> init[k] == nodes[k];
    }
  }

  /** Every selected node has its weave. */
  lemma {:induction false} WeavesAreComplete(nodes: seq<ObjectCreation>)
    ensures forall k :: 0 <= k < |nodes| && IsWeakRandomCreation(nodes[k]) ==>
              Weave(nodes[k].beginLine, SecureRandomRuleId) in WeavesFor(nodes)
  {
    if nodes != [] {
      var init := nodes[..|nodes| - 1];
      WeavesAreComplete(init);
      assert forall k :: 0 <= k < |init| ==> init[k] == nodes[k];
    }
  }

  /** Exactly one weave per selected node. */
  lemma {:induction false} OneWeavePerSelectedNode(nodes: seq<ObjectCreation>)
    ensures |WeavesFor(nodes)| == |SelectedPositions(nodes)|
  {
    if nodes == [] {
      assert SelectedPositions(nodes) == {};
    } else {
      var n := |nodes| - 1;
      var init := nodes[..n];
      OneWeavePerSelectedNode(init);
      assert forall k :: 0 <= k < n ==> init[k] == nodes[k];
      if IsWeakRandomCreation(nodes[n]) {
        assert SelectedPositions(nodes) == SelectedPositions(init) + {n};
        assert n !in SelectedPositions(init);
      } else {
        assert SelectedPositions(nodes) == SelectedPositions(init);
      }
    }
  }

  /** Three `new Random()` sites among other creations give three weaves, one per line. */
  lemma ThreeSitesExample()
    ensures
      var nodes := [ObjectCreation("Random", 0, 3), ObjectCreation("java.util.Random", 0, 7),
                    ObjectCreation("Random", 1, 9), ObjectCreation("Object", 0, 10),
                    ObjectCreation("Random", 0, 12)];
      WeavesFor(nodes) == [Weave(3, SecureRandomRuleId), Weave(7, SecureRandomRuleId), Weave(12, SecureRandomRuleId)]
  {
    assert "Object" != "Random" && "Object" != "java.util.Random";
    var nodes := [ObjectCreation("Random", 0, 3), ObjectCreation("java.util.Random", 0, 7),
                  ObjectCreation("Random", 1, 9), ObjectCreation("Object", 0, 10),
                  ObjectCreation("Random", 0, 12)];
    assert nodes[..1][..0] == [];
    assert WeavesFor(nodes[..1]) == [Weave(3, SecureRandomRuleId)];
    assert nodes[..2][..1] == nodes[..1];
    assert WeavesFor(nodes[..2]) == [Weave(3, SecureRandomRuleId), Weave(7, SecureRandomRuleId)];
    assert nodes[..3][..2] == nodes[..2];
    assert WeavesFor(nodes[..3]) == WeavesFor(nodes[..2]);
    assert nodes[..4][..3] == nodes[..3];
    assert WeavesFor(nodes[..4]) == WeavesFor(nodes[..2]);
    assert nodes[..4] == nodes[..|nodes| - 1];
  }
}
