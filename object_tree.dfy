/**
 * The tree that holds the nodes. Nodes live in an arena and are named by
 * their index; each node keeps only the index of its parent, which is always
 * smaller than its own because a child is attached under a node that is
 * already in the tree. The recursion flag is set on a node in place, and the
 * ancestor search walks the parent links upwards.
 */
module ObjectTree {
  import opened Wrappers
  import opened PdfObjects
  import opened TreeNodes

  /** Every parent link points to an earlier node of the arena. */
  ghost predicate WellFormed(nodes: seq<TreeNode>) {
    forall i :: 0 <= i < |nodes| && nodes[i].parent.Some? ==> nodes[i].parent.value < i
  }

  /** The proper ancestors of node `id`, nearest first: its parent, its parent's parent, ... up to the root. */
  ghost function AncestorChain(nodes: seq<TreeNode>, id: nat): (chain: seq<nat>)
    requires WellFormed(nodes) && id < |nodes|
    ensures forall j :: 0 <= j < |chain| ==> chain[j] < id
    decreases id
  {
    match nodes[id].parent
    case None => []
    case Some(p) => [p] + AncestorChain(nodes, p)
  }

  /** The node is one the ancestor search stops at when looking for object number `number`. */
  predicate IsCycleTarget(n: TreeNode, number: int) {
    IsIndirectReference(n) && GetNumber(n) == number
  }

  /** The chain climbs strictly towards the root: each entry is above the one before it. */
  lemma {:induction false} ChainClimbs(nodes: seq<TreeNode>, id: nat)
    requires WellFormed(nodes) && id < |nodes|
    ensures forall i, j :: 0 <= i < j < |AncestorChain(nodes, id)| ==>
      AncestorChain(nodes, id)[j] < AncestorChain(nodes, id)[i]
    decreases id
  {
    match nodes[id].parent
    case None =>
    case Some(p) =>
      ChainClimbs(nodes, p);
  }

  /** Some proper ancestor of `id` (not `id` itself) is a cycle target for `number`. */
  ghost predicate HasCycleAncestorFor(nodes: seq<TreeNode>, id: nat, number: int)
    requires WellFormed(nodes) && id < |nodes|
  {
    var chain := AncestorChain(nodes, id);
    exists j :: 0 <= j < |chain| && IsCycleTarget(nodes[chain[j]], number)
  }

  /** Some proper ancestor of `id` is a reference to the same object number as `id`. */
  ghost predicate HasCycleAncestor(nodes: seq<TreeNode>, id: nat)
    requires WellFormed(nodes) && id < |nodes|
  {
    HasCycleAncestorFor(nodes, id, GetNumber(nodes[id]))
  }

  /** One step up: the next node of a chain is the parent, and its own chain is the rest. */
  lemma ChainStep(nodes: seq<TreeNode>, id: nat, chain: seq<nat>, k: nat)
    requires WellFormed(nodes) && id < |nodes|
    requires k < |chain| && AncestorChain(nodes, id) == chain[k..]
    ensures nodes[id].parent == Some(chain[k])
    ensures chain[k] < |nodes| && AncestorChain(nodes, chain[k]) == chain[k + 1..]
  {
    assert chain[k..] == [chain[k]] + chain[k + 1..];
  }

  /** Position `k` of the ancestor chain of `id` is the nearest ancestor that is a cycle target. */
  ghost predicate IsNearestCycleAncestor(nodes: seq<TreeNode>, id: nat, k: nat)
    requires WellFormed(nodes) && id < |nodes|
  {
    var chain := AncestorChain(nodes, id);
    var number := GetNumber(nodes[id]);
    && k < |chain|
    && IsCycleTarget(nodes[chain[k]], number)
    && forall j :: 0 <= j < k ==> !IsCycleTarget(nodes[chain[j]], number)
  }

  /** Every node flagged recursive has a cycle ancestor, so the ancestor search is safe on it. */
  ghost predicate RecursionSound(nodes: seq<TreeNode>)
    requires WellFormed(nodes)
  {
    forall i :: 0 <= i < |nodes| && nodes[i].recursive ==> HasCycleAncestor(nodes, i)
  }

  /** The ancestor chain of a node depends only on the parent links up to that node. */
  lemma {:induction false} ChainDependsOnlyOnParents(a: seq<TreeNode>, b: seq<TreeNode>, id: nat)
    requires WellFormed(a) && WellFormed(b) && id < |a| && id < |b|
    requires forall j :: 0 <= j <= id ==> a[j].parent == b[j].parent
    ensures AncestorChain(a, id) == AncestorChain(b, id)
    decreases id
  {
    match a[id].parent
    case None =>
    case Some(p) =>
      ChainDependsOnlyOnParents(a, b, p);
  }

  /** Attaching a node at the end of the arena keeps the arena well formed and every old chain. */
  lemma AppendKeepsChains(nodes: seq<TreeNode>, node: TreeNode)
    requires WellFormed(nodes)
    requires node.parent.Some? ==> node.parent.value < |nodes|
    ensures WellFormed(nodes + [node])
    ensures forall i :: 0 <= i < |nodes| ==> AncestorChain(nodes + [node], i) == AncestorChain(nodes, i)
    ensures AncestorChain(nodes + [node], |nodes|) ==
      if node.parent.None? then [] else [node.parent.value] + AncestorChain(nodes, node.parent.value)
  {
    var grown := nodes + [node];
    forall i | 0 <= i < |nodes|
      ensures AncestorChain(grown, i) == AncestorChain(nodes, i)
    {
      ChainDependsOnlyOnParents(grown, nodes, i);
    }
  }

  /** Changing a recursion flag keeps the arena well formed and every chain. */
  lemma FlagUpdateKeepsChains(nodes: seq<TreeNode>, id: nat, recursive: bool)
    requires WellFormed(nodes) && id < |nodes|
    ensures WellFormed(nodes[id := SetRecursive(nodes[id], recursive)])
    ensures forall i :: 0 <= i < |nodes| ==>
      AncestorChain(nodes[id := SetRecursive(nodes[id], recursive)], i) == AncestorChain(nodes, i)
  {
    var updated := nodes[id := SetRecursive(nodes[id], recursive)];
    forall i | 0 <= i < |nodes|
      ensures AncestorChain(updated, i) == AncestorChain(nodes, i)
    {
      ChainDependsOnlyOnParents(updated, nodes, i);
    }
  }

  /** Attaching a node that is not flagged, or whose cycle ancestor is already there, keeps the tree sound. */
  lemma AppendKeepsRecursionSound(nodes: seq<TreeNode>, node: TreeNode)
    requires WellFormed(nodes) && RecursionSound(nodes)
    requires node.parent.Some? ==> node.parent.value < |nodes|
    requires node.recursive ==>
      && node.parent.Some?
      && (|| IsCycleTarget(nodes[node.parent.value], GetNumber(node))
          || HasCycleAncestorFor(nodes, node.parent.value, GetNumber(node)))
    ensures WellFormed(nodes + [node]) && RecursionSound(nodes + [node])
  {
    var grown := nodes + [node];
    AppendKeepsChains(nodes, node);
    forall i | 0 <= i < |grown| && grown[i].recursive
      ensures HasCycleAncestor(grown, i)
    {
      if i < |nodes| {
        var chain := AncestorChain(nodes, i);
        var j :| 0 <= j < |chain| && IsCycleTarget(nodes[chain[j]], GetNumber(nodes[i]));
        assert grown[chain[j]] == nodes[chain[j]];
      } else {
        var p := node.parent.value;
        var chain := AncestorChain(grown, i);
        assert chain == [p] + AncestorChain(nodes, p);
        if IsCycleTarget(nodes[p], GetNumber(node)) {
          assert IsCycleTarget(grown[chain[0]], GetNumber(grown[i]));
        } else {
          var rest := AncestorChain(nodes, p);
          var j :| 0 <= j < |rest| && IsCycleTarget(nodes[rest[j]], GetNumber(node));
          assert chain[j + 1] == rest[j];
          assert IsCycleTarget(grown[chain[j + 1]], GetNumber(grown[i]));
        }
      }
    }
  }

  /**
   * Clearing a flag keeps the tree sound, and so does setting one on a node
   * that has a cycle ancestor.
   */
  lemma FlagUpdateKeepsRecursionSound(nodes: seq<TreeNode>, id: nat, recursive: bool)
    requires WellFormed(nodes) && RecursionSound(nodes) && id < |nodes|
    requires recursive ==> HasCycleAncestor(nodes, id)
    ensures WellFormed(nodes[id := SetRecursive(nodes[id], recursive)])
    ensures RecursionSound(nodes[id := SetRecursive(nodes[id], recursive)])
  {
    var updated := nodes[id := SetRecursive(nodes[id], recursive)];
    FlagUpdateKeepsChains(nodes, id, recursive);
    forall i | 0 <= i < |updated| && updated[i].recursive
      ensures HasCycleAncestor(updated, i)
    {
      var chain := AncestorChain(nodes, i);
      var j :| 0 <= j < |chain| && IsCycleTarget(nodes[chain[j]], GetNumber(nodes[i]));
      assert IsCycleTarget(updated[chain[j]], GetNumber(updated[i]));
    }
  }

  /** The nodes of one object tree, with the parent links between them. */
  class NodeArena {
    var nodes: seq<TreeNode>

    ghost predicate Valid()
      reads this
    {
      WellFormed(nodes)
    }

    constructor ()
      ensures Valid() && nodes == []
    {
      nodes := [];
    }

    /** Attaches `node` as a new child of `parent` (or as a root) and returns its index. */
    method Add(node: TreeNode, parent: Option<nat>) returns (id: nat)
      requires Valid()
      requires parent.Some? ==> parent.value < |nodes|
      modifies this
      ensures Valid()
      ensures id == old(|nodes|) && nodes == old(nodes) + [node.(parent := parent)]
      ensures forall i :: 0 <= i < id ==> AncestorChain(nodes, i) == AncestorChain(old(nodes), i)
      ensures AncestorChain(nodes, id) ==
        if parent.None? then [] else [parent.value] + AncestorChain(old(nodes), parent.value)
    {
      AppendKeepsChains(nodes, node.(parent := parent));
      id := |nodes|;
      nodes := nodes + [node.(parent := parent)];
    }

    /** Sets the recursion flag of node `id`; no other node and no other field changes. */
    method SetRecursive(id: nat, recursive: bool)
      requires Valid() && id < |nodes|
      modifies this
      ensures Valid()
      ensures nodes == old(nodes)[id := TreeNodes.SetRecursive(old(nodes)[id], recursive)]
      ensures forall i :: 0 <= i < |nodes| ==> AncestorChain(nodes, i) == AncestorChain(old(nodes), i)
    {
      FlagUpdateKeepsChains(nodes, id, recursive);
      nodes := nodes[id := TreeNodes.SetRecursive(nodes[id], recursive)];
    }

    /**
     * The nearest proper ancestor of node `id` that is a reference to the same
     * object number, or None when the node is not flagged recursive.
     */
    method GetAncestor(id: nat) returns (r: Option<nat>)
      requires Valid() && id < |nodes|
      requires IsRecursive(nodes[id]) ==> HasCycleAncestor(nodes, id)
      ensures !IsRecursive(nodes[id]) ==> r == None
      ensures IsRecursive(nodes[id]) ==>
        && r.Some? && r.value < id
        && exists k: nat :: IsNearestCycleAncestor(nodes, id, k) && AncestorChain(nodes, id)[k] == r.value
    {
      var ns := nodes;
      if !IsRecursive(ns[id]) {
        return None;
      }
      ghost var chain := AncestorChain(ns, id);
      var number := GetNumber(ns[id]);
      ghost var m :| 0 <= m < |chain| && IsCycleTarget(ns[chain[m]], number);
      var node := id;
      ghost var k := 0;
      while true
        invariant node < |ns| && k <= m
        invariant AncestorChain(ns, node) == chain[k..]
        invariant forall j :: 0 <= j < k ==> !IsCycleTarget(ns[chain[j]], number)
        decreases m - k
      {
        ChainStep(ns, node, chain, k);
        node := ns[node].parent.value;
        if IsIndirectReference(ns[node]) && GetNumber(ns[node]) == number {
          assert IsNearestCycleAncestor(ns, id, k);
          return Some(node);
        }
        k := k + 1;
      }
    }
  }

  /**
   * Object 1 holds an entry /Next referring to object 2, and object 2 an entry
   * /Prev referring back to object 1. Showing the trailer, its /Root entry,
   * /Next under that and /Prev under that gives a node that refers back to
   * object 1; once it is flagged recursive, the walk skips the /Next node and
   * stops at the /Root node, before it reaches the trailer.
   */
  method BackReferenceExample(render: PdfObject -> string) returns (rootEntry: nat, back: nat, ancestor: Option<nat>)
    ensures back != rootEntry && ancestor == Some(rootEntry)
  {
    var root, next, prev := PdfName("Root"), PdfName("Next"), PdfName("Prev");
    var trailer := PdfDictionary(map[root := IndirectReference(1, 0)]);
    var first := PdfDictionary(map[next := IndirectReference(2, 0)]);
    var second := PdfDictionary(map[prev := IndirectReference(1, 0)]);
    var tree := new NodeArena();
    var top := tree.Add(GetInstance(trailer, render), None);
    rootEntry := tree.Add(GetInstanceForKey(trailer, root, render), Some(top));
    var forward := tree.Add(GetInstanceForKey(first, next, render), Some(rootEntry));
    back := tree.Add(GetInstanceForKey(second, prev, render), Some(forward));
    assert AncestorChain(tree.nodes, back) == [forward, rootEntry, top];
    assert IsCycleTarget(tree.nodes[AncestorChain(tree.nodes, back)[1]], GetNumber(tree.nodes[back]));
    tree.SetRecursive(back, true);
    ancestor := tree.GetAncestor(back);
  }
}
