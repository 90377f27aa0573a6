/**
 * PicrustNode.getSubTree: validate the requested names against every node name of the
 * tree, run the explicit-stack evaluator, and give the result the root's metadata.
 */
module GetSubTree {
  import opened Wrappers
  import opened Tree
  import opened SubTree

  /** Some node of the tree, root and internal nodes included, carries name `s`. */
  predicate HasName(n: Node, s: string)
    decreases n
  {
    n.name == Some(s) || exists c | c in n.children :: HasName(c, s)
  }

  /** The evaluated sub-tree carrying the root's metadata: a tip keeps its own name but takes
      the root's parameters; an internal node takes the root's name and parameters and is
      unrooted when the original root had more than two children. */
  function WithRootMetadata(t: Node, sub: Node, unroot: Node -> Node): Node {
    if sub.children == [] then sub.(params := t.params)
    else
      if |t.children| > 2 then unroot(Node(t.name, sub.children, t.params))
      else Node(t.name, sub.children, t.params)
  }

  /** `unroot` stands for cogent's PhyloNode.unrooted, which is outside this model. */
  method GetSubTree(t: Node, nameList: seq<string>, unroot: Node -> Node) returns (r: Result<Node>)
    ensures (r.Err? && r.error.NameNotFound?) <==> exists i | 0 <= i < |nameList| :: !HasName(t, nameList[i])
    ensures r.Err? && r.error.NameNotFound? ==>
              exists i | 0 <= i < |nameList| ::
                && r.error.name == nameList[i] && !HasName(t, nameList[i])
                && forall j | 0 <= j < i :: HasName(t, nameList[j])
    // A corollary of the clauses below, stated for the reader: with every name present,
    // "no tree created" is the only failure left.
    ensures (forall i | 0 <= i < |nameList| :: HasName(t, nameList[i])) ==>
              (r == Err(NoTreeCreated) <==>
                 Named(t, nameList) || !WellStacked(t, nameList) || Prune(t, nameList).None?)
    ensures r.Err? ==> r.error.NameNotFound? || r.error == NoTreeCreated
    ensures r.Ok? <==>
              && (forall i | 0 <= i < |nameList| :: HasName(t, nameList[i]))
              && !Named(t, nameList) && WellStacked(t, nameList) && Prune(t, nameList).Some?
    ensures r.Ok? ==> r.value == WithRootMetadata(t, Prune(t, nameList).value, unroot)
  {
    for i := 0 to |nameList|
      invariant forall j | 0 <= j < i :: HasName(t, nameList[j])
    {
      if !HasName(t, nameList[i]) {
        return Err(NameNotFound(nameList[i]));
      }
    }
    var sub := SubTreeMachine(t, nameList);
    if sub.None? {
      return Err(NoTreeCreated);
    }
    var tree := sub.value;
    if tree.children == [] {
      tree := tree.(params := t.params);
    } else {
      tree := tree.(name := t.name, params := t.params);
      if |t.children| > 2 {
        tree := unroot(tree);
      }
    }
    r := Ok(tree);
  }
}
