/**
 * Degree reduction (PicrustNode.multifurcating and PicrustNode.bifurcating): every node
 * with more than `num` children repeatedly has its last `num` children wrapped into a new
 * unnamed node appended as its last child, until at most `num` children remain.
 *
 * The source deep-copies the tree and mutates the copy's child lists during a pre-order
 * walk. On immutable trees the same walk is "fix this node's child list, then descend into
 * its resulting children" (synthetic nodes included), which ReduceDegree does imperatively
 * and Reduce states as a function.
 */
module DegreeReduction {
  import opened Wrappers
  import opened Tree

  /** Every node of the tree has at most `num` children. */
  predicate MaxDegree(n: Node, num: nat)
    decreases n
  {
    |n.children| <= num && forall c | c in n.children :: MaxDegree(c, num)
  }

  /** The node the source's constructor builds around the wrapped children: unnamed, and
      with branch length `eps` only when the constructor's node type has a Length. */
  function Synthetic(kids: seq<Node>, eps: real, setLength: bool): Node {
    Node(None, kids, if setLength then map[LengthKey := eps] else map[])
  }

  /** One pass of the wrap loop on a child list longer than `num`. */
  function WrapStep(cs: seq<Node>, num: nat, eps: real, setLength: bool): (r: seq<Node>)
    requires 2 <= num < |cs|
    ensures |r| == |cs| - (num - 1)
    ensures forall i | 0 <= i < |cs| - num :: r[i] == cs[i]
    ensures r[|r| - 1].children == cs[|cs| - num..]
    ensures r[|r| - 1].name == None
    ensures Length(r[|r| - 1]) == (if setLength then Some(eps) else None)
    ensures LeavesOf(r) == LeavesOf(cs)
  {
    WrappedLeaves(cs, |cs| - num, Synthetic(cs[|cs| - num..], eps, setLength));
    cs[..|cs| - num] + [Synthetic(cs[|cs| - num..], eps, setLength)]
  }

  /** Replacing a non-empty suffix by one node holding it keeps the leaf order. */
  lemma WrappedLeaves(cs: seq<Node>, k: nat, s: Node)
    requires k < |cs| && s.children == cs[k..]
    ensures LeavesOf(cs[..k] + [s]) == LeavesOf(cs)
  {
    var pre, post := cs[..k], cs[k..];
    assert cs == pre + post;
    LeavesOfAppend(pre, [s]);
    LeavesOfSingleton(s);
    LeavesOfAppend(pre, post);
  }

  /** The child list after the wrap loop has run to completion. */
  function WrapAll(cs: seq<Node>, num: nat, eps: real, setLength: bool): (r: seq<Node>)
    requires num >= 2
    ensures |r| <= num
    ensures |cs| <= num ==> r == cs
    ensures |cs| > num ==> |r| >= 2
    decreases |cs|
  {
    if |cs| <= num then cs else WrapAll(WrapStep(cs, num, eps, setLength), num, eps, setLength)
  }

  /** The whole wrap loop keeps the leaf order. */
  lemma {:induction false} WrapAllLeaves(cs: seq<Node>, num: nat, eps: real, setLength: bool)
    requires num >= 2
    ensures LeavesOf(WrapAll(cs, num, eps, setLength)) == LeavesOf(cs)
    decreases |cs|
  {
    if |cs| > num {
      WrapAllLeaves(WrapStep(cs, num, eps, setLength), num, eps, setLength);
    }
  }

  /** Every tree of `cs` is below `n` in the walk's measure. */
  predicate Below(cs: seq<Node>, n: Node) {
    forall i {:trigger Leaves(cs[i])} | 0 <= i < |cs| ::
      |Leaves(cs[i])| < |Leaves(n)| || (|Leaves(cs[i])| == |Leaves(n)| && Size(cs[i]) < Size(n))
  }

  /** The children of the wrapped node are smaller than it, first by tip count and, when
      nothing was wrapped, by node count: the measure that bounds the pre-order walk. */
  lemma ReduceTermination(n: Node, cs: seq<Node>, num: nat, eps: real, setLength: bool)
    requires num >= 2
    requires cs == WrapAll(n.children, num, eps, setLength)
    ensures Below(cs, n)
  {
    WrapAllLeaves(n.children, num, eps, setLength);
    forall i | 0 <= i < |cs|
      ensures |Leaves(cs[i])| < |Leaves(n)| ||
              (|Leaves(cs[i])| == |Leaves(n)| && Size(cs[i]) < Size(n))
    {
      LeavesOfMember(cs, i);
      if |n.children| <= num {
        SizeOfMember(n.children, i);
      }
    }
  }

  /** The tree the source returns: this node's child list wrapped down to `num`, then the
      same done to each resulting child. */
  function Reduce(n: Node, num: nat, eps: real, setLength: bool): Node
    requires num >= 2
    decreases |Leaves(n)|, Size(n), 1
  {
    ReduceTermination(n, WrapAll(n.children, num, eps, setLength), num, eps, setLength);
    Node(n.name, ReduceEach(n, WrapAll(n.children, num, eps, setLength), num, eps, setLength), n.params)
  }

  /** `Reduce` applied to each of the wrapped children `cs` of `n`. */
  function ReduceEach(n: Node, cs: seq<Node>, num: nat, eps: real, setLength: bool): (r: seq<Node>)
    requires num >= 2 && Below(cs, n)
    ensures |r| == |cs|
    decreases |Leaves(n)|, Size(n), 0
  {
    seq(|cs|, i requires 0 <= i < |cs| => Reduce(cs[i], num, eps, setLength))
  }

  /** The inner `while` loop: wrap the last `num` children until at most `num` remain. */
  method WrapChildren(cs: seq<Node>, num: nat, eps: real, setLength: bool) returns (r: seq<Node>)
    requires num >= 2
    ensures r == WrapAll(cs, num, eps, setLength)
  {
    r := cs;
    while |r| > num
      invariant WrapAll(r, num, eps, setLength) == WrapAll(cs, num, eps, setLength)
      decreases |r|
    {
      var k := |r| - num;
      var wrapped := Synthetic(r[k..], eps, setLength);
      WrapAllUnfold(r, num, eps, setLength);
      r := r[..k] + [wrapped];
    }
  }

  /** The pre-order walk over the copy: fix the node, then every resulting child in turn. */
  method ReduceDegree(n: Node, num: nat, eps: real, setLength: bool) returns (r: Node)
    requires num >= 2
    ensures r == Reduce(n, num, eps, setLength)
    decreases |Leaves(n)|, Size(n), 1
  {
    var cs := WrapChildren(n.children, num, eps, setLength);
    ReduceTermination(n, cs, num, eps, setLength);
    var fixed: seq<Node> := [];
    for i := 0 to |cs|
      invariant fixed == ReduceEach(n, cs, num, eps, setLength)[..i]
    {
      var c := ReduceChild(n, cs, i, num, eps, setLength);
      ReduceEachPrefix(n, cs, i, num, eps, setLength);
      fixed := fixed + [c];
    }
    r := Node(n.name, fixed, n.params);
  }

  /** The walk's visit of child `i` of `n`, after `n` itself was fixed to children `cs`. */
  method ReduceChild(n: Node, cs: seq<Node>, i: nat, num: nat, eps: real, setLength: bool) returns (c: Node)
    requires num >= 2 && Below(cs, n) && i < |cs|
    ensures c == Reduce(cs[i], num, eps, setLength)
    decreases |Leaves(n)|, Size(n), 0
  {
    c := ReduceDegree(cs[i], num, eps, setLength);
  }

  lemma ReduceEachPrefix(n: Node, cs: seq<Node>, i: nat, num: nat, eps: real, setLength: bool)
    requires num >= 2 && Below(cs, n) && i < |cs|
    ensures ReduceEach(n, cs, num, eps, setLength)[..i + 1]
         == ReduceEach(n, cs, num, eps, setLength)[..i] + [Reduce(cs[i], num, eps, setLength)]
  {
    var e := ReduceEach(n, cs, num, eps, setLength);
    assert e[i] == Reduce(cs[i], num, eps, setLength);
    assert e[..i + 1] == e[..i] + [e[i]];
  }

  lemma WrapAllUnfold(cs: seq<Node>, num: nat, eps: real, setLength: bool)
    requires 2 <= num < |cs|
    ensures WrapAll(cs, num, eps, setLength)
         == WrapAll(cs[..|cs| - num] + [Synthetic(cs[|cs| - num..], eps, setLength)], num, eps, setLength)
  {
  }

  /** PicrustNode.multifurcating: reject num < 2 before any work, default eps to 0.0. */
  method Multifurcating(t: Node, num: int, eps: Option<real>, setLength: bool) returns (r: Result<Node>)
    ensures num < 2 ==> r == Err(TooFewChildren)
    ensures num >= 2 ==> r.Ok? && r.value == Reduce(t, num, EpsOrDefault(eps), setLength)
    ensures num >= 2 ==> MaxDegree(r.value, num) && Leaves(r.value) == Leaves(t)
  {
    if num < 2 {
      return Err(TooFewChildren);
    }
    var e := EpsOrDefault(eps);
    var reduced := ReduceDegree(t, num, e, setLength);
    ReduceMaxDegree(t, num, e, setLength);
    ReduceLeaves(t, num, e, setLength);
    r := Ok(reduced);
  }

  /** The synthetic nodes' branch length: `eps`, or 0.0 when none is given. */
  function EpsOrDefault(eps: Option<real>): real {
    if eps.None? then 0.0 else eps.value
  }

  /** PicrustNode.bifurcating: multifurcating with num = 2. */
  method Bifurcating(t: Node, eps: Option<real>, setLength: bool) returns (r: Result<Node>)
    ensures r == Ok(Reduce(t, 2, EpsOrDefault(eps), setLength))
    ensures MaxDegree(r.value, 2) && Leaves(r.value) == Leaves(t)
  {
    r := Multifurcating(t, 2, eps, setLength);
  }

  /** Every node of the result, synthetic nodes included, has at most `num` children. */
  lemma {:induction false} ReduceMaxDegree(n: Node, num: nat, eps: real, setLength: bool)
    requires num >= 2
    ensures MaxDegree(Reduce(n, num, eps, setLength), num)
    decreases |Leaves(n)|, Size(n)
  {
    var cs := WrapAll(n.children, num, eps, setLength);
    ReduceTermination(n, cs, num, eps, setLength);
    var r := Reduce(n, num, eps, setLength);
    forall i | 0 <= i < |cs| ensures MaxDegree(r.children[i], num) {
      ReduceChildAt(n, cs, i, num, eps, setLength);
      ReduceMaxDegree(cs[i], num, eps, setLength);
    }
  }

  lemma ReduceChildAt(n: Node, cs: seq<Node>, i: nat, num: nat, eps: real, setLength: bool)
    requires num >= 2
    requires cs == WrapAll(n.children, num, eps, setLength) && i < |cs|
    ensures |Reduce(n, num, eps, setLength).children| == |cs|
    ensures Reduce(n, num, eps, setLength).children[i] == Reduce(cs[i], num, eps, setLength)
  {
    ReduceTermination(n, cs, num, eps, setLength);
  }

  lemma {:induction false} LeavesOfPointwise(xs: seq<Node>, ys: seq<Node>)
    requires |xs| == |ys|
    requires forall i | 0 <= i < |xs| :: Leaves(xs[i]) == Leaves(ys[i])
    ensures LeavesOf(xs) == LeavesOf(ys)
    decreases |xs|
  {
    if xs != [] {
      LeavesOfPointwise(xs[..|xs| - 1], ys[..|ys| - 1]);
    }
  }

  /** The tips of the result, in left-to-right order, are exactly the tips of the input. */
  lemma {:induction false} ReduceLeaves(n: Node, num: nat, eps: real, setLength: bool)
    requires num >= 2
    ensures Leaves(Reduce(n, num, eps, setLength)) == Leaves(n)
    decreases |Leaves(n)|, Size(n)
  {
    var cs := WrapAll(n.children, num, eps, setLength);
    ReduceTermination(n, cs, num, eps, setLength);
    var r := Reduce(n, num, eps, setLength);
    if n.children != [] {
      forall i | 0 <= i < |cs| ensures Leaves(r.children[i]) == Leaves(cs[i]) {
        ReduceChildAt(n, cs, i, num, eps, setLength);
        ReduceLeaves(cs[i], num, eps, setLength);
      }
      LeavesOfPointwise(r.children, cs);
      WrapAllLeaves(n.children, num, eps, setLength);
    }
  }

  /** A tree whose nodes already have at most `num` children comes back unchanged. */
  lemma {:induction false} ReduceUnchanged(n: Node, num: nat, eps: real, setLength: bool)
    requires num >= 2
    requires MaxDegree(n, num)
    ensures Reduce(n, num, eps, setLength) == n
    decreases n
  {
    var r := Reduce(n, num, eps, setLength);
    forall i | 0 <= i < |n.children| ensures r.children[i] == n.children[i] {
      ReduceChildAt(n, n.children, i, num, eps, setLength);
      ReduceUnchanged(n.children[i], num, eps, setLength);
    }
    assert r.children == n.children;
  }
}
