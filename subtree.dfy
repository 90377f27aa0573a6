/**
 * Induced-subtree pruning (PicrustNode._getSubTree): keep the nodes named in `names`,
 * drop what leads to none of them, collapse every node left with a single surviving child
 * into that child (summing lengths, length-weighting the other shared parameters) and
 * rebuild every node left with two or more.
 *
 * Prune is the recursive statement of that evaluation; SubTreeMachine is the source's
 * explicit-stack version, proved equal to Prune whenever its two stacks stay in step.
 */
module SubTree {
  import opened Wrappers
  import opened Tree

  /** The node carries one of the requested names. */
  predicate Named(n: Node, names: seq<string>) {
    n.name.Some? && n.name.value in names
  }

  /** The parameters of a child promoted in place of its parent `node`. With both lengths
      present: the lengths add up, and every other parameter present on both sides becomes
      the length-weighted average of the two, unless the summed length is zero, in which
      case only the length is left. With either length missing: no parameters at all. */
  function MergeParams(node: Node, child: Node): (p: map<string, real>)
    ensures Length(node).None? || Length(child).None? ==> p == map[]
    ensures Length(node).Some? && Length(child).Some? ==>
              && LengthKey in p && p[LengthKey] == Length(node).value + Length(child).value
              && (Length(node).value + Length(child).value == 0.0 ==> p.Keys == {LengthKey})
              && (Length(node).value + Length(child).value != 0.0 ==>
                    p.Keys == (node.params.Keys * child.params.Keys) + {LengthKey})
    ensures Length(node).Some? && Length(child).Some? ==>
              forall k | k in p && k != LengthKey ::
                && k in node.params && k in child.params
                && WeightedBy(p[k], node.params[k], Length(node).value, child.params[k], Length(child).value)
  {
    if LengthKey in node.params && LengthKey in child.params then
      if node.params[LengthKey] + child.params[LengthKey] != 0.0 then
        AveragedProducts(node.params, child.params);
        Averaged(node.params, child.params)[LengthKey := node.params[LengthKey] + child.params[LengthKey]]
      else
        map[LengthKey := 0.0]
    else
      map[]
  }

  /** Every parameter other than the length that both sides have, as the length-weighted
      average of the two values. */
  function Averaged(np: map<string, real>, cp: map<string, real>): map<string, real>
    requires LengthKey in np && LengthKey in cp
    requires np[LengthKey] + cp[LengthKey] != 0.0
  {
    map k | k in np && k in cp && k != LengthKey :: WeightedAverage(np, cp, k)
  }

  /** Each averaged value, scaled back by the summed length, is the length-weighted sum. */
  lemma AveragedProducts(np: map<string, real>, cp: map<string, real>)
    requires LengthKey in np && LengthKey in cp
    requires np[LengthKey] + cp[LengthKey] != 0.0
    ensures Averaged(np, cp).Keys == np.Keys * cp.Keys - {LengthKey}
    ensures forall k | k in Averaged(np, cp) ::
              WeightedBy(Averaged(np, cp)[k], np[k], np[LengthKey], cp[k], cp[LengthKey])
  {
    forall k | k in Averaged(np, cp)
      ensures WeightedBy(Averaged(np, cp)[k], np[k], np[LengthKey], cp[k], cp[LengthKey])
    {
      DivTimes(np[k] * np[LengthKey] + cp[k] * cp[LengthKey], np[LengthKey] + cp[LengthKey]);
    }
  }

  /** `v` is the average of `a` and `b` weighted by `la` and `lb`, scaled back by the
      total weight. */
  predicate WeightedBy(v: real, a: real, la: real, b: real, lb: real) {
    v * (la + lb) == a * la + b * lb
  }

  /** The length-weighted average of parameter `k` of a node and its child. */
  function WeightedAverage(np: map<string, real>, cp: map<string, real>, k: string): real
    requires k in np && k in cp && LengthKey in np && LengthKey in cp
    requires np[LengthKey] + cp[LengthKey] != 0.0
  {
    (np[k] * np[LengthKey] + cp[k] * cp[LengthKey]) / (np[LengthKey] + cp[LengthKey])
  }

  lemma DivTimes(x: real, y: real)
    requires y != 0.0
    ensures (x / y) * y == x
  {
  }

  /** The surviving child, promoted in place of `node`, with merged parameters. */
  function Collapse(node: Node, child: Node): Node {
    child.(params := MergeParams(node, child))
  }

  /** The default tree constructor: `node`'s name and parameters over new children. */
  function Rebuild(node: Node, kids: seq<Node>): Node {
    Node(node.name, kids, node.params)
  }

  /** The evaluated children with the dropped (None) ones filtered out, in order. */
  function Survivors(acc: seq<Option<Node>>): (r: seq<Node>)
    ensures |r| <= |acc|
  {
    if acc == [] then []
    else Survivors(acc[..|acc| - 1]) + (if acc[|acc| - 1].Some? then [acc[|acc| - 1].value] else [])
  }

  /** The fate of an unnamed internal node given its surviving children. */
  function Decide(node: Node, kids: seq<Node>): Option<Node> {
    if |kids| == 0 then None
    else if |kids| == 1 then Some(Collapse(node, kids[0]))
    else Some(Rebuild(node, kids))
  }

  /** The recursive evaluation: a named node is kept whole (its children are not looked
      at), an unnamed tip is dropped, and an unnamed internal node is decided from its
      evaluated children. */
  function Prune(n: Node, names: seq<string>): Option<Node>
    decreases n, 1
  {
    if Named(n, names) then Some(n)
    else if n.children == [] then None
    else Decide(n, Survivors(PruneEach(n.children, names)))
  }

  function PruneEach(cs: seq<Node>, names: seq<string>): (r: seq<Option<Node>>)
    decreases cs, 0
  {
    seq(|cs|, i requires 0 <= i < |cs| => Prune(cs[i], names))
  }

  /** Every named node the evaluation reaches is a tip. This is what keeps the source's two
      stacks in step: a named node with children leaves its accumulator behind. */
  predicate WellStacked(n: Node, names: seq<string>)
    decreases n
  {
    if Named(n, names) then n.children == []
    else forall c | c in n.children :: WellStacked(c, names)
  }

  // ------------------------------------------------------------------------------------
  // The explicit-stack evaluator

  /** An entry of `nodes_stack`: a node and how many of its children are still unvisited. */
  datatype Frame = Frame(node: Node, unvisited: nat)

  /** How many children of the frame's node have been pushed so far. */
  ghost function Pushed(f: Frame): int {
    |f.node.children| - f.unvisited
  }

  /** `child` is the child `parent` pushed last; only unnamed nodes push children. */
  ghost predicate Link(parent: Frame, child: Frame, names: seq<string>) {
    && !Named(parent.node, names)
    && 1 <= Pushed(parent) <= |parent.node.children|
    && child.node == parent.node.children[Pushed(parent) - 1]
  }

  /** The frames form a path from the root: each frame's node is the child its parent
      pushed last, and only unnamed nodes ever push children. */
  ghost predicate IsPath(stack: seq<Frame>, t: Node, names: seq<string>) {
    && (stack != [] ==> stack[0].node == t)
    && (forall i | 0 <= i < |stack| :: stack[i].unvisited <= |stack[i].node.children|)
    && (forall i | 0 <= i < |stack| - 1 :: Pushed(stack[i]) >= 1)
    && (forall i, j | 0 <= i && j == i + 1 && j < |stack| :: Link(stack[i], stack[j], names))
  }

  /** The accumulator a frame should hold: the evaluations of the children it has finished
      with (all pushed ones on top of the stack, all but the last pushed one below it). */
  ghost function AccFor(f: Frame, isTop: bool, names: seq<string>): seq<Option<Node>>
    requires f.unvisited <= |f.node.children|
    requires !isTop ==> Pushed(f) >= 1
  {
    PruneEach(f.node.children[..Pushed(f) - (if isTop then 0 else 1)], names)
  }

  /** The root frame has an accumulator from the start; any other frame has one exactly
      when its node has children. */
  ghost predicate TopHasAcc(stack: seq<Frame>)
    requires stack != []
  {
    |stack| == 1 || stack[|stack| - 1].node.children != []
  }

  ghost function ExpectedCount(stack: seq<Frame>): nat
    requires stack != []
  {
    |stack| - 1 + (if TopHasAcc(stack) then 1 else 0)
  }

  /** The `result` stack when no named node has left an accumulator behind. */
  ghost function Expected(stack: seq<Frame>, t: Node, names: seq<string>): seq<seq<Option<Node>>>
    requires stack != [] && IsPath(stack, t, names)
  {
    seq(|stack| - 1, i requires 0 <= i < |stack| - 1 => AccFor(stack[i], false, names))
      + (if TopHasAcc(stack) then [AccFor(stack[|stack| - 1], true, names)] else [])
  }

  /** Every child a frame has finished with is itself well stacked. */
  ghost predicate FinishedWellStacked(stack: seq<Frame>, t: Node, names: seq<string>)
    requires IsPath(stack, t, names)
  {
    forall i, j | 0 <= i < |stack| && 0 <= j < Pushed(stack[i]) - (if i == |stack| - 1 then 0 else 1) ::
      WellStacked(stack[i].node.children[j], names)
  }

  /** The loop invariant of the evaluator. `extra` counts the accumulators left behind by
      named nodes that had one (the root, or a node with children). */
  ghost predicate MachineInv(t: Node, names: seq<string>, stack: seq<Frame>,
                             result: seq<seq<Option<Node>>>, extra: nat)
  {
    && IsPath(stack, t, names)
    && (stack == [] ==> Named(t, names) || t.children == [] || extra > 0)
    && (extra > 0 ==> Named(t, names) || !WellStacked(t, names))
    && (stack != [] ==> |result| == ExpectedCount(stack) + extra)
    && (stack != [] && extra == 0 ==>
          result == Expected(stack, t, names) && FinishedWellStacked(stack, t, names))
  }

  /** What is left to do for a frame: pop it, and push and finish every unvisited child. */
  ghost function FrameWork(f: Frame): nat {
    1 + 2 * (if f.unvisited <= |f.node.children|
             then SizeOf(f.node.children[|f.node.children| - f.unvisited..]) else 0)
  }

  ghost function Work(stack: seq<Frame>): nat {
    if stack == [] then 0 else Work(stack[..|stack| - 1]) + FrameWork(stack[|stack| - 1])
  }

  lemma PopWork(stack: seq<Frame>)
    requires stack != []
    ensures Work(stack[..|stack| - 1]) < Work(stack)
  {
  }

  lemma PushWork(stack: seq<Frame>)
    requires stack != []
    requires 0 < stack[|stack| - 1].unvisited <= |stack[|stack| - 1].node.children|
    ensures var top := stack[|stack| - 1];
            var next := top.node.children[|top.node.children| - top.unvisited];
            Work(stack[..|stack| - 1] + [Frame(top.node, top.unvisited - 1)] + [Frame(next, |next.children|)])
              < Work(stack)
  {
    var top := stack[|stack| - 1];
    var cs := top.node.children;
    var n, u := |cs|, top.unvisited;
    var next := cs[n - u];
    var f1, f2 := Frame(top.node, u - 1), Frame(next, |next.children|);
    var rest := stack[..|stack| - 1];
    var s' := rest + [f1] + [f2];
    assert s'[..|s'| - 1] == rest + [f1];
    assert (rest + [f1])[..|rest + [f1]| - 1] == rest;
    assert cs[n - u..] == [next] + cs[n - u + 1..];
    SizeOfAppend([next], cs[n - u + 1..]);
    assert [next][..0] == [];
    assert next.children[|next.children| - |next.children|..] == next.children;
  }

  lemma InitInv(t: Node, names: seq<string>)
    ensures MachineInv(t, names, [Frame(t, |t.children|)], [[]], 0)
  {
    var stack := [Frame(t, |t.children|)];
    assert AccFor(stack[0], true, names) == [];
    assert Expected(stack, t, names) == [[]];
  }

  lemma ResultNonEmpty(t: Node, names: seq<string>, stack: seq<Frame>,
                       result: seq<seq<Option<Node>>>, extra: nat)
    requires MachineInv(t, names, stack, result, extra) && stack != []
    ensures |result| >= 1
    ensures stack[|stack| - 1].unvisited <= |stack[|stack| - 1].node.children|
  {
  }

  /** A badly stacked node on the path makes the whole tree badly stacked. */
  lemma {:induction false} PathNotWellStacked(t: Node, names: seq<string>, stack: seq<Frame>, m: nat)
    requires IsPath(stack, t, names) && m < |stack|
    requires !WellStacked(stack[m].node, names)
    ensures !WellStacked(t, names)
    decreases m
  {
    if m > 0 {
      var parent := stack[m - 1];
      assert Link(parent, stack[m], names);
      assert stack[m].node in parent.node.children;
      PathNotWellStacked(t, names, stack, m - 1);
    }
  }

  lemma PruneEachExtend(cs: seq<Node>, d: nat, names: seq<string>)
    requires d < |cs|
    ensures PruneEach(cs[..d + 1], names) == PruneEach(cs[..d], names) + [Prune(cs[d], names)]
  {
  }

  /** A named node on top: deep-copied into the top accumulator and popped. */
  lemma NamedStep(t: Node, names: seq<string>, stack: seq<Frame>,
                  result: seq<seq<Option<Node>>>, extra: nat)
    requires MachineInv(t, names, stack, result, extra) && stack != []
    requires Named(stack[|stack| - 1].node, names)
    ensures |result| >= 1
    ensures MachineInv(t, names, stack[..|stack| - 1],
                       result[..|result| - 1] + [result[|result| - 1] + [Some(stack[|stack| - 1].node)]],
                       extra + (if TopHasAcc(stack) then 1 else 0))
  {
    var k := |stack|;
    var top := stack[k - 1];
    var stack' := stack[..k - 1];
    var result' := result[..|result| - 1] + [result[|result| - 1] + [Some(top.node)]];
    var extra' := extra + (if TopHasAcc(stack) then 1 else 0);
    assert IsPath(stack', t, names);
    if TopHasAcc(stack) && k > 1 {
      PathNotWellStacked(t, names, stack, k - 1);
    }
    if k > 1 {
      var parent := stack[k - 2];
      assert Link(parent, top, names);
      assert TopHasAcc(stack');
      if extra' == 0 {
        var p := Pushed(parent);
        PruneEachExtend(parent.node.children, p - 1, names);
        assert result' == Expected(stack', t, names);
        assert FinishedWellStacked(stack', t, names) by {
          forall i, j | 0 <= i < |stack'| && 0 <= j < Pushed(stack'[i]) - (if i == |stack'| - 1 then 0 else 1)
            ensures WellStacked(stack'[i].node.children[j], names)
          {
            if i == k - 2 && j == p - 1 {
              assert stack'[i].node.children[j] == top.node;
            } else {
              assert stack'[i] == stack[i];
            }
          }
        }
      }
    }
  }

  /** An unnamed node with unvisited children: count one down and push the next child,
      with a fresh accumulator if that child has children. */
  lemma PushStep(t: Node, names: seq<string>, stack: seq<Frame>,
                 result: seq<seq<Option<Node>>>, extra: nat)
    requires MachineInv(t, names, stack, result, extra) && stack != []
    requires !Named(stack[|stack| - 1].node, names) && stack[|stack| - 1].unvisited > 0
    ensures var top := stack[|stack| - 1];
            var next := top.node.children[|top.node.children| - top.unvisited];
            MachineInv(t, names,
                       stack[..|stack| - 1] + [Frame(top.node, top.unvisited - 1)] + [Frame(next, |next.children|)],
                       result + (if next.children != [] then [[]] else []), extra)
  {
    var k := |stack|;
    var top := stack[k - 1];
    var next := top.node.children[|top.node.children| - top.unvisited];
    var f1, f2 := Frame(top.node, top.unvisited - 1), Frame(next, |next.children|);
    PushPath(t, names, stack, f1, f2);
    if extra == 0 {
      PushExpected(t, names, stack, result, f1, f2);
    }
  }

  /** Pushing the next child of the top frame extends the path. */
  lemma PushPath(t: Node, names: seq<string>, stack: seq<Frame>, f1: Frame, f2: Frame)
    requires IsPath(stack, t, names) && stack != []
    requires !Named(stack[|stack| - 1].node, names)
    requires 0 < stack[|stack| - 1].unvisited <= |stack[|stack| - 1].node.children|
    requires f1 == Frame(stack[|stack| - 1].node, stack[|stack| - 1].unvisited - 1)
    requires f2.node == f1.node.children[Pushed(f1) - 1] && f2.unvisited == |f2.node.children|
    ensures IsPath(stack[..|stack| - 1] + [f1] + [f2], t, names)
  {
    var k := |stack|;
    var stack' := stack[..k - 1] + [f1] + [f2];
    assert Link(f1, f2, names);
    forall i, j | 0 <= i && j == i + 1 && j < |stack'| ensures Link(stack'[i], stack'[j], names) {
      if j < k - 1 {
        assert stack'[i] == stack[i] && stack'[j] == stack[j];
      } else if j == k - 1 {
        assert stack'[i] == stack[i];
        assert Link(stack[i], stack[j], names);
      }
    }
  }

  /** With no accumulator left behind, pushing keeps `result` equal to the expected one and
      every finished child well stacked. */
  lemma PushExpected(t: Node, names: seq<string>, stack: seq<Frame>,
                     result: seq<seq<Option<Node>>>, f1: Frame, f2: Frame)
    requires MachineInv(t, names, stack, result, 0) && stack != []
    requires !Named(stack[|stack| - 1].node, names)
    requires 0 < stack[|stack| - 1].unvisited <= |stack[|stack| - 1].node.children|
    requires f1 == Frame(stack[|stack| - 1].node, stack[|stack| - 1].unvisited - 1)
    requires f2.node == f1.node.children[Pushed(f1) - 1] && f2.unvisited == |f2.node.children|
    requires IsPath(stack[..|stack| - 1] + [f1] + [f2], t, names)
    ensures result + (if f2.node.children != [] then [[]] else [])
              == Expected(stack[..|stack| - 1] + [f1] + [f2], t, names)
    ensures FinishedWellStacked(stack[..|stack| - 1] + [f1] + [f2], t, names)
  {
    var k := |stack|;
    var top := stack[k - 1];
    var stack' := stack[..k - 1] + [f1] + [f2];
    assert AccFor(f1, false, names) == AccFor(top, true, names);
    assert AccFor(f2, true, names) == [];
    forall i, j | 0 <= i < |stack'| && 0 <= j < Pushed(stack'[i]) - (if i == |stack'| - 1 then 0 else 1)
      ensures WellStacked(stack'[i].node.children[j], names)
    {
      if i < k - 1 {
        assert stack'[i] == stack[i];
      } else {
        assert i == k - 1 && stack'[i].node == top.node;
      }
    }
  }

  /** An unnamed node with every child visited: popped and decided from its accumulator
      (an unnamed tip has none and yields None); the value goes to the accumulator below,
      or is the answer when no accumulator is left. */
  lemma PopStep(t: Node, names: seq<string>, stack: seq<Frame>, result: seq<seq<Option<Node>>>,
                extra: nat, result1: seq<seq<Option<Node>>>, newNode: Option<Node>)
    requires MachineInv(t, names, stack, result, extra) && stack != [] && |result| >= 1
    requires !Named(stack[|stack| - 1].node, names) && stack[|stack| - 1].unvisited == 0
    requires stack[|stack| - 1].node.children == [] ==> result1 == result && newNode == None
    requires stack[|stack| - 1].node.children != [] ==>
               && result1 == result[..|result| - 1]
               && newNode == Decide(stack[|stack| - 1].node, Survivors(result[|result| - 1]))
    ensures |result1| == 0 ==>
              && |stack| == 1 && extra == 0
              && !Named(t, names) && WellStacked(t, names) && newNode == Prune(t, names)
    ensures |result1| > 0 ==>
              MachineInv(t, names, stack[..|stack| - 1],
                         result1[..|result1| - 1] + [result1[|result1| - 1] + [newNode]], extra)
  {
    var k := |stack|;
    var top := stack[k - 1];
    if extra == 0 {
      if top.node.children != [] {
        FinishedChildren(t, names, stack);
        assert result[|result| - 1] == AccFor(top, true, names);
      }
      assert newNode == Prune(top.node, names);
      assert WellStacked(top.node, names);
    }
    if k > 1 {
      assert |result1| == k - 1 + extra;
      assert extra == 0 ==> result1 == seq(k - 1, i requires 0 <= i < k - 1 => AccFor(stack[i], false, names));
      HandToParent(t, names, stack, result1, extra, newNode);
    } else if top.node.children != [] {
      assert |result1| == extra;
    }
  }

  /** The popped top's value, appended to the accumulator of the frame below it, which
      becomes the new top. */
  lemma HandToParent(t: Node, names: seq<string>, stack: seq<Frame>, lower: seq<seq<Option<Node>>>,
                     extra: nat, v: Option<Node>)
    requires IsPath(stack, t, names) && |stack| >= 2
    requires |lower| == |stack| - 1 + extra
    requires extra > 0 ==> Named(t, names) || !WellStacked(t, names)
    requires extra == 0 ==>
               && lower == seq(|stack| - 1, i requires 0 <= i < |stack| - 1 => AccFor(stack[i], false, names))
               && FinishedWellStacked(stack, t, names)
               && v == Prune(stack[|stack| - 1].node, names)
               && WellStacked(stack[|stack| - 1].node, names)
    ensures MachineInv(t, names, stack[..|stack| - 1], lower[..|lower| - 1] + [lower[|lower| - 1] + [v]], extra)
  {
    var k := |stack|;
    var top := stack[k - 1];
    var stack' := stack[..k - 1];
    var result' := lower[..|lower| - 1] + [lower[|lower| - 1] + [v]];
    assert IsPath(stack', t, names);
    var parent := stack[k - 2];
    var p := Pushed(parent);
    assert Link(parent, top, names);
    assert TopHasAcc(stack');
    if extra == 0 {
      PruneEachExtend(parent.node.children, p - 1, names);
      assert result' == Expected(stack', t, names);
      assert FinishedWellStacked(stack', t, names) by {
        forall i, j | 0 <= i < |stack'| && 0 <= j < Pushed(stack'[i]) - (if i == |stack'| - 1 then 0 else 1)
          ensures WellStacked(stack'[i].node.children[j], names)
        {
          if i == k - 2 && j == p - 1 {
            assert stack'[i].node.children[j] == top.node;
          } else {
            assert stack'[i] == stack[i];
          }
        }
      }
    }
  }

  /** When the top frame has visited every child and no accumulator was left behind, its
      accumulator holds the evaluation of all its children, and all of them are well stacked. */
  lemma FinishedChildren(t: Node, names: seq<string>, stack: seq<Frame>)
    requires IsPath(stack, t, names) && stack != []
    requires stack[|stack| - 1].unvisited == 0
    requires FinishedWellStacked(stack, t, names)
    ensures AccFor(stack[|stack| - 1], true, names) == PruneEach(stack[|stack| - 1].node.children, names)
    ensures forall c | c in stack[|stack| - 1].node.children :: WellStacked(c, names)
  {
    var top := stack[|stack| - 1];
    assert top.node.children[..Pushed(top)] == top.node.children;
    forall c | c in top.node.children ensures WellStacked(c, names) {
      var j :| 0 <= j < |top.node.children| && top.node.children[j] == c;
    }
  }

  /** PicrustNode._getSubTree: the explicit-stack post-order evaluator. The result is the
      recursive evaluation Prune when every named node it reaches is a tip and the root is
      unnamed; otherwise the stacks go out of step and nothing is returned. */
  method SubTreeMachine(t: Node, names: seq<string>) returns (r: Option<Node>)
    ensures Named(t, names) ==> r == None
    ensures !WellStacked(t, names) ==> r == None
    ensures !Named(t, names) && WellStacked(t, names) ==> r == Prune(t, names)
  {
    var stack := [Frame(t, |t.children|)];
    var result: seq<seq<Option<Node>>> := [[]];
    ghost var extra: nat := 0;
    InitInv(t, names);
    while stack != []
      invariant MachineInv(t, names, stack, result, extra)
      decreases Work(stack)
    {
      var top := stack[|stack| - 1];
      ResultNonEmpty(t, names, stack, result, extra);
      if Named(top.node, names) {
        NamedStep(t, names, stack, result, extra);
        PopWork(stack);
        extra := extra + (if TopHasAcc(stack) then 1 else 0);
        result := result[..|result| - 1] + [result[|result| - 1] + [Some(top.node)]];
        stack := stack[..|stack| - 1];
      } else if top.unvisited > 0 {
        var next := top.node.children[|top.node.children| - top.unvisited];
        PushStep(t, names, stack, result, extra);
        PushWork(stack);
        stack := stack[..|stack| - 1] + [Frame(top.node, top.unvisited - 1)];
        stack := stack + [Frame(next, |next.children|)];
        if next.children != [] {
          result := result + [[]];
        }
      } else {
        var kids := Survivors(result[|result| - 1]);
        var result1 := result;
        var newNode: Option<Node>;
        if top.node.children == [] {
          newNode := None;
        } else if |kids| == 0 {
          result1 := result[..|result| - 1];
          newNode := None;
        } else if |kids| == 1 {
          result1 := result[..|result| - 1];
          newNode := Some(Collapse(top.node, kids[0]));
        } else {
          result1 := result[..|result| - 1];
          newNode := Some(Rebuild(top.node, kids));
        }
        PopStep(t, names, stack, result, extra, result1, newNode);
        PopWork(stack);
        stack := stack[..|stack| - 1];
        if |result1| > 0 {
          result := result1[..|result1| - 1] + [result1[|result1| - 1] + [newNode]];
        } else {
          return newNode;
        }
      }
    }
    r := None;
  }
}
