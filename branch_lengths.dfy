/**
 * What the parameter merge preserves: collapsing a single-child chain keeps the branch
 * length from any node down to every surviving tip, and a merged parameter stays between
 * the two values it averages.
 */
module BranchLengths {
  import opened Wrappers
  import opened Tree
  import opened SubTree
  import opened SubTreeProperties

  /** Every node of the tree has a branch length. */
  predicate HasLengths(n: Node)
    decreases n
  {
    LengthKey in n.params && forall c | c in n.children :: HasLengths(c)
  }

  /** `Tree.Length` with a missing length read as 0.0, for summing depths. */
  function Len(n: Node): real {
    if Length(n).Some? then Length(n).value else 0.0
  }

  /** Each tip's name with the total branch length from above `n` down to that tip, left to
      right. */
  function TipDepths(n: Node): seq<(Option<string>, real)>
    decreases n, 1
  {
    if n.children == [] then [(n.name, Len(n))] else Shift(TipDepthsOf(n.children), Len(n))
  }

  function TipDepthsOf(cs: seq<Node>): seq<(Option<string>, real)>
    decreases cs, 0
  {
    if cs == [] then [] else TipDepthsOf(cs[..|cs| - 1]) + TipDepths(cs[|cs| - 1])
  }

  function Shift(s: seq<(Option<string>, real)>, d: real): (r: seq<(Option<string>, real)>) {
    seq(|s|, i requires 0 <= i < |s| => (s[i].0, s[i].1 + d))
  }

  function OptTipDepths(o: Option<Node>): seq<(Option<string>, real)> {
    if o.None? then [] else TipDepths(o.value)
  }

  function OptTipDepthsOf(acc: seq<Option<Node>>): seq<(Option<string>, real)> {
    if acc == [] then [] else OptTipDepthsOf(acc[..|acc| - 1]) + OptTipDepths(acc[|acc| - 1])
  }

  /** The entries whose tip carries a requested name, in order. */
  function RequestedDepths(s: seq<(Option<string>, real)>, names: seq<string>): seq<(Option<string>, real)> {
    if s == [] then []
    else RequestedDepths(s[..|s| - 1], names)
           + (if s[|s| - 1].0.Some? && s[|s| - 1].0.value in names then [s[|s| - 1]] else [])
  }

  lemma {:induction false} RequestedDepthsAppend(a: seq<(Option<string>, real)>, b: seq<(Option<string>, real)>,
                                                 names: seq<string>)
    ensures RequestedDepths(a + b, names) == RequestedDepths(a, names) + RequestedDepths(b, names)
    decreases |b|
  {
    if b == [] {
      assert a + b == a;
    } else {
      assert (a + b)[..|a + b| - 1] == a + b[..|b| - 1];
      RequestedDepthsAppend(a, b[..|b| - 1], names);
    }
  }

  lemma {:induction false} RequestedDepthsShift(s: seq<(Option<string>, real)>, d: real, names: seq<string>)
    ensures RequestedDepths(Shift(s, d), names) == Shift(RequestedDepths(s, names), d)
    decreases |s|
  {
    if s != [] {
      assert Shift(s, d)[..|s| - 1] == Shift(s[..|s| - 1], d);
      RequestedDepthsShift(s[..|s| - 1], d, names);
    }
  }

  lemma ShiftSingleton(name: Option<string>, x: real, d: real)
    ensures Shift([(name, x)], d) == [(name, x + d)]
  {
    assert Shift([(name, x)], d)[0] == (name, x + d);
  }

  lemma ShiftShift(s: seq<(Option<string>, real)>, a: real, b: real)
    ensures Shift(Shift(s, a), b) == Shift(s, a + b)
  {
  }

  lemma {:induction false} SurvivorsTipDepths(acc: seq<Option<Node>>)
    ensures TipDepthsOf(Survivors(acc)) == OptTipDepthsOf(acc)
    decreases |acc|
  {
    if acc != [] {
      SurvivorsTipDepths(acc[..|acc| - 1]);
      var s := Survivors(acc[..|acc| - 1]);
      if acc[|acc| - 1].Some? {
        var v := acc[|acc| - 1].value;
        assert (s + [v])[..|s|] == s;
        assert (s + [v])[|s|] == v;
      } else {
        assert s + [] == s;
      }
    }
  }

  lemma {:induction false} PruneEachTipDepths(cs: seq<Node>, names: seq<string>)
    requires forall i | 0 <= i < |cs| ::
               OptTipDepths(Prune(cs[i], names)) == RequestedDepths(TipDepths(cs[i]), names)
    ensures OptTipDepthsOf(PruneEach(cs, names)) == RequestedDepths(TipDepthsOf(cs), names)
    decreases |cs|
  {
    if cs != [] {
      var init := cs[..|cs| - 1];
      assert PruneEach(cs, names)[..|cs| - 1] == PruneEach(init, names);
      PruneEachTipDepths(init, names);
      RequestedDepthsAppend(TipDepthsOf(init), TipDepths(cs[|cs| - 1]), names);
    }
  }

  /** A promoted child sits at the summed length, so every tip below it keeps its distance. */
  lemma CollapseTipDepths(node: Node, child: Node)
    requires LengthKey in node.params && LengthKey in child.params
    ensures TipDepths(Collapse(node, child)) == Shift(TipDepths(child), Len(node))
  {
    var c := Collapse(node, child);
    CollapseShape(node, child);
    if child.children == [] {
      assert TipDepths(c) == [(child.name, Len(child) + Len(node))];
      assert TipDepths(child) == [(child.name, Len(child))];
      ShiftSingleton(child.name, Len(child), Len(node));
    } else {
      assert TipDepths(c) == Shift(TipDepthsOf(child.children), Len(child) + Len(node));
      ShiftShift(TipDepthsOf(child.children), Len(child), Len(node));
    }
  }

  /** The promoted child keeps its name and children and carries the summed length. */
  lemma CollapseShape(node: Node, child: Node)
    requires LengthKey in node.params && LengthKey in child.params
    ensures Collapse(node, child).name == child.name
    ensures Collapse(node, child).children == child.children
    ensures Len(Collapse(node, child)) == Len(child) + Len(node)
  {
    assert Length(node).Some? && Length(child).Some?;
  }

  /** Branch-length additivity: in the induced sub-tree every surviving tip lies at the same
      total branch length below the evaluated node as in the tree, and the tips appear in
      their original order; the evaluated node keeps a branch length. */
  lemma {:induction false} PruneKeepsTipDepths(n: Node, names: seq<string>)
    requires WellStacked(n, names) && HasLengths(n)
    ensures OptTipDepths(Prune(n, names)) == RequestedDepths(TipDepths(n), names)
    ensures Prune(n, names).Some? ==> LengthKey in Prune(n, names).value.params
    decreases n
  {
    if !Named(n, names) && n.children != [] {
      var cs := n.children;
      var acc := PruneEach(cs, names);
      forall i | 0 <= i < |cs|
        ensures OptTipDepths(Prune(cs[i], names)) == RequestedDepths(TipDepths(cs[i]), names)
        ensures Prune(cs[i], names).Some? ==> LengthKey in Prune(cs[i], names).value.params
      {
        assert cs[i] in cs;
        PruneKeepsTipDepths(cs[i], names);
      }
      PruneEachTipDepths(cs, names);
      RequestedDepthsShift(TipDepthsOf(cs), Len(n), names);
      SurvivorsTipDepths(acc);
      SurvivorsCameFromAcc(acc);
      var kids := Survivors(acc);
      forall x | x in kids ensures LengthKey in x.params {
        var i :| 0 <= i < |acc| && acc[i] == Some(x);
      }
      DecideTipDepths(n, kids);
    }
  }

  /** Branch-length additivity for a tree as it is usually given, with lengths on every node
      below the root but possibly none on the root itself. The root-to-tip depths of the
      surviving tips all move by one common offset. The offset is
      zero unless a lengthless root collapses into its only surviving child, which then loses
      its own length. */
  lemma PruneKeepsRelativeTipDepths(t: Node, names: seq<string>)
    requires WellStacked(t, names)
    requires forall c | c in t.children :: HasLengths(c)
    ensures exists d :: OptTipDepths(Prune(t, names)) == Shift(RequestedDepths(TipDepths(t), names), d)
  {
    var expected := RequestedDepths(TipDepths(t), names);
    ShiftZero(expected);
    if LengthKey in t.params {
      assert HasLengths(t);
      PruneKeepsTipDepths(t, names);
      assert OptTipDepths(Prune(t, names)) == Shift(expected, 0.0);
    } else if Named(t, names) || t.children == [] {
      var tip := (t.name, Len(t));
      assert t.children == [];
      assert TipDepths(t) == [tip];
      var none: seq<(Option<string>, real)> := [];
      assert [tip][..0] == none;
      assert expected == RequestedDepths(none, names)
                         + (if tip.0.Some? && tip.0.value in names then [tip] else []);
      if Named(t, names) {
        assert expected == [tip];
      } else {
        assert expected == [];
      }
      assert OptTipDepths(Prune(t, names)) == Shift(expected, 0.0);
    } else {
      var cs := t.children;
      var acc := PruneEach(cs, names);
      forall i | 0 <= i < |cs|
        ensures OptTipDepths(Prune(cs[i], names)) == RequestedDepths(TipDepths(cs[i]), names)
      {
        assert cs[i] in cs;
        PruneKeepsTipDepths(cs[i], names);
      }
      PruneEachTipDepths(cs, names);
      assert Len(t) == 0.0;
      RequestedDepthsShift(TipDepthsOf(cs), 0.0, names);
      ShiftZero(RequestedDepths(TipDepthsOf(cs), names));
      SurvivorsTipDepths(acc);
      var kids := Survivors(acc);
      assert expected == TipDepthsOf(kids);
      DecideWithoutLength(t, kids);
      assert OptTipDepths(Prune(t, names)) == Shift(expected, RootOffset(kids));
    }
  }

  /** The common offset of `PruneKeepsRelativeTipDepths`: minus the promoted child's length
      when the root collapses, zero otherwise. */
  function RootOffset(kids: seq<Node>): real {
    if |kids| == 1 then -Len(kids[0]) else 0.0
  }

  /** Deciding a node that has no length: dropping or rebuilding keeps its survivors' tip
      depths, and collapsing into a single survivor takes that survivor's length away. */
  lemma DecideWithoutLength(n: Node, kids: seq<Node>)
    requires LengthKey !in n.params
    ensures OptTipDepths(Decide(n, kids)) == Shift(TipDepthsOf(kids), RootOffset(kids))
  {
    assert Length(n) == None;
    if |kids| == 1 {
      assert kids[..0] == [];
      assert TipDepthsOf(kids) == TipDepths(kids[0]);
      CollapseWithoutLength(n, kids[0]);
    } else {
      ShiftZero(TipDepthsOf(kids));
      assert Len(n) == 0.0;
      if |kids| >= 2 {
        assert TipDepths(Rebuild(n, kids)) == Shift(TipDepthsOf(kids), 0.0);
      }
    }
  }

  /** A lengthless node collapsing into its child leaves the child with no length at all, so
      the child's tips move up by the child's own length. */
  lemma CollapseWithoutLength(n: Node, k: Node)
    requires LengthKey !in n.params
    ensures TipDepths(Collapse(n, k)) == Shift(TipDepths(k), -Len(k))
  {
    assert Length(n).None?;
    assert Collapse(n, k) == k.(params := map[]);
    assert Len(k.(params := map[])) == 0.0;
    if k.children == [] {
      ShiftSingleton(k.name, Len(k), -Len(k));
    } else {
      ShiftShift(TipDepthsOf(k.children), Len(k), -Len(k));
    }
  }

  lemma ShiftZero(s: seq<(Option<string>, real)>)
    ensures Shift(s, 0.0) == s
  {
  }

  /** The decision on an unnamed internal node shifts its surviving children's tip depths by
      the node's own length, whether it drops, collapses or rebuilds the node. */
  lemma DecideTipDepths(n: Node, kids: seq<Node>)
    requires LengthKey in n.params
    requires forall x | x in kids :: LengthKey in x.params
    ensures OptTipDepths(Decide(n, kids)) == Shift(TipDepthsOf(kids), Len(n))
    ensures Decide(n, kids).Some? ==> LengthKey in Decide(n, kids).value.params
  {
    if |kids| == 1 {
      assert kids[0] in kids;
      assert kids[..0] == [];
      CollapseTipDepths(n, kids[0]);
    }
  }

  /** `v` lies between `a` and `b`, whichever is larger. */
  predicate Between(v: real, a: real, b: real) {
    (a <= v <= b) || (b <= v <= a)
  }

  /** A merged parameter lies between the node's and the child's values when both lengths
      are non-negative: the merge is a genuine weighted average. */
  lemma MergedWithinRange(node: Node, child: Node, k: string)
    requires LengthKey in node.params && LengthKey in child.params
    requires node.params[LengthKey] >= 0.0 && child.params[LengthKey] >= 0.0
    requires k in MergeParams(node, child) && k != LengthKey
    ensures k in node.params && k in child.params
    ensures Between(MergeParams(node, child)[k], node.params[k], child.params[k])
  {
    var ln, lc := node.params[LengthKey], child.params[LengthKey];
    assert Length(node) == Some(ln) && Length(child) == Some(lc);
    assert ln + lc != 0.0;
    WeightedBetween(MergeParams(node, child)[k], node.params[k], child.params[k], ln, lc);
  }

  /** A value `v` with `v * (ln + lc) == a * ln + b * lc` for non-negative weights lies
      between `a` and `b`. */
  lemma WeightedBetween(v: real, a: real, b: real, ln: real, lc: real)
    requires ln >= 0.0 && lc >= 0.0 && ln + lc != 0.0
    requires WeightedBy(v, a, ln, b, lc)
    ensures Between(v, a, b)
  {
    assert (v - a) * (ln + lc) == (b - a) * lc;
    assert (v - b) * (ln + lc) == (a - b) * ln;
    if a <= b {
      ProductSign(b - a, lc);
      ProductSign(b - a, ln);
    } else {
      ProductSign(a - b, lc);
      ProductSign(a - b, ln);
    }
    ProductSign(v - a, ln + lc);
    ProductSign(v - b, ln + lc);
  }

  /** Sign facts about a product with a non-negative factor. */
  lemma ProductSign(x: real, y: real)
    requires y >= 0.0
    ensures x >= 0.0 ==> x * y >= 0.0
    ensures y > 0.0 && x * y >= 0.0 ==> x >= 0.0
    ensures y > 0.0 && x * y <= 0.0 ==> x <= 0.0
    ensures (-x) * y == -(x * y)
  {
  }
}
