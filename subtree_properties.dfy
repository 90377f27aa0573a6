/**
 * What the induced sub-tree is, stated about the recursive evaluation Prune (which the
 * explicit-stack evaluator equals whenever every named node it reaches is a tip): its shape,
 * idempotence, which tips survive, in what order, and at what path length from the root.
 */
module SubTreeProperties {
  import opened Wrappers
  import opened Tree
  import opened SubTree
  import opened GetSubTree

  // ------------------------------------------------------------------------------------
  // Survivors

  lemma {:induction false} SurvivorsCameFromAcc(acc: seq<Option<Node>>)
    ensures forall x | x in Survivors(acc) :: Some(x) in acc
    decreases |acc|
  {
    if acc != [] {
      SurvivorsCameFromAcc(acc[..|acc| - 1]);
    }
  }

  /** The filter works piecewise: the survivors of two runs of evaluated children are the
      survivors of the first run followed by those of the second. */
  lemma {:induction false} SurvivorsAppend(a: seq<Option<Node>>, b: seq<Option<Node>>)
    ensures Survivors(a + b) == Survivors(a) + Survivors(b)
    decreases |b|
  {
    if b == [] {
      assert a + b == a;
    } else {
      assert (a + b)[..|a + b| - 1] == a + b[..|b| - 1];
      SurvivorsAppend(a, b[..|b| - 1]);
    }
  }

  /** A node survives exactly when some evaluated child produced it. */
  lemma {:induction false} SurvivorsMember(acc: seq<Option<Node>>, x: Node)
    ensures x in Survivors(acc) <==> Some(x) in acc
    decreases |acc|
  {
    if acc != [] {
      SurvivorsMember(acc[..|acc| - 1], x);
      assert acc == acc[..|acc| - 1] + [acc[|acc| - 1]];
    }
  }

  function AllSome(cs: seq<Node>): (r: seq<Option<Node>>) {
    seq(|cs|, i requires 0 <= i < |cs| => Some(cs[i]))
  }

  /** When nothing was dropped, the survivors are exactly the evaluated children. */
  lemma {:induction false} SurvivorsOfAllSome(cs: seq<Node>)
    ensures Survivors(AllSome(cs)) == cs
    decreases |cs|
  {
    if cs != [] {
      assert AllSome(cs)[..|cs| - 1] == AllSome(cs[..|cs| - 1]);
      SurvivorsOfAllSome(cs[..|cs| - 1]);
    }
  }

  // ------------------------------------------------------------------------------------
  // Shape and idempotence

  /** Every tip carries a requested name and no node has exactly one child. */
  predicate Minimal(n: Node, names: seq<string>)
    decreases n
  {
    && (n.children == [] ==> Named(n, names))
    && |n.children| != 1
    && forall c | c in n.children :: Minimal(c, names)
  }

  /** The induced sub-tree has no single-child chains left and no tip that was not asked
      for, and every named node in it is still a tip. */
  lemma {:induction false} PruneIsMinimal(n: Node, names: seq<string>)
    requires WellStacked(n, names)
    ensures Prune(n, names).Some? ==>
              Minimal(Prune(n, names).value, names) && WellStacked(Prune(n, names).value, names)
    decreases n
  {
    if !Named(n, names) && n.children != [] {
      var acc := PruneEach(n.children, names);
      var kids := Survivors(acc);
      SurvivorsCameFromAcc(acc);
      forall x | x in kids ensures Minimal(x, names) && WellStacked(x, names) {
        var i :| 0 <= i < |acc| && acc[i] == Some(x);
        PruneIsMinimal(n.children[i], names);
      }
      if |kids| == 1 {
        assert kids[0] in kids;
      }
    }
  }

  /** A minimal, well-stacked tree is its own induced sub-tree. */
  lemma {:induction false} MinimalIsFixed(n: Node, names: seq<string>)
    requires WellStacked(n, names) && Minimal(n, names)
    ensures Prune(n, names) == Some(n)
    decreases n
  {
    if !Named(n, names) {
      var cs := n.children;
      forall i | 0 <= i < |cs| ensures Prune(cs[i], names) == Some(cs[i]) {
        assert cs[i] in cs;
        MinimalIsFixed(cs[i], names);
      }
      assert PruneEach(cs, names) == AllSome(cs);
      SurvivorsOfAllSome(cs);
    }
  }

  /** Pruning the induced sub-tree again with the same names changes nothing. */
  lemma PruneIdempotent(t: Node, names: seq<string>)
    requires WellStacked(t, names)
    ensures Prune(t, names).Some? ==> Prune(Prune(t, names).value, names) == Prune(t, names)
  {
    if Prune(t, names).Some? {
      PruneIsMinimal(t, names);
      MinimalIsFixed(Prune(t, names).value, names);
    }
  }

  // ------------------------------------------------------------------------------------
  // Which tips survive, and in which order

  /** The names of the tips, left to right. */
  function TipNames(n: Node): seq<Option<string>>
    decreases n, 1
  {
    if n.children == [] then [n.name] else TipNamesOf(n.children)
  }

  function TipNamesOf(cs: seq<Node>): seq<Option<string>>
    decreases cs, 0
  {
    if cs == [] then [] else TipNamesOf(cs[..|cs| - 1]) + TipNames(cs[|cs| - 1])
  }

  function OptTipNames(o: Option<Node>): seq<Option<string>> {
    if o.None? then [] else TipNames(o.value)
  }

  function OptTipNamesOf(acc: seq<Option<Node>>): seq<Option<string>> {
    if acc == [] then [] else OptTipNamesOf(acc[..|acc| - 1]) + OptTipNames(acc[|acc| - 1])
  }

  /** The requested names in a list of tip names, in order. */
  function Requested(s: seq<Option<string>>, names: seq<string>): (r: seq<Option<string>>)
    ensures forall x | x in r :: x.Some? && x.value in names
  {
    if s == [] then []
    else Requested(s[..|s| - 1], names)
           + (if s[|s| - 1].Some? && s[|s| - 1].value in names then [s[|s| - 1]] else [])
  }

  lemma {:induction false} RequestedAppend(a: seq<Option<string>>, b: seq<Option<string>>, names: seq<string>)
    ensures Requested(a + b, names) == Requested(a, names) + Requested(b, names)
    decreases |b|
  {
    if b == [] {
      assert a + b == a;
    } else {
      assert (a + b)[..|a + b| - 1] == a + b[..|b| - 1];
      RequestedAppend(a, b[..|b| - 1], names);
    }
  }

  lemma {:induction false} SurvivorsTipNames(acc: seq<Option<Node>>)
    ensures TipNamesOf(Survivors(acc)) == OptTipNamesOf(acc)
    decreases |acc|
  {
    if acc != [] {
      SurvivorsTipNames(acc[..|acc| - 1]);
      var s := Survivors(acc[..|acc| - 1]);
      if acc[|acc| - 1].Some? {
        var v := acc[|acc| - 1].value;
        assert (s + [v])[..|s|] == s;
        assert (s + [v])[|s|] == v;
      } else {
        assert s + [] == s;
      }
    }
  }

  lemma {:induction false} PruneEachTipNames(cs: seq<Node>, names: seq<string>)
    requires forall i | 0 <= i < |cs| :: OptTipNames(Prune(cs[i], names)) == Requested(TipNames(cs[i]), names)
    ensures OptTipNamesOf(PruneEach(cs, names)) == Requested(TipNamesOf(cs), names)
    decreases |cs|
  {
    if cs != [] {
      var init := cs[..|cs| - 1];
      assert PruneEach(cs, names)[..|cs| - 1] == PruneEach(init, names);
      PruneEachTipNames(init, names);
      RequestedAppend(TipNamesOf(init), TipNames(cs[|cs| - 1]), names);
    }
  }

  /** The tips of the induced sub-tree are exactly the requested tips of the tree, in their
      original left-to-right order. */
  lemma {:induction false} PruneTipNames(n: Node, names: seq<string>)
    requires WellStacked(n, names)
    ensures OptTipNames(Prune(n, names)) == Requested(TipNames(n), names)
    decreases n
  {
    if !Named(n, names) && n.children != [] {
      var cs := n.children;
      forall i | 0 <= i < |cs| ensures OptTipNames(Prune(cs[i], names)) == Requested(TipNames(cs[i]), names) {
        assert cs[i] in cs;
        PruneTipNames(cs[i], names);
      }
      PruneEachTipNames(cs, names);
      var kids := Survivors(PruneEach(cs, names));
      SurvivorsTipNames(PruneEach(cs, names));
      if |kids| == 1 {
        assert kids[..0] == [];
      }
    }
  }

  lemma {:induction false} TipNamesOfMember(cs: seq<Node>, i: nat, x: Option<string>)
    requires i < |cs| && x in TipNames(cs[i])
    ensures x in TipNamesOf(cs)
    decreases |cs|
  {
    if i < |cs| - 1 {
      TipNamesOfMember(cs[..|cs| - 1], i, x);
    }
  }

  lemma {:induction false} RequestedMember(s: seq<Option<string>>, x: string, names: seq<string>)
    requires Some(x) in s && x in names
    ensures Some(x) in Requested(s, names)
    decreases |s|
  {
    if s[|s| - 1] != Some(x) {
      RequestedMember(s[..|s| - 1], x, names);
    }
  }

  lemma {:induction false} RequestedNameIsTip(n: Node, s: string, names: seq<string>)
    requires WellStacked(n, names) && s in names && HasName(n, s)
    ensures Some(s) in TipNames(n)
    decreases n
  {
    if n.name != Some(s) {
      var c :| c in n.children && HasName(c, s);
      var i :| 0 <= i < |n.children| && n.children[i] == c;
      RequestedNameIsTip(c, s, names);
      TipNamesOfMember(n.children, i, Some(s));
    }
  }

  /** Every requested name that names a node of the tree is the name of a tip of the induced
      sub-tree, which therefore exists. */
  lemma RequestedNamesSurvive(t: Node, names: seq<string>, s: string)
    requires WellStacked(t, names) && s in names && HasName(t, s)
    ensures Prune(t, names).Some? && Some(s) in TipNames(Prune(t, names).value)
  {
    RequestedNameIsTip(t, s, names);
    RequestedMember(TipNames(t), s, names);
    PruneTipNames(t, names);
  }
}
