/** Two worked cases of the induced sub-tree. */
module SubTreeExamples {
  import opened Wrappers
  import opened Tree
  import opened SubTree

  function Tip(name: string, len: real): Node {
    Node(Some(name), [], map[LengthKey := len])
  }

  function Inner(name: string, kids: seq<Node>, len: real): Node {
    Node(Some(name), kids, map[LengthKey := len])
  }

  /** A cherry (T:lt,U:lu)P:lp in which only T is requested collapses into T:lt+lp. */
  lemma CherryCollapses(t: string, lt: real, u: string, lu: real, p: string, lp: real, names: seq<string>)
    requires t in names && u !in names && p !in names
    ensures Prune(Inner(p, [Tip(t, lt), Tip(u, lu)], lp), names) == Some(Tip(t, lt + lp))
  {
    var a, b := Tip(t, lt), Tip(u, lu);
    var x := Inner(p, [a, b], lp);
    assert Prune(a, names) == Some(a) && Prune(b, names) == None;
    assert PruneEach(x.children, names) == [Some(a), None];
    assert Survivors([Some(a), None]) == [a] by {
      assert [Some(a), None][..1] == [Some(a)];
      assert [Some(a)][..0] == [];
    }
    assert MergeParams(x, a) == map[LengthKey := lp + lt];
  }

  /** In ((A:1,B:2)X:3,(C:1,D:1)Y:0.5)R, keeping A and C collapses X into A and Y into C,
      giving (A:4,C:1.5)R. */
  lemma KeepTwoTipsOfTwoCherries()
    ensures var x := Inner("X", [Tip("A", 1.0), Tip("B", 2.0)], 3.0);
            var y := Inner("Y", [Tip("C", 1.0), Tip("D", 1.0)], 0.5);
            var r := Node(Some("R"), [x, y], map[]);
            Prune(r, ["A", "C"]) == Some(Node(Some("R"), [Tip("A", 4.0), Tip("C", 1.5)], map[]))
  {
    var names := ["A", "C"];
    var x := Inner("X", [Tip("A", 1.0), Tip("B", 2.0)], 3.0);
    var y := Inner("Y", [Tip("C", 1.0), Tip("D", 1.0)], 0.5);
    var r := Node(Some("R"), [x, y], map[]);
    assert "A" in names && "C" in names && "B" !in names && "D" !in names;
    assert "X" !in names && "Y" !in names && "R" !in names;
    CherryCollapses("A", 1.0, "B", 2.0, "X", 3.0, names);
    CherryCollapses("C", 1.0, "D", 1.0, "Y", 0.5, names);
    assert 1.0 + 3.0 == 4.0 && 1.0 + 0.5 == 1.5;
    BothSurvive(r, names, Tip("A", 4.0), Tip("C", 1.5));
  }

  /** In ((A:1,B:2)X:3,C:4)R with no length on R, keeping A and B collapses R into X. R has
      no length to add, so X comes back with no parameters at all: A and B stay 3 apart, but
      X's own length of 3 is gone. */
  lemma LengthlessRootCollapse()
    ensures var x := Inner("X", [Tip("A", 1.0), Tip("B", 2.0)], 3.0);
            var r := Node(Some("R"), [x, Tip("C", 4.0)], map[]);
            Prune(r, ["A", "B"]) == Some(Node(Some("X"), [Tip("A", 1.0), Tip("B", 2.0)], map[]))
  {
    var names := ["A", "B"];
    var a, b, c := Tip("A", 1.0), Tip("B", 2.0), Tip("C", 4.0);
    var x := Inner("X", [a, b], 3.0);
    var r := Node(Some("R"), [x, c], map[]);
    assert "A" in names && "B" in names && "C" !in names && "X" !in names && "R" !in names;
    BothSurvive(x, names, a, b);
    assert Prune(c, names) == None;
    assert PruneEach(r.children, names) == [Some(x), None];
    assert Survivors([Some(x), None]) == [x] by {
      assert [Some(x), None][..1] == [Some(x)];
      assert [Some(x)][..0] == [];
    }
    assert MergeParams(r, x) == map[];
  }

  /** An unnamed node whose two children both survive is rebuilt over their results. */
  lemma BothSurvive(n: Node, names: seq<string>, a: Node, c: Node)
    requires !Named(n, names) && |n.children| == 2
    requires Prune(n.children[0], names) == Some(a) && Prune(n.children[1], names) == Some(c)
    ensures Prune(n, names) == Some(Node(n.name, [a, c], n.params))
  {
    assert PruneEach(n.children, names) == [Some(a), Some(c)];
    assert Survivors([Some(a), Some(c)]) == [a, c] by {
      assert [Some(a), Some(c)][..1] == [Some(a)];
      assert [Some(a)][..0] == [];
    }
  }

  /** Requesting the internal node X of ((A,B)X,C)R: the recursive evaluation keeps X whole,
      but X is a named node with children, so the explicit-stack evaluator leaves X's
      accumulator behind and returns nothing. */
  lemma NamedInternalNodeIsBadlyStacked()
    ensures var x := Inner("X", [Tip("A", 1.0), Tip("B", 1.0)], 1.0);
            var r := Node(Some("R"), [x, Tip("C", 1.0)], map[]);
            && !WellStacked(r, ["X"])
            && Prune(r, ["X"]).Some?
  {
    var names := ["X"];
    var x := Inner("X", [Tip("A", 1.0), Tip("B", 1.0)], 1.0);
    var cTip := Tip("C", 1.0);
    var r := Node(Some("R"), [x, cTip], map[]);
    assert x in r.children && !WellStacked(x, names);
    assert Prune(x, names) == Some(x);
    assert Prune(cTip, names) == None;
    assert PruneEach(r.children, names) == [Some(x), None];
    assert Survivors([Some(x), None]) == [x] by {
      assert [Some(x), None][..1] == [Some(x)];
      assert [Some(x)][..0] == [];
    }
  }
}
