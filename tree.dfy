/**
 * The tree data model shared by both transformations: a phylogenetic node with an
 * optional name, an ordered sequence of children and a parameter dictionary. The
 * branch length of a node is its "length" parameter, as it is for cogent's PhyloNode.
 */
module Tree {
  import opened Wrappers

  datatype Node = Node(name: Option<string>, children: seq<Node>, params: map<string, real>)

  const LengthKey: string := "length"

  /** The node's branch length, None when it has none. */
  function Length(n: Node): Option<real> {
    if LengthKey in n.params then Some(n.params[LengthKey]) else None
  }

  /** The tips of the tree in left-to-right order. */
  function Leaves(n: Node): (r: seq<Node>)
    decreases n, 1
  {
    if n.children == [] then [n] else LeavesOf(n.children)
  }

  /** The tips of a sequence of trees, left to right. */
  function LeavesOf(cs: seq<Node>): (r: seq<Node>)
    decreases cs, 0
  {
    if cs == [] then [] else LeavesOf(cs[..|cs| - 1]) + Leaves(cs[|cs| - 1])
  }

  /** Number of nodes of the tree. */
  function Size(n: Node): (r: nat)
    decreases n, 1
  {
    1 + SizeOf(n.children)
  }

  function SizeOf(cs: seq<Node>): (r: nat)
    decreases cs, 0
  {
    if cs == [] then 0 else SizeOf(cs[..|cs| - 1]) + Size(cs[|cs| - 1])
  }

  lemma {:induction false} LeavesOfAppend(a: seq<Node>, b: seq<Node>)
    ensures LeavesOf(a + b) == LeavesOf(a) + LeavesOf(b)
    decreases |b|
  {
    if b == [] {
      assert a + b == a;
    } else {
      var b' := b[..|b| - 1];
      assert (a + b)[..|a + b| - 1] == a + b';
      assert (a + b)[|a + b| - 1] == b[|b| - 1];
      LeavesOfAppend(a, b');
    }
  }

  lemma LeavesOfSingleton(x: Node)
    ensures LeavesOf([x]) == Leaves(x)
  {
    assert [x][..0] == [];
  }

  /** Every tree has at least one tip: a node with no children is its own tip. */
  lemma {:induction false} LeavesNonEmpty(n: Node)
    ensures |Leaves(n)| >= 1
    decreases n, 1
  {
    if n.children != [] {
      LeavesOfNonEmpty(n.children);
    }
  }

  lemma {:induction false} LeavesOfNonEmpty(cs: seq<Node>)
    requires cs != []
    ensures |LeavesOf(cs)| >= |cs|
    decreases cs, 0
  {
    LeavesNonEmpty(cs[|cs| - 1]);
    if |cs| > 1 {
      LeavesOfNonEmpty(cs[..|cs| - 1]);
    }
  }

  /** One member of a sequence of trees holds no more tips than the whole sequence, and
      strictly fewer when the sequence has another member. */
  lemma LeavesOfMember(cs: seq<Node>, i: nat)
    requires i < |cs|
    ensures |Leaves(cs[i])| <= |LeavesOf(cs)|
    ensures |cs| >= 2 ==> |Leaves(cs[i])| < |LeavesOf(cs)|
  {
    var pre, post := cs[..i], cs[i + 1..];
    assert cs == pre + [cs[i]] + post;
    LeavesOfAppend(pre + [cs[i]], post);
    LeavesOfAppend(pre, [cs[i]]);
    LeavesOfSingleton(cs[i]);
    if |cs| >= 2 {
      if pre != [] { LeavesOfNonEmpty(pre); } else { LeavesOfNonEmpty(post); }
    }
  }

  lemma {:induction false} SizeOfMember(cs: seq<Node>, i: nat)
    requires i < |cs|
    ensures Size(cs[i]) <= SizeOf(cs)
    decreases |cs|
  {
    if i < |cs| - 1 {
      SizeOfMember(cs[..|cs| - 1], i);
    }
  }

  lemma {:induction false} SizeOfAppend(a: seq<Node>, b: seq<Node>)
    ensures SizeOf(a + b) == SizeOf(a) + SizeOf(b)
    decreases |b|
  {
    if b == [] {
      assert a + b == a;
    } else {
      var b' := b[..|b| - 1];
      assert (a + b)[..|a + b| - 1] == a + b';
      assert (a + b)[|a + b| - 1] == b[|b| - 1];
      SizeOfAppend(a, b');
    }
  }
}
