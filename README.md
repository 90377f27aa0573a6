# PicrustNode tree reshaping, modelled in Dafny

This project models the tree-reshaping core of PICRUSt's `PicrustNode`, a phylogenetic tree
node built on cogent's `PhyloNode`:

- `multifurcating(num, eps, constructor)` returns a copy of the tree in which no node has more
  than `num` children. While a node has too many children, its last `num` children are wrapped
  into a new unnamed node, and that node is appended as the last child. The new node has branch
  length `eps` (0.0 by default) when the constructor's node type has a `Length`.
- `bifurcating(eps, constructor)` is `multifurcating` with `num = 2`.
- `_getSubTree(names)` is the iterative post-order evaluator that induces the sub-tree spanned by
  the requested names. It keeps a stack of `[node, unvisited children]` frames and a stack of
  child accumulators. A requested (named) node is copied whole. An unnamed tip is dropped. An
  unnamed internal node is dropped when none of its children survive, and rebuilt over its
  survivors when two or more survive. When exactly one child survives, the node is collapsed
  into that child: branch lengths add, every other parameter the two share becomes the
  length-weighted average, a zero summed length leaves only the length, and a missing length on
  either side leaves no parameters at all.
- `getSubTree(names)` rejects a name that names no node of the tree (tips, internal nodes and the
  root are all searched) before evaluating. It fails when the evaluator returns nothing. On
  success it gives the result the root's metadata: a tip keeps its own name but takes the
  root's parameters; an internal result takes the root's name and parameters, and is unrooted
  when the original root had more than two children.

Trees are immutable values, `Tree.Node(name, children, params)`. A node's branch length is its
`"length"` parameter. The copy that the source mutates becomes a new value. The loops the source
runs are methods with loop invariants, each proved equal to a specification function:

- `WrapChildren` and `ReduceDegree` are proved against `WrapAll` and `Reduce`;
- `SubTreeMachine` is proved against the recursive evaluation `Prune`.

The specification functions carry the properties: degree bound, tip order, idempotence,
minimality, which names survive, and branch-length additivity.

The explicit-stack evaluator has a quirk, modelled as written. A requested node that has
children pushes a child accumulator at pre-visit, and that accumulator is never popped, because
the node is copied without a post-visit. The same happens when the root itself is requested.
In both cases the two stacks go out of step, the loop ends without a `return`, and
`getSubTree` reports that no tree was created. `SubTree.SubTreeMachine` states this precisely:
it returns nothing when the root is requested or when some requested node it reaches has
children (`WellStacked` fails). Otherwise it returns `Prune`, which is itself nothing when no
requested tip survives.
`SubTreeExamples.NamedInternalNodeIsBadlyStacked` shows a tree where the recursive evaluation
would keep the requested node but the evaluator returns nothing.

## Model

| member | source | states |
|---|---|---|
| DegreeReduction.WrapStep | picrust/picrustnode.py:31-37 | one wrap removes the last `num` children, keeps the rest in order, appends one unnamed node holding exactly them (length `eps` only when lengths are supported), drops the child count by `num-1` and keeps the leaf order |
| DegreeReduction.WrapAll | picrust/picrustnode.py:31-37 | the finished loop leaves at most `num` children, leaves a short enough list untouched, and leaves at least two when it wrapped |
| DegreeReduction.WrapAllLeaves | picrust/picrustnode.py:31-37 | however many wraps the loop makes, the tips below the children, left to right, are the same as before |
| DegreeReduction.WrapChildren | picrust/picrustnode.py:31-37 | the `while` loop computes exactly `WrapAll` |
| DegreeReduction.ReduceDegree | picrust/picrustnode.py:28-39 | the pre-order walk over the copy, which fixes each node and then its resulting children (synthetic ones included), computes exactly `Reduce` |
| DegreeReduction.Multifurcating | picrust/picrustnode.py:6-39 | `num < 2` is rejected before any work; otherwise the result is `Reduce` with `eps` defaulted to 0.0, every node has at most `num` children, and the tips are unchanged and in order |
| DegreeReduction.Bifurcating | picrust/picrustnode.py:41-43 | exactly `multifurcating` with `num = 2`, so every node has at most two children and the tips are unchanged |
| DegreeReduction.ReduceMaxDegree | picrust/picrustnode.py:28-37 | every node of the result, synthetic nodes included, has at most `num` children |
| DegreeReduction.ReduceLeaves | picrust/picrustnode.py:28-37 | the result's tips, left to right, are exactly the input's tips |
| DegreeReduction.ReduceUnchanged | picrust/picrustnode.py:30-31 | a tree already within the degree bound comes back unchanged |
| SubTree.MergeParams | picrust/picrustnode.py:119-135 | with either length missing the parameters are empty. With both present, the length is the sum; a zero sum leaves only the length; otherwise the keys are the shared ones plus the length, and each shared value times the sum equals the length-weighted combination of the two values |
| SubTree.SubTreeMachine | picrust/picrustnode.py:75-142 | the explicit-stack evaluator returns nothing when the root is requested or a requested node it reaches has children, and otherwise returns exactly the recursive evaluation `Prune` |
| GetSubTree.GetSubTree | picrust/picrustnode.py:45-73 | succeeds exactly when every requested name names a node and the evaluator returns a tree, and fails only with a missing name or "no tree created". It fails with the first requested name that names no node, exactly when such a name exists. With all names present, it fails with "no tree created" exactly when the evaluator returns nothing. On success the result is the pruned tree with the root's metadata: a tip keeps its name and takes the root's parameters; an internal node takes the root's name and parameters and is unrooted when the root had more than two children |
| SubTreeProperties.SurvivorsCameFromAcc | picrust/picrustnode.py:106-107 | every surviving child was one of the evaluated children |
| SubTreeProperties.SurvivorsAppend | picrust/picrustnode.py:106-107 | the filter works run by run: the survivors of two runs of evaluated children are those of the first followed by those of the second, so the kept children stay in their original order whatever is dropped |
| SubTreeProperties.SurvivorsMember | picrust/picrustnode.py:106-107 | a node is among the survivors exactly when some evaluated child produced it |
| SubTreeProperties.SurvivorsOfAllSome | picrust/picrustnode.py:106-107 | when no child was dropped, the survivors are exactly the children, in order |
| SubTreeProperties.PruneIsMinimal | picrust/picrustnode.py:104-138 | in the induced sub-tree every tip carries a requested name and no node has exactly one child |
| SubTreeProperties.MinimalIsFixed | picrust/picrustnode.py:91-138 | a tree that already has that shape is its own induced sub-tree |
| SubTreeProperties.PruneIdempotent | picrust/picrustnode.py:88-142 | inducing the sub-tree again with the same names changes nothing |
| SubTreeProperties.PruneTipNames | picrust/picrustnode.py:88-142 | the tips of the induced sub-tree are exactly the requested tips of the tree, in their original left-to-right order |
| SubTreeProperties.RequestedNamesSurvive | picrust/picrustnode.py:53-57 | every requested name that names a node is the name of a tip of the induced sub-tree |
| BranchLengths.CollapseTipDepths | picrust/picrustnode.py:119-135 | the promoted child sits at the summed length, so every tip below it keeps its distance from above the collapsed node |
| BranchLengths.DecideTipDepths | picrust/picrustnode.py:104-138 | dropping, rebuilding or collapsing an unnamed node keeps its surviving tips at the same distance, and the result still has a length |
| BranchLengths.PruneKeepsTipDepths | picrust/picrustnode.py:88-142 | when every node, the root included, has a length, each surviving tip lies at the same distance from above the root as in the original tree |
| BranchLengths.PruneKeepsRelativeTipDepths | picrust/picrustnode.py:88-142 | for a tree with lengths on every node below a root that may have none, the root-to-tip depths of the surviving tips all move by one common offset |
| BranchLengths.DecideWithoutLength | picrust/picrustnode.py:104-138 | deciding a node without a length keeps its survivors' tip depths when it drops or rebuilds it, and shifts them by minus the survivor's length when it collapses into one survivor |
| BranchLengths.CollapseWithoutLength | picrust/picrustnode.py:119-135 | a lengthless node collapsing into its child leaves the child with no parameters, so the child's tips move up by the child's own length |
| BranchLengths.MergedWithinRange | picrust/picrustnode.py:128-132 | with non-negative lengths, a merged parameter other than the length is present on both sides and lies between the node's value and the child's |
| SubTreeExamples.CherryCollapses | picrust/picrustnode.py:104-135 | in a cherry `(T:lt,U:lu)P:lp` with only T requested, P collapses into `T:lt+lp` |
| SubTreeExamples.KeepTwoTipsOfTwoCherries | picrust/picrustnode.py:104-138 | requesting A and C in `((A:1,B:2)X:3,(C:1,D:1)Y:0.5)R` gives `(A:4,C:1.5)R` |
| SubTreeExamples.LengthlessRootCollapse | picrust/picrustnode.py:104-135 | requesting A and B in `((A:1,B:2)X:3,C:4)R`, with no length on R, gives `(A:1,B:2)X` with no parameters: X's length is lost in the collapse |
| SubTreeExamples.NamedInternalNodeIsBadlyStacked | picrust/picrustnode.py:91-103 | requesting X in `((A,B)X,C)R` is not well stacked, although the recursive evaluation keeps X |

## Left out

- The cogent `PhyloNode`/`TreeNode` API is not part of this model. `copy` and `deepcopy` become value identity. `getNodeNames` becomes the predicate `HasName`. `preorder` becomes the recursion of `ReduceDegree`. `_default_tree_constructor` becomes `Rebuild`, which keeps the node's name and parameters over new children.
- The default constructor also renumbers automatically named edges in the nodes it builds. That renaming belongs to cogent's tree builder and is not captured: `Rebuild` and the copy of a requested node keep every name as it was. The re-parenting done by `constructor(Children=...)` is not modelled.
- `unrooted()` belongs to cogent and is outside this model. `getSubTree` takes it as a function parameter `unroot`.
- `hasattr(constructor, 'Length')` is modelled as the boolean `setLength`. A custom `constructor` argument is otherwise not modelled: synthetic nodes are unnamed nodes with an optional length.
- The `NameLoaded` flag and the sharing of the root's `params` dictionary with the result are not modelled: dictionaries are values, so aliasing and identity do not exist here.
- The in-place mutation of the copied tree is modelled on values. The order in which nodes are fixed matches the source's pre-order walk.
- Errors: the three failures become the `TreeError` cases `TooFewChildren`, `NameNotFound` and `NoTreeCreated`, returned in a `Result` instead of raised. Only `PhyloNode` is imported, so the `raise TreeError` and `raise SimTreeError` statements actually fail with a `NameError`; the model keeps them as distinct failures, and `ValueError` is raised as written.
- Branch lengths and parameters are exact `real` numbers. Floating-point rounding in the sums and weighted averages is not modelled.
- A parameter whose value is `None` is an absent key. The merge filters out `None` values, so this is the same outcome.
- The identity test `n is not "length"` is modelled as string inequality.
- A node's name is `Option<string>`, and a requested name is a string. Requesting `None` as a name is not modelled.
- Collapsing a chain of single-child nodes repeats the two-node merge bottom-up. The model states each merge and the distance-preservation of the whole evaluation. It has no separate closed form for the weighted average over a whole chain.
- PruneKeepsTipDepths: the exact depths, with no offset, are stated only when the root has a length too. A lengthless root that collapses into its only surviving child drops that child's length (`SubTreeExamples.LengthlessRootCollapse`), so for such trees `PruneKeepsRelativeTipDepths` states the depths up to one common offset.
- PruneKeepsRelativeTipDepths: states root-to-tip depths only. Tip-to-tip path lengths are not stated: equal tip depths do not determine them, and no lemma says that every kept internal node keeps its depth.
- PruneKeepsTipDepths: likewise states root-to-tip depths only, not tip-to-tip path lengths.
