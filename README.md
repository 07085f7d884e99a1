# Titer-model result documents and the substitution-model tree annotator

This project models the part of augur's `titers` command (`augur/titers.py`)
that runs after the titer models are fitted. The fitting itself is not modelled.

- **Substitution model** (`infer_substitution_model.run`)
  - The four compiled tables are collected into the result document.
  - If a tree is given, every clade is annotated:
    - `dTiterSub` is the titer drop on the branch from its parent: the sum of
      the fitted effects of the substitutions `get_mutations(child, parent)`,
      where a substitution without a fitted effect counts 0.
    - `cTiterSub` is the cumulative drop from the root.
  - The root gets 0 for both.
  - The annotations go into the document under `nodes`, keyed by clade name.
- **Tree model** (`infer_tree_model.run`)
  - The document holds the three compiled tables.
  - It also holds, under `nodes`, `{"dTiter", "cTiter"}` for every clade
    `find_clades()` yields, keyed by name.

Modules:

- `Dict` (`dict.dfy`): Python dictionaries built by a series of assignments
  `d[k] = v`, where the last assignment to a key wins.
- `Phylo` (`phylo.dfy`): Bio.Phylo clades as an inductive datatype, and
  `find_clades()` as a pre-order.
- `BranchEffects` (`effects.dfy`): the drop on one branch, and the inner loop
  that sums it.
- `SubstitutionAnnotation` (`annotation.dfy`): the annotation loop and its
  specification.
  - `Annotate` is the annotated tree, defined structurally.
  - `Entries` is the sequence of assignments to `nodes` in program order.
  - `SubstitutionNodes` is the dictionary those assignments leave.
  - The method `AnnotateSubstitutions` walks the tree in pre-order with an
    explicit stack and is proved to produce exactly `SubstitutionNodes`.
- `Titers` (`titers.dfy`): the two result documents.

How `find_clades()` is modelled:

- The source calls `find_clades()`, a pre-order generator, and sets
  `child.cTiterSub` on the child object before the generator reaches that child.
- The model keeps the clade together with its cumulative drop in a stack frame.
  So a clade's value is always computed from its parent's final value:
  "parent before children".
- The traversal order decides the dictionary only when two clades share a
  name, because the later assignment then wins. The model keeps this order
  exactly (`Entries`).

## Model

| member | source | states |
|---|---|---|
| BranchEffects.BranchTiterDrop | augur/titers.py:70-72 | the inner loop starting from 0 and adding each substitution's effect (0 when absent) returns exactly the branch's sum of effects `BranchEffect` |
| BranchEffects.BranchEffectAppend | augur/titers.py:70-72 | the drop of two substitution lists in a row is the sum of their drops |
| BranchEffects.BranchEffectPermutation | augur/titers.py:70-72 | the drop does not depend on the order in which `get_mutations` lists the substitutions |
| BranchEffects.BranchEffectUnknown | augur/titers.py:72 | a branch none of whose substitutions has a fitted effect, in particular one with no substitutions, has drop 0 |
| BranchEffects.BranchEffectNonNegative | augur/titers.py:70-72 | with non-negative fitted effects every branch drop is non-negative |
| Dict.ToMap | augur/titers.py:78-81 | the dictionary left by a sequence of assignments has exactly the assigned keys |
| Dict.ToMapLast | augur/titers.py:78-81 | the last assignment to a key wins: an assignment `nodes[k] = v` that no later assignment to `k` follows leaves `k` mapped to `v` |
| Dict.ToMapDistinct | augur/titers.py:78-81 | when no key is assigned twice, every assignment survives in the dictionary |
| Phylo.ChildInPreOrder | augur/titers.py:64-65 | every child of a clade `find_clades()` yields is yielded too |
| Phylo.AtInPreOrder | augur/titers.py:64-65 | every clade reachable from the root by a path is yielded by `find_clades()` |
| Phylo.LabelledTable | augur/titers.py:106-107 | a dict comprehension over rearranged `(name, value)` pairs of the clades has one key per clade name; with unique names each clade's name maps to that clade's value |
| SubstitutionAnnotation.AnnotateSound | augur/titers.py:56-75 | the annotated tree keeps the tree's names and branching, its top clade carries the given value (0/0 for the root), and every branch obeys the rule `child = (d, parent.cTiterSub + d)` with `d` the branch's sum of effects |
| SubstitutionAnnotation.AnnotateUnique | augur/titers.py:56-75 | conversely, any tree of the same shape whose root carries the given value and whose every branch obeys the rule is the annotated tree |
| SubstitutionAnnotation.EveryEdge | augur/titers.py:64-75 | in a tree obeying the rule, each branch from a clade `find_clades()` yields to each of its children obeys the rule |
| SubstitutionAnnotation.CumulativeIsPathSum | augur/titers.py:75 | in a tree obeying the rule, a clade's `cTiterSub` is the top clade's plus the `dTiterSub` of every branch on the path to it |
| SubstitutionAnnotation.CumulativeFromRoot | augur/titers.py:56-75 | in the annotated tree, every clade's `cTiterSub` is the sum of `dTiterSub` from the root down to it |
| SubstitutionAnnotation.ChildNotBelowParent | augur/titers.py:70-75 | with non-negative fitted effects, every child's `dTiterSub` is non-negative and its `cTiterSub` is at least its parent's |
| SubstitutionAnnotation.LoopEntriesAppend | augur/titers.py:64-81 | the nested loop's assignments over two runs of clades are the assignments of the first run followed by those of the second |
| SubstitutionAnnotation.EntriesRearrangeTree | augur/titers.py:57-81 | the assignments to `nodes` (root first, then one per child in loop order) are a rearrangement of one `(name, annotation)` pair per clade |
| SubstitutionAnnotation.NodesTable | augur/titers.py:57-81 | one assignment is made per clade; the keys of `nodes` are exactly the clade names; with unique names every clade's name maps to its own annotation |
| SubstitutionAnnotation.RootNodes | augur/titers.py:56-62 | with unique names the root is recorded as `{dTiterSub: 0, cTiterSub: 0}` |
| SubstitutionAnnotation.NodesFollowEdges | augur/titers.py:64-81 | with unique names, for every clade and each child, `nodes[child]` holds the branch's sum of effects `d` and `nodes[parent].cTiterSub + d` |
| SubstitutionAnnotation.StackStep | augur/titers.py:64-65 | handling the top clade of the traversal stack and pushing its children in its place leaves exactly the remaining assignments of the pre-order loop |
| SubstitutionAnnotation.StackStart | augur/titers.py:56-65 | a stack holding only the root, after the root's own assignment, leaves all of the loop's assignments still to be made |
| SubstitutionAnnotation.VisitClade | augur/titers.py:65-81 | one turn of the outer loop: for each child in order, assigns `nodes[child.name]` its drop and cumulative drop, and returns frames that are the clade's annotated children |
| SubstitutionAnnotation.AnnotateSubstitutions | augur/titers.py:56-81 | the annotation loop produces exactly the dictionary `SubstitutionNodes` the assignments of the pre-order traversal leave |
| Titers.SubstitutionDocument | augur/titers.py:48-83 | the document has keys titers, potency, avidity and substitution holding the compiled tables, and has the key nodes (holding the annotations) exactly when there are annotations |
| Titers.InferSubstitutionModel | augur/titers.py:48-83 | the document has a `nodes` key if and only if a tree is given, and then it holds the annotator's dictionary for that tree |
| Titers.TreeNodes | augur/titers.py:106-107 | the tree model's `nodes` has exactly the clade names as keys; with unique names each maps to that clade's `{dTiter, cTiter}` |
| Titers.TreeModelDocument | augur/titers.py:103-107 | the tree-model document has exactly the keys titers, potency, avidity and nodes; its nodes are keyed by the clade names |

## Left out

- Model fitting is not modelled:
  - `SubstitutionModel`/`TreeModel` construction, `prepare()` and `train()`,
    and the `titer_model` module itself (`augur/titer_model.py` is not part of
    this model).
  - The fitted model enters only through what the command reads from it.
  - The `compile_*` results are values of an unspecified type parameter.
  - `substitution_effect` is a map from `(gene, mutation)` to a number.
  - `get_mutations` is a function from (child name, parent name) to a list of
    substitutions.
- Titers.TreeNodes: the tree model's `dTiter`/`cTiter` values are computed
  during fitting, so they are taken as given on the clades. No relation between
  them, such as the cumulative sum, is stated.
- Reading the tree (`Phylo.read`), the alignments (`load_alignments`) and the
  titer file, `write_json`, the printed banner, and the argument parser
  (`register_arguments`) are I/O or CLI and are left out.
  - The documents are modelled as values.
  - `args.tree` is an `Option`.
- Numbers are mathematical reals rather than floating point. The 0 the root
  gets, and that `dTiterSub` starts from, is the real 0. Rounding in the sum
  of effects is not captured.
- Clade names are strings. Newick clades without a name (`None` in Bio.Phylo)
  are not distinguished from named ones.
- SubstitutionAnnotation.NodesTable, RootNodes, NodesFollowEdges: the per-clade
  values are stated only when no two clades share a name.
  - Otherwise the source keeps, in `nodes`, whichever assignment to a shared
    name comes last, the root's first.
  - This is captured exactly by `SubstitutionNodes` (`ToMap(Entries(...))`),
    but no per-clade statement is made about it.
- SubstitutionAnnotation.AnnotateSubstitutions: the `cTiterSub` attribute that
  the source writes onto each clade object is carried in the traversal frames
  instead. The tree value itself is not updated.
- The masking tool and its tests are not part of this model.
