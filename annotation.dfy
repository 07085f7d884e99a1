/** Annotation of a tree with the titer drops of a fitted substitution model
    (`infer_substitution_model.run` when a tree is given): every clade gets the
    drop `dTiterSub` on its incoming branch and the cumulative drop `cTiterSub`
    from the root, and the pair is recorded under the clade's name. */
module SubstitutionAnnotation {
  import opened Dict
  import opened Phylo
  import opened BranchEffects

  /** What is recorded for a clade: `{"dTiterSub": ..., "cTiterSub": ...}`. */
  datatype Drop = Drop(dTiterSub: real, cTiterSub: real)

  /** The fitted model's `get_mutations(child_name, parent_name)`: the
      (gene, mutation) differences between a clade and its parent. */
  type Mutations = (string, string) -> seq<Substitution>

  /** The drop on the branch from the clade named `parent` to its child named `child`. */
  function EdgeDrop(mutations: Mutations, effects: Effects, child: string, parent: string): real {
    BranchEffect(effects, mutations(child, parent))
  }

  /** What clade `node`, carrying `drop`, hands on to its `i`-th child. */
  function ChildDrop<A>(node: Clade<A>, drop: Drop, i: nat, mutations: Mutations, effects: Effects): Drop
    requires i < |node.clades|
  {
    var d := EdgeDrop(mutations, effects, node.clades[i].name, node.name);
    Drop(d, drop.cTiterSub + d)
  }

  /** The tree `t` with every clade annotated, `t` itself carrying `drop`. */
  function Annotate<A>(t: Clade<A>, drop: Drop, mutations: Mutations, effects: Effects): Clade<Drop>
    decreases t
  {
    Clade(t.name, drop, seq(|t.clades|, i requires 0 <= i < |t.clades| =>
      Annotate(t.clades[i], ChildDrop(t, drop, i, mutations, effects), mutations, effects)))
  }

  /** Unfolds `Annotate` at one child, for the proofs about the loop. */
  lemma AnnotateChild<A>(t: Clade<A>, drop: Drop, i: nat, mutations: Mutations, effects: Effects)
    requires i < |t.clades|
    ensures |Annotate(t, drop, mutations, effects).clades| == |t.clades|
    ensures Annotate(t, drop, mutations, effects).clades[i] == Annotate(t.clades[i], ChildDrop(t, drop, i, mutations, effects), mutations, effects)
    ensures Annotate(t, drop, mutations, effects).clades[i].name == t.clades[i].name
    ensures Annotate(t, drop, mutations, effects).clades[i].attrs == ChildDrop(t, drop, i, mutations, effects)
  {
  }

  /** The annotated tree: the root carries drop 0 and cumulative drop 0. */
  function AnnotateTree<A>(t: Clade<A>, mutations: Mutations, effects: Effects): Clade<Drop> {
    Annotate(t, Drop(0.0, 0.0), mutations, effects)
  }

  /** The rule the annotator applies to a branch: the child's drop is the sum of the
      effects of the branch's substitutions, and its cumulative drop is its
      parent's plus that. */
  ghost predicate EdgeRule(parent: Clade<Drop>, child: Clade<Drop>, mutations: Mutations, effects: Effects) {
    var d := EdgeDrop(mutations, effects, child.name, parent.name);
    child.attrs == Drop(d, parent.attrs.cTiterSub + d)
  }

  /** Every branch of the tree obeys the rule. */
  ghost predicate Consistent(a: Clade<Drop>, mutations: Mutations, effects: Effects)
    decreases a
  {
    forall i :: 0 <= i < |a.clades| ==>
      EdgeRule(a, a.clades[i], mutations, effects) && Consistent(a.clades[i], mutations, effects)
  }

  /** The annotation keeps the tree's names and branching, gives the top clade
      the drop it was given, and obeys the rule on every branch. */
  lemma {:induction false} AnnotateSound<A>(t: Clade<A>, drop: Drop, mutations: Mutations, effects: Effects)
    ensures Annotate(t, drop, mutations, effects).attrs == drop
    ensures SameShape(Annotate(t, drop, mutations, effects), t)
    ensures Consistent(Annotate(t, drop, mutations, effects), mutations, effects)
    decreases t
  {
    var a := Annotate(t, drop, mutations, effects);
    forall i | 0 <= i < |t.clades|
      ensures SameShape(a.clades[i], t.clades[i]) && Consistent(a.clades[i], mutations, effects)
      ensures EdgeRule(a, a.clades[i], mutations, effects)
    {
      AnnotateSound(t.clades[i], ChildDrop(t, drop, i, mutations, effects), mutations, effects);
    }
  }

  /** The rule determines the annotation: a tree of the shape of `t` whose top
      clade carries `drop` and whose every branch obeys the rule is the annotation. */
  lemma {:induction false} AnnotateUnique<A>(a: Clade<Drop>, t: Clade<A>, drop: Drop, mutations: Mutations, effects: Effects)
    requires SameShape(a, t) && a.attrs == drop && Consistent(a, mutations, effects)
    ensures a == Annotate(t, drop, mutations, effects)
    decreases t
  {
    var b := Annotate(t, drop, mutations, effects);
    forall i | 0 <= i < |t.clades|
      ensures a.clades[i] == b.clades[i]
    {
      AnnotateUnique(a.clades[i], t.clades[i], ChildDrop(t, drop, i, mutations, effects), mutations, effects);
    }
    assert a.clades == b.clades;
  }

  /** Every branch `find_clades()` reaches in a consistent tree obeys the rule:
      for each clade `n` it yields and each child of `n`. */
  lemma {:induction false} EveryEdge(a: Clade<Drop>, n: Clade<Drop>, i: nat, mutations: Mutations, effects: Effects)
    requires Consistent(a, mutations, effects)
    requires n in PreOrder(a) && i < |n.clades|
    ensures EdgeRule(n, n.clades[i], mutations, effects)
    decreases a
  {
    if n != a {
      PreOrderMember(a, n);
      var j :| 0 <= j < |a.clades| && n in PreOrder(a.clades[j]);
      EveryEdge(a.clades[j], n, i, mutations, effects);
    }
  }

  /** The sum of the incoming drops of the clades on a path, the top clade excluded. */
  function PathDrop(a: Clade<Drop>, p: seq<nat>): real
    requires ValidPath(a, p)
    decreases |p|
  {
    if p == [] then 0.0 else a.clades[p[0]].attrs.dTiterSub + PathDrop(a.clades[p[0]], p[1..])
  }

  /** In a consistent tree, the cumulative drop of a clade is the top clade's
      plus the drops on the branches of the path down to it. */
  lemma {:induction false} CumulativeIsPathSum(a: Clade<Drop>, p: seq<nat>, mutations: Mutations, effects: Effects)
    requires Consistent(a, mutations, effects) && ValidPath(a, p)
    ensures At(a, p).attrs.cTiterSub == a.attrs.cTiterSub + PathDrop(a, p)
    decreases |p|
  {
    if p != [] {
      CumulativeIsPathSum(a.clades[p[0]], p[1..], mutations, effects);
    }
  }

  /** So in the annotated tree each clade's `cTiterSub` is the sum of
      `dTiterSub` over the branches from the root to it. */
  lemma CumulativeFromRoot<A>(t: Clade<A>, p: seq<nat>, mutations: Mutations, effects: Effects)
    requires ValidPath(AnnotateTree(t, mutations, effects), p)
    ensures var a := AnnotateTree(t, mutations, effects); At(a, p).attrs.cTiterSub == PathDrop(a, p)
  {
    AnnotateSound(t, Drop(0.0, 0.0), mutations, effects);
    CumulativeIsPathSum(AnnotateTree(t, mutations, effects), p, mutations, effects);
  }

  /** With non-negative fitted effects the cumulative drop never decreases
      from a parent to its child. */
  lemma ChildNotBelowParent<A>(t: Clade<A>, n: Clade<Drop>, i: nat, mutations: Mutations, effects: Effects)
    requires forall s :: s in effects ==> effects[s] >= 0.0
    requires n in PreOrder(AnnotateTree(t, mutations, effects)) && i < |n.clades|
    ensures n.clades[i].attrs.dTiterSub >= 0.0
    ensures n.clades[i].attrs.cTiterSub >= n.attrs.cTiterSub
  {
    AnnotateSound(t, Drop(0.0, 0.0), mutations, effects);
    EveryEdge(AnnotateTree(t, mutations, effects), n, i, mutations, effects);
    BranchEffectNonNegative(effects, mutations(n.clades[i].name, n.name));
  }

  /** The assignments `nodes[child.name] = ...` of the nested loop while
      `find_clades()` yields the clades `ns` in turn: for each, one per child. */
  function LoopEntries(ns: seq<Clade<Drop>>): seq<(string, Drop)>
    decreases |ns|
  {
    if ns == [] then [] else Labelled(ns[0].clades) + LoopEntries(ns[1..])
  }

  lemma {:induction false} LoopEntriesAppend(xs: seq<Clade<Drop>>, ys: seq<Clade<Drop>>)
    ensures LoopEntries(xs + ys) == LoopEntries(xs) + LoopEntries(ys)
    decreases |xs|
  {
    if xs == [] {
      assert xs + ys == ys;
    } else {
      assert (xs + ys)[0] == xs[0] && (xs + ys)[1..] == xs[1..] + ys;
      LoopEntriesAppend(xs[1..], ys);
    }
  }

  /** All assignments to `nodes`, in program order: the root's entry, then the loop's. */
  function Entries(a: Clade<Drop>): seq<(string, Drop)> {
    [(a.name, a.attrs)] + LoopEntries(PreOrder(a))
  }

  /** The `nodes` dictionary the annotator exports. */
  function SubstitutionNodes<A>(t: Clade<A>, mutations: Mutations, effects: Effects): map<string, Drop> {
    ToMap(Entries(AnnotateTree(t, mutations, effects)))
  }

  /** Leaving clade `a` of the traversal: its children's entries, then the rest. */
  lemma LoopEntriesStep(a: Clade<Drop>, rest: seq<Clade<Drop>>)
    ensures LoopEntries(PreOrderForest([a] + rest)) == Labelled(a.clades) + LoopEntries(PreOrderForest(a.clades + rest))
  {
    assert ([a] + rest)[0] == a && ([a] + rest)[1..] == rest;
    PreOrderForestAppend(a.clades, rest);
    LoopEntriesAppend([a], PreOrderForest(a.clades) + PreOrderForest(rest));
    assert [a] + PreOrderForest(a.clades) + PreOrderForest(rest) == [a] + (PreOrderForest(a.clades) + PreOrderForest(rest));
    assert LoopEntries([a]) == Labelled(a.clades);
  }

  /** Called rather than asserted: keeps the recursive proofs small and stable. */
  lemma LoopEntriesCons(a: Clade<Drop>, xs: seq<Clade<Drop>>)
    ensures LoopEntries([a] + xs) == Labelled(a.clades) + LoopEntries(xs)
  {
    assert ([a] + xs)[0] == a && ([a] + xs)[1..] == xs;
  }

  /** Stated as a lemma so that callers name the split they need. */
  lemma LabelledAppend(xs: seq<Clade<Drop>>, ys: seq<Clade<Drop>>)
    ensures Labelled(xs + ys) == Labelled(xs) + Labelled(ys)
  {
  }

  /** The assignments are a rearrangement of one entry per clade, the clade's
      name with its own annotation. */
  lemma {:induction false} EntriesRearrangeTree(a: Clade<Drop>)
    ensures multiset(Entries(a)) == multiset(Labelled(PreOrder(a)))
    decreases a, 1
  {
    var below := PreOrderForest(a.clades);
    var top, rearranged := [(a.name, a.attrs)], Labelled(a.clades) + LoopEntries(below);
    assert Entries(a) == top + rearranged by {
      assert PreOrder(a) == [a] + below;
      LoopEntriesCons(a, below);
    }
    assert Labelled(PreOrder(a)) == top + Labelled(below) by {
      LabelledAppend([a], below);
    }
    EntriesRearrangeForest(a.clades);
    PrependRearranged(top, rearranged, Labelled(below));
  }

  lemma {:induction false} EntriesRearrangeForest(cs: seq<Clade<Drop>>)
    ensures multiset(Labelled(cs) + LoopEntries(PreOrderForest(cs))) == multiset(Labelled(PreOrderForest(cs)))
    decreases cs, 0
  {
    if cs != [] {
      var c, rest := cs[0], cs[1..];
      var here, there := PreOrder(c), PreOrderForest(rest);
      LabelledCons(cs);
      ForestCons(cs);
      EntriesRearrangeTree(c);
      EntriesRearrangeForest(rest);
      Interleave([(c.name, c.attrs)], Labelled(rest), LoopEntries(here), LoopEntries(there), Labelled(here), Labelled(there));
    }
  }

  /** Called rather than asserted: keeps the recursive proofs small and stable. */
  lemma LabelledCons(cs: seq<Clade<Drop>>)
    requires cs != []
    ensures Labelled(cs) == [(cs[0].name, cs[0].attrs)] + Labelled(cs[1..])
  {
    assert cs == [cs[0]] + cs[1..];
    LabelledAppend([cs[0]], cs[1..]);
  }

  /** The loop's assignments and the labelled clades of a forest, split at its first tree. */
  lemma ForestCons(cs: seq<Clade<Drop>>)
    requires cs != []
    ensures LoopEntries(PreOrderForest(cs)) == LoopEntries(PreOrder(cs[0])) + LoopEntries(PreOrderForest(cs[1..]))
    ensures Labelled(PreOrderForest(cs)) == Labelled(PreOrder(cs[0])) + Labelled(PreOrderForest(cs[1..]))
    ensures Entries(cs[0]) == [(cs[0].name, cs[0].attrs)] + LoopEntries(PreOrder(cs[0]))
  {
    LoopEntriesAppend(PreOrder(cs[0]), PreOrderForest(cs[1..]));
    LabelledAppend(PreOrder(cs[0]), PreOrderForest(cs[1..]));
  }

  /** The same prefix before two rearrangements of each other. */
  lemma PrependRearranged<T>(x: seq<T>, y: seq<T>, z: seq<T>)
    requires multiset(y) == multiset(z)
    ensures multiset(x + y) == multiset(x + z)
  {
  }

  /** Joining two rearrangements, each spread over two pieces. */
  lemma Interleave<T>(a: seq<T>, b: seq<T>, c: seq<T>, d: seq<T>, x: seq<T>, y: seq<T>)
    requires multiset(a + c) == multiset(x) && multiset(b + d) == multiset(y)
    ensures multiset((a + b) + (c + d)) == multiset(x + y)
  {
  }

  /** The exported `nodes`: one assignment per clade of the tree, a key for
      every clade name and no other, and, when no two clades share a name,
      each clade's name mapped to its own annotation. */
  lemma NodesTable<A>(t: Clade<A>, mutations: Mutations, effects: Effects)
    ensures |Entries(AnnotateTree(t, mutations, effects))| == |PreOrder(t)|
    ensures SubstitutionNodes(t, mutations, effects).Keys == NodeNames(t)
    ensures UniqueNames(t) ==>
      var a := AnnotateTree(t, mutations, effects);
      forall n :: n in PreOrder(a) ==>
        n.name in SubstitutionNodes(t, mutations, effects) && SubstitutionNodes(t, mutations, effects)[n.name] == n.attrs
  {
    var a := AnnotateTree(t, mutations, effects);
    AnnotateSound(t, Drop(0.0, 0.0), mutations, effects);
    SameShapeNames(a, t);
    EntriesRearrangeTree(a);
    LabelledTable(a, Entries(a));
  }

  /** Root entry of the exported `nodes`: with unique names the root is
      recorded with drop 0 and cumulative drop 0. */
  lemma RootNodes<A>(t: Clade<A>, mutations: Mutations, effects: Effects)
    requires UniqueNames(t)
    ensures t.name in SubstitutionNodes(t, mutations, effects)
    ensures SubstitutionNodes(t, mutations, effects)[t.name] == Drop(0.0, 0.0)
  {
    var a := AnnotateTree(t, mutations, effects);
    NodesTable(t, mutations, effects);
    AnnotateSound(t, Drop(0.0, 0.0), mutations, effects);
    assert a in PreOrder(a);
  }

  /** The branch rule read off the exported `nodes`: with unique names, for each
      clade `n` and each child `c` of it, `nodes[c]` holds the summed effect of
      the substitutions between `c` and `n`, and `nodes[n]`'s cumulative drop
      plus that. */
  lemma NodesFollowEdges<A>(t: Clade<A>, n: Clade<Drop>, i: nat, mutations: Mutations, effects: Effects)
    requires UniqueNames(t)
    requires n in PreOrder(AnnotateTree(t, mutations, effects)) && i < |n.clades|
    ensures var nodes, c := SubstitutionNodes(t, mutations, effects), n.clades[i];
      var d := BranchEffect(effects, mutations(c.name, n.name));
      && n.name in nodes && c.name in nodes
      && nodes[c.name] == Drop(d, nodes[n.name].cTiterSub + d)
  {
    var a := AnnotateTree(t, mutations, effects);
    NodesTable(t, mutations, effects);
    AnnotateSound(t, Drop(0.0, 0.0), mutations, effects);
    EveryEdge(a, n, i, mutations, effects);
    ChildInPreOrder(a, n, i);
  }

  /** The traversal stack's frames as annotated subtrees. */
  function Frames<A>(stack: seq<(Clade<A>, Drop)>, mutations: Mutations, effects: Effects): (fs: seq<Clade<Drop>>)
    ensures |fs| == |stack|
    ensures forall i :: 0 <= i < |stack| ==> fs[i] == Annotate(stack[i].0, stack[i].1, mutations, effects)
  {
    seq(|stack|, i requires 0 <= i < |stack| => Annotate(stack[i].0, stack[i].1, mutations, effects))
  }

  /** One turn of the outer loop, at the clade `node` that carries `drop`: for
      each child in order, the drop of its branch, its cumulative drop from its
      parent's, the assignment to `nodes`, and a frame for the child. */
  method VisitClade<A>(node: Clade<A>, drop: Drop, nodes: map<string, Drop>, mutations: Mutations, effects: Effects,
                       ghost written: seq<(string, Drop)>)
    returns (nodes': map<string, Drop>, children: seq<(Clade<A>, Drop)>, ghost written': seq<(string, Drop)>)
    requires nodes == ToMap(written)
    ensures written' == written + Labelled(Annotate(node, drop, mutations, effects).clades)
    ensures nodes' == ToMap(written')
    ensures Frames(children, mutations, effects) == Annotate(node, drop, mutations, effects).clades
  {
    ghost var kids := Annotate(node, drop, mutations, effects).clades;
    ghost var entries := Labelled(kids);
    nodes', children, written' := nodes, [], written;
    for i := 0 to |node.clades|
      invariant nodes' == ToMap(written')
      invariant written' == written + entries[..i]
      invariant Frames(children, mutations, effects) == kids[..i]
    {
      var child := node.clades[i];
      var d := BranchTiterDrop(effects, mutations(child.name, node.name));
      var childDrop := Drop(d, drop.cTiterSub + d);
      assert childDrop == ChildDrop(node, drop, i, mutations, effects);
      EntryStep(node, drop, i, mutations, effects, written, written');
      FrameStep(node, drop, i, mutations, effects, children);
      ToMapSnoc(written', child.name, childDrop);
      nodes' := nodes'[child.name := childDrop];
      written' := written' + [(child.name, childDrop)];
      children := children + [(child, childDrop)];
    }
    assert entries[..|node.clades|] == entries && kids[..|node.clades|] == kids;
  }

  /** One turn of the inner loop extends the assignments by the next child's. */
  lemma EntryStep<A>(node: Clade<A>, drop: Drop, i: nat, mutations: Mutations, effects: Effects,
                     written: seq<(string, Drop)>, sofar: seq<(string, Drop)>)
    requires i < |node.clades|
    requires sofar == written + Labelled(Annotate(node, drop, mutations, effects).clades)[..i]
    ensures sofar + [(node.clades[i].name, ChildDrop(node, drop, i, mutations, effects))]
         == written + Labelled(Annotate(node, drop, mutations, effects).clades)[..i + 1]
  {
    var entries := Labelled(Annotate(node, drop, mutations, effects).clades);
    AnnotateChild(node, drop, i, mutations, effects);
    assert entries[i] == (node.clades[i].name, ChildDrop(node, drop, i, mutations, effects));
    PrefixSnoc(written, entries, i);
  }

  /** ... and the frames by the next child's. */
  lemma FrameStep<A>(node: Clade<A>, drop: Drop, i: nat, mutations: Mutations, effects: Effects,
                     children: seq<(Clade<A>, Drop)>)
    requires i < |node.clades|
    requires Frames(children, mutations, effects) == Annotate(node, drop, mutations, effects).clades[..i]
    ensures Frames(children + [(node.clades[i], ChildDrop(node, drop, i, mutations, effects))], mutations, effects)
         == Annotate(node, drop, mutations, effects).clades[..i + 1]
  {
    var kids := Annotate(node, drop, mutations, effects).clades;
    AnnotateChild(node, drop, i, mutations, effects);
    FramesAppend(children, [(node.clades[i], ChildDrop(node, drop, i, mutations, effects))], mutations, effects);
    PrefixSnoc([], kids, i);
  }

  /** Extending a prefix by the next element. */
  lemma PrefixSnoc<T>(x: seq<T>, s: seq<T>, i: nat)
    requires i < |s|
    ensures (x + s[..i]) + [s[i]] == x + s[..i + 1]
  {
    assert s[..i + 1] == s[..i] + [s[i]];
  }

  /** Popping the top frame of the traversal stack and pushing its children's
      frames in its place leaves the assignments still to be made, less those of
      the top clade's children. */
  lemma StackStep<A>(stack: seq<(Clade<A>, Drop)>, children: seq<(Clade<A>, Drop)>, mutations: Mutations, effects: Effects)
    requires stack != []
    requires Frames(children, mutations, effects) == Annotate(stack[0].0, stack[0].1, mutations, effects).clades
    ensures LoopEntries(PreOrderForest(Frames(stack, mutations, effects)))
         == Labelled(Annotate(stack[0].0, stack[0].1, mutations, effects).clades)
          + LoopEntries(PreOrderForest(Frames(children + stack[1..], mutations, effects)))
  {
    FramesCons(stack, mutations, effects);
    FramesAppend(children, stack[1..], mutations, effects);
    LoopEntriesStep(Annotate(stack[0].0, stack[0].1, mutations, effects), Frames(stack[1..], mutations, effects));
  }

  /** Called rather than asserted: keeps `StackStep` small and stable. */
  lemma FramesCons<A>(stack: seq<(Clade<A>, Drop)>, mutations: Mutations, effects: Effects)
    requires stack != []
    ensures Frames(stack, mutations, effects)
         == [Annotate(stack[0].0, stack[0].1, mutations, effects)] + Frames(stack[1..], mutations, effects)
  {
    assert stack == [stack[0]] + stack[1..];
    FramesAppend([stack[0]], stack[1..], mutations, effects);
  }

  /** Stated as a lemma so that callers name the split they need. */
  lemma FramesAppend<A>(xs: seq<(Clade<A>, Drop)>, ys: seq<(Clade<A>, Drop)>, mutations: Mutations, effects: Effects)
    ensures Frames(xs + ys, mutations, effects) == Frames(xs, mutations, effects) + Frames(ys, mutations, effects)
  {
  }

  /** Called rather than asserted: keeps the loop's proof small and stable. */
  lemma Associative<T>(x: seq<T>, y: seq<T>, z: seq<T>)
    ensures x + (y + z) == (x + y) + z
  {
  }

  /** The stack holding only the root frame has every loop assignment still to make. */
  lemma StackStart<A>(tree: Clade<A>, mutations: Mutations, effects: Effects)
    ensures [(tree.name, Drop(0.0, 0.0))] + LoopEntries(PreOrderForest(Frames([(tree, Drop(0.0, 0.0))], mutations, effects)))
         == Entries(AnnotateTree(tree, mutations, effects))
  {
    var top := AnnotateTree(tree, mutations, effects);
    assert Frames([(tree, Drop(0.0, 0.0))], mutations, effects) == [top];
    assert [top][0] == top && [top][1..] == [];
    assert PreOrderForest([top]) == PreOrder(top) + PreOrderForest([]);
    assert PreOrderForest([top]) == PreOrder(top);
  }

  /** The annotation loop. The root gets `{0, 0}`; then, clade by clade in
      pre-order, every child gets the drop of its branch and its parent's
      cumulative drop plus that drop. The pre-order is kept by an explicit stack
      whose frames are clades with the drop already computed for them, so a
      clade's `cTiterSub` is known before any of its children is processed. */
  method AnnotateSubstitutions<A>(tree: Clade<A>, mutations: Mutations, effects: Effects)
    returns (nodes: map<string, Drop>)
    ensures nodes == SubstitutionNodes(tree, mutations, effects)
  {
    var rootDrop := Drop(0.0, 0.0);
    nodes := map[tree.name := rootDrop];
    ghost var written := [(tree.name, rootDrop)];
    ghost var total := Entries(AnnotateTree(tree, mutations, effects));
    var stack := [(tree, rootDrop)];
    assert ToMap(written) == map[tree.name := rootDrop] by {
      assert written[..0] == [];
    }
    StackStart(tree, mutations, effects);
    while stack != []
      invariant nodes == ToMap(written)
      invariant written + LoopEntries(PreOrderForest(Frames(stack, mutations, effects))) == total
      decreases |total| - |written| + |stack|
    {
      var node, drop := stack[0].0, stack[0].1;
      ghost var before := written;
      var children;
      nodes, children, written := VisitClade(node, drop, nodes, mutations, effects, written);
      StackStep(stack, children, mutations, effects);
      ghost var here := Labelled(Annotate(node, drop, mutations, effects).clades);
      ghost var later := LoopEntries(PreOrderForest(Frames(children + stack[1..], mutations, effects)));
      Associative(before, here, later);
      stack := children + stack[1..];
    }
    assert PreOrderForest(Frames(stack, mutations, effects)) == [];
    assert written == total;
  }
}
