/** The rooted tree the annotator walks, in the shape Bio.Phylo gives it: each
    clade has a name, the attributes stored on it, and its child clades in order. */
module Phylo {
  import opened Dict

  datatype Clade<A> = Clade(name: string, attrs: A, clades: seq<Clade<A>>)

  /** The clades of the tree in the order `find_clades()` yields them:
      depth first, each clade before its children, children left to right. */
  function PreOrder<A>(c: Clade<A>): seq<Clade<A>>
    decreases c
  {
    [c] + PreOrderForest(c.clades)
  }

  /** The pre-orders of the trees `cs`, one after the other. */
  function PreOrderForest<A>(cs: seq<Clade<A>>): seq<Clade<A>>
    decreases cs
  {
    if cs == [] then [] else PreOrder(cs[0]) + PreOrderForest(cs[1..])
  }

  lemma {:induction false} PreOrderForestAppend<A>(xs: seq<Clade<A>>, ys: seq<Clade<A>>)
    ensures PreOrderForest(xs + ys) == PreOrderForest(xs) + PreOrderForest(ys)
    decreases |xs|
  {
    if xs != [] {
      assert (xs + ys)[0] == xs[0] && (xs + ys)[1..] == xs[1..] + ys;
      PreOrderForestAppend(xs[1..], ys);
      assert PreOrderForest(xs + ys) == PreOrder(xs[0]) + PreOrderForest(xs[1..] + ys);
    } else {
      assert xs + ys == ys;
    }
  }

  /** The pairs `(n.name, n.attrs)` of the clades `ns`, in order. */
  function Labelled<A>(ns: seq<Clade<A>>): (s: seq<(string, A)>)
    ensures |s| == |ns|
    ensures forall i :: 0 <= i < |ns| ==> s[i] == (ns[i].name, ns[i].attrs)
  {
    seq(|ns|, i requires 0 <= i < |ns| => (ns[i].name, ns[i].attrs))
  }

  /** The names of the clades `ns`, in order. */
  function Names<A>(ns: seq<Clade<A>>): (s: seq<string>)
    ensures |s| == |ns|
    ensures forall i :: 0 <= i < |ns| ==> s[i] == ns[i].name
  {
    Keys(Labelled(ns))
  }

  /** The set of names of all clades of the tree. */
  function NodeNames<A>(t: Clade<A>): set<string> {
    set k | k in Names(PreOrder(t))
  }

  /** No two clades of the tree share a name. */
  ghost predicate UniqueNames<A>(t: Clade<A>) {
    Distinct(Names(PreOrder(t)))
  }

  /** Two trees with the same names and the same branching, whatever their attributes. */
  ghost predicate SameShape<A, B>(a: Clade<A>, b: Clade<B>)
    decreases a
  {
    && a.name == b.name
    && |a.clades| == |b.clades|
    && forall i :: 0 <= i < |a.clades| ==> SameShape(a.clades[i], b.clades[i])
  }

  /** Trees of the same shape list the same names in pre-order. */
  lemma {:induction false} SameShapeNames<A, B>(a: Clade<A>, b: Clade<B>)
    requires SameShape(a, b)
    ensures Names(PreOrder(a)) == Names(PreOrder(b))
    decreases a, 1
  {
    SameShapeForestNames(a.clades, b.clades);
  }

  lemma {:induction false} SameShapeForestNames<A, B>(xs: seq<Clade<A>>, ys: seq<Clade<B>>)
    requires |xs| == |ys|
    requires forall i :: 0 <= i < |xs| ==> SameShape(xs[i], ys[i])
    ensures Names(PreOrderForest(xs)) == Names(PreOrderForest(ys))
    decreases xs, 0
  {
    if xs != [] {
      SameShapeNames(xs[0], ys[0]);
      SameShapeForestNames(xs[1..], ys[1..]);
      NamesAppend(PreOrder(xs[0]), PreOrderForest(xs[1..]));
      NamesAppend(PreOrder(ys[0]), PreOrderForest(ys[1..]));
    }
  }

  /** Stated as a lemma so that callers name the split they need. */
  lemma NamesAppend<A>(xs: seq<Clade<A>>, ys: seq<Clade<A>>)
    ensures Names(xs + ys) == Names(xs) + Names(ys)
  {
  }

  /** A path from the root: the child index taken at each step. */
  ghost predicate ValidPath<A>(t: Clade<A>, p: seq<nat>)
    decreases |p|
  {
    p == [] || (p[0] < |t.clades| && ValidPath(t.clades[p[0]], p[1..]))
  }

  /** The clade a valid path leads to. */
  function At<A>(t: Clade<A>, p: seq<nat>): Clade<A>
    requires ValidPath(t, p)
    decreases |p|
  {
    if p == [] then t else At(t.clades[p[0]], p[1..])
  }

  /** Every clade a path leads to is one that `find_clades()` yields. */
  lemma {:induction false} AtInPreOrder<A>(t: Clade<A>, p: seq<nat>)
    requires ValidPath(t, p)
    ensures At(t, p) in PreOrder(t)
    decreases |p|
  {
    if p != [] {
      var i := p[0];
      AtInPreOrder(t.clades[i], p[1..]);
      PreOrderForestAppend(t.clades[..i], t.clades[i..]);
      assert t.clades == t.clades[..i] + t.clades[i..];
      assert t.clades[i..] == [t.clades[i]] + t.clades[i + 1..];
    }
  }

  /** A clade below the top of the tree lies in the subtree of one of its children. */
  lemma {:induction false} PreOrderMember<A>(a: Clade<A>, n: Clade<A>)
    requires n in PreOrder(a) && n != a
    ensures exists j :: 0 <= j < |a.clades| && n in PreOrder(a.clades[j])
  {
    ForestMember(a.clades, n);
  }

  /** A clade of a forest's pre-order lies in one of its trees. */
  lemma {:induction false} ForestMember<A>(cs: seq<Clade<A>>, n: Clade<A>)
    requires n in PreOrderForest(cs)
    ensures exists j :: 0 <= j < |cs| && n in PreOrder(cs[j])
    decreases |cs|
  {
    if n !in PreOrder(cs[0]) {
      ForestMember(cs[1..], n);
      var j :| 0 <= j < |cs[1..]| && n in PreOrder(cs[1..][j]);
      assert cs[1..][j] == cs[j + 1];
    }
  }

  /** A child of a clade `find_clades()` yields is yielded too. */
  lemma {:induction false} ChildInPreOrder<A>(a: Clade<A>, n: Clade<A>, i: nat)
    requires n in PreOrder(a) && i < |n.clades|
    ensures n.clades[i] in PreOrder(a)
    decreases a
  {
    if n == a {
      assert a.clades[i] in PreOrder(a.clades[i]);
      SubtreeInPreOrder(a, i, a.clades[i]);
    } else {
      PreOrderMember(a, n);
      var j :| 0 <= j < |a.clades| && n in PreOrder(a.clades[j]);
      ChildInPreOrder(a.clades[j], n, i);
      SubtreeInPreOrder(a, j, n.clades[i]);
    }
  }

  /** The clades of a child's subtree are clades of the tree. */
  lemma SubtreeInPreOrder<A>(a: Clade<A>, j: nat, m: Clade<A>)
    requires j < |a.clades| && m in PreOrder(a.clades[j])
    ensures m in PreOrder(a)
  {
    var cs := a.clades;
    PreOrderForestAppend(cs[..j], cs[j..]);
    assert cs == cs[..j] + cs[j..];
    assert cs[j..] == [cs[j]] + cs[j + 1..];
  }

  /** A list of assignments that rearranges the labelled pre-order of `t` builds
      a dictionary with one key per clade name; when names are unique, each
      clade's name maps to that clade's own attributes. */
  lemma LabelledTable<A>(t: Clade<A>, s: seq<(string, A)>)
    requires multiset(s) == multiset(Labelled(PreOrder(t)))
    ensures |s| == |PreOrder(t)|
    ensures ToMap(s).Keys == NodeNames(t)
    ensures UniqueNames(t) ==> forall n :: n in PreOrder(t) ==> n.name in ToMap(s) && ToMap(s)[n.name] == n.attrs
  {
    var p := PreOrder(t);
    assert |s| == |multiset(s)| == |multiset(Labelled(p))| == |p|;
    KeysPermutation(s, Labelled(p));
    forall k
      ensures k in Keys(s) <==> k in Names(p)
    {
      assert k in Keys(s) <==> k in multiset(Keys(s));
    }
    if UniqueNames(t) {
      forall n | n in p
        ensures n.name in ToMap(s) && ToMap(s)[n.name] == n.attrs
      {
        var i :| 0 <= i < |p| && p[i] == n;
        assert Labelled(p)[i] == (n.name, n.attrs);
        assert (n.name, n.attrs) in multiset(s);
        forall x | x in Keys(s)
          ensures multiset(Keys(s))[x] <= 1
        {
          assert x in Names(p);
        }
        ToMapDistinct(s, n.name, n.attrs);
      }
    }
  }
}
