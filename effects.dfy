/** The titer drop a branch carries under a fitted substitution model: the
    sum of the fitted effects of the substitutions on that branch. */
module BranchEffects {
  import opened Dict

  /** An amino-acid substitution in one gene, the key of the effect table. */
  datatype Substitution = Substitution(gene: string, mutation: string)

  /** The fitted substitution effects; a substitution the fit did not see is absent. */
  type Effects = map<Substitution, real>

  /** `substitution_effect.get((gene, mutation), 0)`. */
  function Effect(effects: Effects, s: Substitution): real {
    if s in effects then effects[s] else 0.0
  }

  /** The sum of the effects of the substitutions `muts`, each occurrence
      counted, a substitution missing from the table counting 0. */
  function BranchEffect(effects: Effects, muts: seq<Substitution>): real
    decreases |muts|
  {
    if muts == [] then 0.0 else Effect(effects, muts[0]) + BranchEffect(effects, muts[1..])
  }

  /** The drop of two lists of substitutions in a row is the sum of their drops. */
  lemma {:induction false} BranchEffectAppend(effects: Effects, xs: seq<Substitution>, ys: seq<Substitution>)
    ensures BranchEffect(effects, xs + ys) == BranchEffect(effects, xs) + BranchEffect(effects, ys)
    decreases |xs|
  {
    if xs == [] {
      assert xs + ys == ys;
    } else {
      assert (xs + ys)[0] == xs[0] && (xs + ys)[1..] == xs[1..] + ys;
      BranchEffectAppend(effects, xs[1..], ys);
    }
  }

  /** The drop does not depend on the order in which the substitutions are listed. */
  lemma {:induction false} BranchEffectPermutation(effects: Effects, xs: seq<Substitution>, ys: seq<Substitution>)
    requires multiset(xs) == multiset(ys)
    ensures BranchEffect(effects, xs) == BranchEffect(effects, ys)
    decreases |xs|
  {
    if xs != [] {
      var e := xs[0];
      assert e in multiset(ys);
      var j :| 0 <= j < |ys| && ys[j] == e;
      var rest := ys[..j] + ys[j + 1..];
      RemoveMatching(xs, ys, j);
      assert ys == ys[..j] + [e] + ys[j + 1..];
      BranchEffectPermutation(effects, xs[1..], rest);
      var left, right := ys[..j], ys[j + 1..];
      calc {
        BranchEffect(effects, ys);
        { BranchEffectAppend(effects, left + [e], right); }
        BranchEffect(effects, left + [e]) + BranchEffect(effects, right);
        { BranchEffectAppend(effects, left, [e]); }
        BranchEffect(effects, left) + BranchEffect(effects, [e]) + BranchEffect(effects, right);
        { assert BranchEffect(effects, [e]) == Effect(effects, e) + BranchEffect(effects, []); }
        Effect(effects, e) + (BranchEffect(effects, left) + BranchEffect(effects, right));
        { BranchEffectAppend(effects, left, right); }
        Effect(effects, e) + BranchEffect(effects, rest);
        Effect(effects, e) + BranchEffect(effects, xs[1..]);
        BranchEffect(effects, xs);
      }
    }
  }

  /** A branch none of whose substitutions has a fitted effect (in particular a
      branch without substitutions) has drop 0. */
  lemma {:induction false} BranchEffectUnknown(effects: Effects, muts: seq<Substitution>)
    requires forall i :: 0 <= i < |muts| ==> muts[i] !in effects
    ensures BranchEffect(effects, muts) == 0.0
    decreases |muts|
  {
    if muts != [] {
      BranchEffectUnknown(effects, muts[1..]);
    }
  }

  /** With non-negative fitted effects no branch has a negative drop. */
  lemma {:induction false} BranchEffectNonNegative(effects: Effects, muts: seq<Substitution>)
    requires forall s :: s in effects ==> effects[s] >= 0.0
    ensures BranchEffect(effects, muts) >= 0.0
    decreases |muts|
  {
    if muts != [] {
      BranchEffectNonNegative(effects, muts[1..]);
    }
  }

  /** The inner loop of the annotator: `dTiterSub` starts at 0 and each
      substitution of the branch adds its looked-up effect. */
  method BranchTiterDrop(effects: Effects, muts: seq<Substitution>) returns (dTiterSub: real)
    ensures dTiterSub == BranchEffect(effects, muts)
  {
    dTiterSub := 0.0;
    for i := 0 to |muts|
      invariant dTiterSub == BranchEffect(effects, muts[..i])
    {
      BranchEffectAppend(effects, muts[..i], [muts[i]]);
      assert muts[..i + 1] == muts[..i] + [muts[i]];
      assert BranchEffect(effects, [muts[i]]) == Effect(effects, muts[i]) + BranchEffect(effects, []);
      dTiterSub := dTiterSub + Effect(effects, muts[i]);
    }
    assert muts[..|muts|] == muts;
  }
}
