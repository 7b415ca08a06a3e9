// The operation of the prover's inner loop, end to end: normalize a subject by
// the oriented rules, then orient the subject against its normal form.
module InnerLoop {
  import opened FirstOrder
  import opened FlatTerm
  import Balance
  import KnuthBendix
  import FlatKbo
  import FlatMatch
  import FlatStep
  import R = Rewriting
  import T = Termination

  // The subject's nodes are copied into the first arena.  Arenas twice as long
  // as the subject is heavy always suffice.  The verdict, which the production
  // comparator shares, says whether a step fired; over labels that the
  // heap-term rewriter handles, the result is the normal form it reaches.
  method NormalizeAndOrient(kb: Kbo, subject: seq<FlatNode>, flat: seq<FlatStep.FcRule>, a: array<FlatNode>, b: array<FlatNode>,
                            stepCap: nat, ghost rules: seq<R.Rule>, ghost t: Term)
    returns (normal: array<FlatNode>, len: nat, verdict: KnuthBendix.Cmp, fits: bool)
    requires kb.Admissible() && kb.Decisive() && T.Oriented(kb, rules) && FlatStep.RulesEncoded(kb, flat, rules)
    requires WF(kb, t) && subject == Enc(kb, t)
    requires a != b && 2 * Weight(kb, t) <= a.Length && 2 * Weight(kb, t) <= b.Length
    modifies a, b
    ensures normal == a || normal == b
    ensures len <= normal.Length && normal[..len] == Enc(kb, R.Normalize(rules, t, stepCap))
    ensures T.NarrowLabels(kb) ==> normal[..len] == Enc(kb, R.HeapNormalize(rules, t, stepCap))
    ensures verdict == KnuthBendix.LinearCompare(kb, t, R.Normalize(rules, t, stepCap))
    ensures verdict == if stepCap == 0 || R.Step(rules, t).None? then KnuthBendix.EQ else KnuthBendix.GT
    ensures T.StepBound(kb, t) <= stepCap ==> forall u :: !R.Rewrites(rules, R.Normalize(rules, t, stepCap), u)
    ensures fits <==> Balance.Noted(t, R.Normalize(rules, t, stepCap)) <= MAX_VARS
  {
    ghost var n := R.Normalize(rules, t, stepCap);
    T.OrientedWF(kb, rules);
    T.NormalFormVerdict(kb, rules, t, stepCap);
    if T.NarrowLabels(kb) { T.HeapNormalizeAgrees(kb, rules, t, stepCap); }
    if T.StepBound(kb, t) <= stepCap { T.NormalizeTerminates(kb, rules, t, stepCap); }
    SizeBelowTwiceWeight(kb, Cons(t, Nil));
    forall k: nat | k <= stepCap ensures Size(R.Normalize(rules, t, k)) <= a.Length && Size(R.Normalize(rules, t, k)) <= b.Length {
      T.NormalFormFits(kb, rules, t, k);
    }
    var alen := FlatMatch.CopySlice(subject, 0, |subject|, a, 0);
    assert a[..alen] == subject;
    normal, len := FlatStep.Normalize(kb, a, alen, flat, b, stepCap, rules, t);
    KnuthBendix.DecideIsCompare(kb, t, n);
    KnuthBendix.LinearIsCompare(kb, t, n);
    verdict, fits := FlatKbo.KboCompare(kb, subject, normal[..len], t, n);
  }

  // FC_ARENA.
  const ARENA: nat := 8256

  lemma {:induction false} ProgramWeight(ts: TermList)
    requires WFL(ShefferTable(2), ts)
    ensures WeightL(ShefferTable(2), ts) <= SizeL(ts)
  {
    if ts.Cons? {
      if ts.head.App? { ProgramWeight(ts.head.args); }
      ProgramWeight(ts.tail);
    }
  }

  // Subjects of at most 500 nodes, which is what the program keeps, never
  // outgrow its arenas.
  lemma ProgramArenas(t: Term)
    requires WF(ShefferTable(2), t) && Size(t) <= 500
    ensures 2 * Weight(ShefferTable(2), t) <= ARENA
    ensures forall rules, cap :: T.Oriented(ShefferTable(2), rules) ==> Size(R.Normalize(rules, t, cap)) <= ARENA
  {
    ProgramWeight(Cons(t, Nil));
    Single(ShefferTable(2), t);
    ShefferAdmissible(2);
    forall rules, cap | T.Oriented(ShefferTable(2), rules) ensures Size(R.Normalize(rules, t, cap)) <= ARENA {
      T.NormalFormFits(ShefferTable(2), rules, t, cap);
    }
  }

  // The program's own tables meet every condition on them above.
  lemma ProgramTables()
    ensures var kb := ShefferTable(2); kb.Admissible() && kb.TotalPrecedence() && kb.Decisive() && T.NarrowLabels(kb)
  {
    ShefferAdmissible(2);
    KnuthBendix.TotalIsDecisive(ShefferTable(2));
  }
}
