// First-order terms as the prover sees them: a variable, or a constructor label
// applied to a list of children.  Children are a cons list so that every
// definition and proof below is a plain structural recursion.
module FirstOrder {

  datatype Term = Var(id: nat) | App(lab: nat, args: TermList)
  datatype TermList = Nil | Cons(head: Term, tail: TermList)

  // Capacity of the binding and balance tables (FC_MAX_VARS, KBO_MAX_VAR, REWRITE_MAX_VAR).
  const MAX_VARS: nat := 64

  // Bit 31 of a node symbol marks a variable leaf (FC_VAR_BIT).
  const VAR_BIT: nat := 0x8000_0000

  // The read-only tables of one signature.  `arities` is what the C code leaves
  // implicit: each label is only ever built with one child count.
  datatype Kbo = Kbo(weights: seq<nat>, precedence: seq<nat>, arities: seq<nat>, varWeight: nat) {

    ghost predicate Valid() {
      && |weights| == |precedence| == |arities| <= VAR_BIT
      && forall l :: 0 <= l < |arities| ==> arities[l] < 0x1_0000
    }

    function LabelWeight(lab: nat): nat {
      if lab < |weights| then weights[lab] else 0
    }

    function LabelPrecedence(lab: nat): nat {
      if lab < |precedence| then precedence[lab] else 0
    }

    // The precedence is a total order on labels.
    ghost predicate TotalPrecedence() {
      forall l, m :: 0 <= l < |precedence| && 0 <= m < |precedence| && precedence[l] == precedence[m] ==> l == m
    }

    // Labels of one precedence and arity are constants of different weight: all
    // that the decision list needs to tell labels apart.
    ghost predicate Decisive() {
      forall l, m :: 0 <= l < |arities| && 0 <= m < |arities| && l != m ==> Apart(l, m)
    }

    ghost predicate Apart(l: nat, m: nat)
      requires l < |arities| && m < |arities|
    {
      LabelPrecedence(l) != LabelPrecedence(m) || arities[l] != arities[m] || (arities[l] == 0 && LabelWeight(l) != LabelWeight(m))
    }

    // A constant weighs at least as much as a variable: all that closure under
    // substitution needs.
    ghost predicate Grounded() {
      && Valid()
      && forall l :: 0 <= l < |weights| && arities[l] == 0 ==> varWeight <= weights[l]
    }

    // Weight also bounds size: variables weigh something, and so does every
    // label with exactly one child.  Other labels may weigh zero.
    ghost predicate Admissible() {
      && Grounded()
      && 1 <= varWeight
      && forall l :: 0 <= l < |weights| && arities[l] == 1 ==> 1 <= weights[l]
    }
  }

  // The tables of the one-operation signature: label 1 is binary, label 0 is
  // never built, so its child count is ours to choose.
  function ShefferTable(unused: nat): Kbo {
    Kbo([0, 1], [0, 1], [unused, 2], 1)
  }

  lemma ShefferAdmissible(unused: nat)
    requires unused < 0x1_0000
    ensures ShefferTable(unused).TotalPrecedence()
    ensures ShefferTable(unused).Admissible() <==> unused >= 2
  {
    var kb := ShefferTable(unused);
    assert kb.arities[0] == unused && kb.weights[0] == 0;
    assert kb.Admissible() ==> unused != 0 && unused != 1;
  }

  function Len(ts: TermList): nat {
    match ts
    case Nil => 0
    case Cons(_, tail) => 1 + Len(tail)
  }

  function Append(ss: TermList, ts: TermList): TermList {
    match ss
    case Nil => ts
    case Cons(h, tail) => Cons(h, Append(tail, ts))
  }

  // Number of nodes.
  function Size(t: Term): (n: nat)
    ensures 1 <= n
  {
    match t
    case Var(_) => 1
    case App(_, args) => 1 + SizeL(args)
  }

  function SizeL(ts: TermList): nat {
    match ts
    case Nil => 0
    case Cons(h, tail) => Size(h) + SizeL(tail)
  }

  // Total weight: the sum of the label weights plus varWeight per variable occurrence.
  function Weight(kb: Kbo, t: Term): nat {
    match t
    case Var(_) => kb.varWeight
    case App(l, args) => kb.LabelWeight(l) + WeightL(kb, args)
  }

  function WeightL(kb: Kbo, ts: TermList): nat {
    match ts
    case Nil => 0
    case Cons(h, tail) => Weight(kb, h) + WeightL(kb, tail)
  }

  // Number of occurrences of variable v.
  function Count(t: Term, v: nat): nat {
    match t
    case Var(id) => if id == v then 1 else 0
    case App(_, args) => CountL(args, v)
  }

  function CountL(ts: TermList, v: nat): nat {
    match ts
    case Nil => 0
    case Cons(h, tail) => Count(h, v) + CountL(tail, v)
  }

  // Terms over the signature: known labels, each with its fixed arity, and
  // variable ids that fit the tables.
  ghost predicate WF(kb: Kbo, t: Term) {
    match t
    case Var(id) => id < MAX_VARS
    case App(l, args) => l < |kb.arities| && Len(args) == kb.arities[l] && WFL(kb, args)
  }

  ghost predicate WFL(kb: Kbo, ts: TermList) {
    match ts
    case Nil => true
    case Cons(h, tail) => WF(kb, h) && WFL(kb, tail)
  }

  // ---- substitution (thvm_subst_apply) ----

  type Subst = map<nat, Term>

  function Apply(t: Term, s: Subst): Term {
    match t
    case Var(id) => if id in s then s[id] else t
    case App(l, args) => App(l, ApplyL(args, s))
  }

  function ApplyL(ts: TermList, s: Subst): TermList {
    match ts
    case Nil => Nil
    case Cons(h, tail) => Cons(Apply(h, s), ApplyL(tail, s))
  }

  ghost predicate WFSubst(kb: Kbo, s: Subst) {
    forall v :: v in s ==> WF(kb, s[v])
  }

  // ---- a term with one hole ----

  datatype Context = Hole | In(lab: nat, before: TermList, inner: Context, after: TermList)

  function Plug(c: Context, t: Term): Term {
    match c
    case Hole => t
    case In(l, before, inner, after) => App(l, Append(before, Cons(Plug(inner, t), after)))
  }

  // t, n times over, and two terms under one label.
  function Repeat(t: Term, n: nat): TermList {
    if n == 0 then Nil else Cons(t, Repeat(t, n - 1))
  }

  lemma {:induction false} RepeatWF(kb: Kbo, t: Term, n: nat)
    requires WF(kb, t)
    ensures WFL(kb, Repeat(t, n)) && Len(Repeat(t, n)) == n
  {
    if n > 0 { RepeatWF(kb, t, n - 1); }
  }

  lemma {:induction false} RepeatLen(t: Term, n: nat)
    ensures Len(Repeat(t, n)) == n
  {
    if n > 0 { RepeatLen(t, n - 1); }
  }

  function Pair(l: nat, s: Term, t: Term): Term {
    App(l, Cons(s, Cons(t, Nil)))
  }

  // A list of one term.
  lemma Single(kb: Kbo, t: Term)
    ensures Len(Cons(t, Nil)) == 1 && SizeL(Cons(t, Nil)) == Size(t) && WeightL(kb, Cons(t, Nil)) == Weight(kb, t)
    ensures WFL(kb, Cons(t, Nil)) <==> WF(kb, t)
    ensures forall v: nat :: CountL(Cons(t, Nil), v) == Count(t, v)
  {
    var one := Cons(t, Nil);
    assert one.tail == Nil && Len(one) == 1 + Len(one.tail);
    assert forall v: nat :: CountL(one, v) == Count(t, v) + CountL(one.tail, v);
  }

  lemma PairWF(kb: Kbo, l: nat, s: Term, t: Term)
    requires l < |kb.arities| && kb.arities[l] == 2 && WF(kb, s) && WF(kb, t)
    ensures WF(kb, Pair(l, s, t))
  {
    var one, two := Cons(t, Nil), Cons(s, Cons(t, Nil));
    Single(kb, t);
    assert two.tail == one && Len(two) == 1 + Len(one) && WFL(kb, two);
  }

  // ---- Append and the measures ----

  lemma {:induction false} AppendMeasures(ss: TermList, ts: TermList)
    ensures Len(Append(ss, ts)) == Len(ss) + Len(ts)
    ensures SizeL(Append(ss, ts)) == SizeL(ss) + SizeL(ts)
  {
    match ss
    case Nil =>
    case Cons(_, tail) => AppendMeasures(tail, ts);
  }

  lemma {:induction false} AppendWeight(kb: Kbo, ss: TermList, ts: TermList)
    ensures WeightL(kb, Append(ss, ts)) == WeightL(kb, ss) + WeightL(kb, ts)
  {
    match ss
    case Nil =>
    case Cons(_, tail) => AppendWeight(kb, tail, ts);
  }

  lemma {:induction false} AppendCount(ss: TermList, ts: TermList, v: nat)
    ensures CountL(Append(ss, ts), v) == CountL(ss, v) + CountL(ts, v)
  {
    match ss
    case Nil =>
    case Cons(_, tail) => AppendCount(tail, ts, v);
  }

  lemma {:induction false} AppendWF(kb: Kbo, ss: TermList, ts: TermList)
    ensures WFL(kb, Append(ss, ts)) <==> WFL(kb, ss) && WFL(kb, ts)
  {
    match ss
    case Nil =>
    case Cons(_, tail) => AppendWF(kb, tail, ts);
  }

  lemma {:induction false} AppendNil(ts: TermList)
    ensures Append(ts, Nil) == ts
  {
    match ts
    case Nil =>
    case Cons(_, tail) => AppendNil(tail);
  }

  lemma {:induction false} AppendAssoc(rs: TermList, ss: TermList, ts: TermList)
    ensures Append(Append(rs, ss), ts) == Append(rs, Append(ss, ts))
  {
    match rs
    case Nil =>
    case Cons(_, tail) => AppendAssoc(tail, ss, ts);
  }

  // Substituting well-formed terms keeps the list shape and well-formedness.
  lemma {:induction false} ApplyWF(kb: Kbo, ts: TermList, s: Subst)
    requires WFL(kb, ts) && WFSubst(kb, s)
    ensures WFL(kb, ApplyL(ts, s)) && Len(ApplyL(ts, s)) == Len(ts)
  {
    match ts
    case Nil =>
    case Cons(h, tail) =>
      if h.App? { ApplyWF(kb, h.args, s); }
      ApplyWF(kb, tail, s);
  }

  lemma {:induction false} ApplyAppend(ss: TermList, ts: TermList, s: Subst)
    ensures ApplyL(Append(ss, ts), s) == Append(ApplyL(ss, s), ApplyL(ts, s))
  {
    match ss
    case Nil =>
    case Cons(_, tail) => ApplyAppend(tail, ts, s);
  }

  // ---- facts about the weights ----

  lemma {:induction false} NoHighVariables(kb: Kbo, ts: TermList, v: nat)
    requires WFL(kb, ts) && MAX_VARS <= v
    ensures CountL(ts, v) == 0
  {
    match ts
    case Nil =>
    case Cons(h, tail) =>
      if h.App? { NoHighVariables(kb, h.args, v); }
      NoHighVariables(kb, tail, v);
  }

  // Every term weighs at least as much as a variable, and a list at least that per member.
  lemma {:induction false} MinWeight(kb: Kbo, ts: TermList)
    requires kb.Grounded() && WFL(kb, ts)
    ensures ts.Cons? ==> kb.varWeight <= Weight(kb, ts.head) && kb.varWeight <= WeightL(kb, ts)
  {
    match ts
    case Nil =>
    case Cons(h, tail) =>
      if h.App? { MinWeight(kb, h.args); }
      MinWeight(kb, tail);
  }

  // A term has fewer nodes than twice its weight: its leaves weigh something,
  // so do its unary nodes, and the branching ones are fewer than the leaves.
  lemma {:induction false} SizeBelowTwiceWeight(kb: Kbo, ts: TermList)
    requires kb.Admissible() && WFL(kb, ts)
    ensures SizeL(ts) + Len(ts) <= 2 * WeightL(kb, ts)
  {
    match ts
    case Nil =>
    case Cons(h, tail) =>
      if h.App? { SizeBelowTwiceWeight(kb, h.args); }
      SizeBelowTwiceWeight(kb, tail);
  }
}
