// The Knuth-Bendix ordering in its textbook form, computed from full weights and
// full variable counts, and the proof that it is a reduction ordering.
module KnuthBendix {
  import opened FirstOrder

  datatype Cmp = EQ | GT | LT | UN

  function Mirror(c: Cmp): Cmp {
    match c
    case GT => LT
    case LT => GT
    case _ => c
  }

  ghost predicate Dominates(s: Term, t: Term) {
    forall v: nat :: Count(s, v) >= Count(t, v)
  }

  // s > t: s has every variable at least as often, and is heavier, or equally
  // heavy with a greater top label, or with the same one and greater arguments.
  ghost predicate Greater(kb: Kbo, s: Term, t: Term)
    decreases s
  {
    && Dominates(s, t)
    && (|| Weight(kb, s) > Weight(kb, t)
        || (&& Weight(kb, s) == Weight(kb, t)
            && s.App? && t.App?
            && (|| kb.LabelPrecedence(s.lab) > kb.LabelPrecedence(t.lab)
                || (s.lab == t.lab && LexGreater(kb, s.args, t.args)))))
  }

  // The first difference decides.
  ghost predicate LexGreater(kb: Kbo, ss: TermList, ts: TermList)
    decreases ss
  {
    && ss.Cons?
    && ts.Cons?
    && (if ss.head == ts.head then LexGreater(kb, ss.tail, ts.tail) else Greater(kb, ss.head, ts.head))
  }

  // The four-valued verdict.
  ghost function Compare(kb: Kbo, s: Term, t: Term): Cmp {
    if s == t then EQ
    else if Greater(kb, s, t) then GT
    else if Greater(kb, t, s) then LT
    else UN
  }

  // The decision list of the tree comparator (kbo_rec): domination, weight, top
  // precedence, then the children in turn.
  ghost function Decide(kb: Kbo, s: Term, t: Term): Cmp
    decreases s, 0
  {
    var sDom, tDom := Dominates(s, t), Dominates(t, s);
    if s == t then EQ
    else if !sDom && !tDom then UN
    else if Weight(kb, s) > Weight(kb, t) then if sDom then GT else UN
    else if Weight(kb, s) < Weight(kb, t) then if tDom then LT else UN
    else if s.Var? || t.Var? then UN
    else if kb.LabelPrecedence(s.lab) > kb.LabelPrecedence(t.lab) then if sDom then GT else UN
    else if kb.LabelPrecedence(s.lab) < kb.LabelPrecedence(t.lab) then if tDom then LT else UN
    else if Len(s.args) != Len(t.args) then UN
    else DecideL(kb, s.args, t.args, sDom, tDom)
  }

  ghost function DecideL(kb: Kbo, ss: TermList, ts: TermList, sDom: bool, tDom: bool): Cmp
    requires Len(ss) == Len(ts)
    decreases ss
  {
    if ss.Nil? then EQ
    else
      match Decide(kb, ss.head, ts.head)
      case GT => if sDom then GT else UN
      case LT => if tDom then LT else UN
      case UN => UN
      case EQ => DecideL(kb, ss.tail, ts.tail, sDom, tDom)
  }

  // ---- strict partial order ----

  lemma {:induction false} LexIrreflexive(kb: Kbo, ts: TermList)
    ensures !LexGreater(kb, ts, ts)
  {
    if ts.Cons? { LexIrreflexive(kb, ts.tail); }
  }

  lemma Irreflexive(kb: Kbo, t: Term)
    ensures !Greater(kb, t, t)
  {
    if t.App? { LexIrreflexive(kb, t.args); }
  }

  lemma {:induction false} LexTransitive(kb: Kbo, rs: TermList, ss: TermList, ts: TermList)
    requires LexGreater(kb, rs, ss) && LexGreater(kb, ss, ts)
    ensures LexGreater(kb, rs, ts)
    decreases rs, 0
  {
    var r, s, t := rs.head, ss.head, ts.head;
    if r == s && s == t {
      LexTransitive(kb, rs.tail, ss.tail, ts.tail);
    } else if r != s && s != t {
      Transitive(kb, r, s, t);
      Irreflexive(kb, r);
    }
  }

  lemma {:induction false} Transitive(kb: Kbo, r: Term, s: Term, t: Term)
    requires Greater(kb, r, s) && Greater(kb, s, t)
    ensures Greater(kb, r, t)
    decreases r, 1
  {
    assert Dominates(r, t) by {
      forall v: nat ensures Count(r, v) >= Count(t, v) {
        assert Count(r, v) >= Count(s, v) && Count(s, v) >= Count(t, v);
      }
    }
    if Weight(kb, r) == Weight(kb, t) && r.lab == s.lab && s.lab == t.lab {
      LexTransitive(kb, r.args, s.args, t.args);
    }
  }

  lemma Asymmetric(kb: Kbo, s: Term, t: Term)
    requires Greater(kb, s, t)
    ensures !Greater(kb, t, s)
  {
    if Greater(kb, t, s) {
      Transitive(kb, s, t, s);
      Irreflexive(kb, s);
    }
  }

  // Each verdict means what its name says, and swapping the operands mirrors it.
  lemma CompareVerdicts(kb: Kbo, s: Term, t: Term)
    ensures Compare(kb, s, t) == GT <==> Greater(kb, s, t)
    ensures Compare(kb, s, t) == LT <==> Greater(kb, t, s)
    ensures Compare(kb, t, s) == Mirror(Compare(kb, s, t))
  {
    Irreflexive(kb, s);
    if Greater(kb, s, t) { Asymmetric(kb, s, t); }
  }

  // ---- what decides, read off the tables ----

  // Between equally heavy terms with different top labels the precedence table decides.
  lemma PrecedenceDecides(kb: Kbo, l: nat, ss: TermList, m: nat, ts: TermList)
    requires kb.Valid() && l < |kb.precedence| && m < |kb.precedence| && l != m
    requires Dominates(App(l, ss), App(m, ts)) && Weight(kb, App(l, ss)) == Weight(kb, App(m, ts))
    ensures Greater(kb, App(l, ss), App(m, ts)) <==> kb.precedence[l] > kb.precedence[m]
  {
  }

  lemma {:induction false} LexFirst(kb: Kbo, before: TermList, s: Term, ss: TermList, t: Term, ts: TermList)
    requires s != t
    ensures LexGreater(kb, Append(before, Cons(s, ss)), Append(before, Cons(t, ts))) <==> Greater(kb, s, t)
  {
    if before.Cons? { LexFirst(kb, before.tail, s, ss, t, ts); }
  }

  // Under one label the leftmost children that differ decide, whatever follows them.
  lemma FirstChildDecides(kb: Kbo, l: nat, before: TermList, s: Term, ss: TermList, t: Term, ts: TermList)
    requires s != t
    requires var u, v := App(l, Append(before, Cons(s, ss))), App(l, Append(before, Cons(t, ts)));
      Dominates(u, v) && Weight(kb, u) == Weight(kb, v)
    ensures Greater(kb, App(l, Append(before, Cons(s, ss))), App(l, Append(before, Cons(t, ts)))) <==> Greater(kb, s, t)
  {
    LexFirst(kb, before, s, ss, t, ts);
  }

  // ---- closure under contexts ----

  lemma {:induction false} LexInContext(kb: Kbo, before: TermList, s: Term, t: Term, after: TermList)
    requires Greater(kb, s, t)
    ensures LexGreater(kb, Append(before, Cons(s, after)), Append(before, Cons(t, after)))
  {
    match before
    case Nil => Irreflexive(kb, s);
    case Cons(_, tail) => LexInContext(kb, tail, s, t, after);
  }

  lemma {:induction false} ContextClosed(kb: Kbo, c: Context, s: Term, t: Term)
    requires Greater(kb, s, t)
    ensures Greater(kb, Plug(c, s), Plug(c, t))
  {
    match c
    case Hole =>
    case In(l, before, inner, after) =>
      var s', t' := Plug(inner, s), Plug(inner, t);
      ContextClosed(kb, inner, s, t);
      AppendWeight(kb, before, Cons(s', after));
      AppendWeight(kb, before, Cons(t', after));
      LexInContext(kb, before, s', t', after);
      forall v: nat ensures Count(Plug(c, s), v) >= Count(Plug(c, t), v) {
        AppendCount(before, Cons(s', after), v);
        AppendCount(before, Cons(t', after), v);
        assert Count(s', v) >= Count(t', v);
      }
  }

  // ---- closure under substitution ----

  // The sum of f over the variable occurrences of a list.
  ghost function Dot(ts: TermList, f: seq<nat>): nat {
    match ts
    case Nil => 0
    case Cons(Var(id), tail) => (if id < |f| then f[id] else 0) + Dot(tail, f)
    case Cons(App(_, args), tail) => Dot(args, f) + Dot(tail, f)
  }

  // The same sum grouped by variable, over the first n variables.
  ghost function Grouped(ts: TermList, f: seq<nat>, n: nat): nat
    requires n <= |f|
  {
    if n == 0 then 0 else Grouped(ts, f, n - 1) + CountL(ts, n - 1) * f[n - 1]
  }

  lemma TimesDistributes(c: nat, d: nat, e: nat)
    ensures (c + d) * e == c * e + d * e
  {
  }

  lemma {:induction false} GroupedCons(h: Term, tail: TermList, f: seq<nat>, n: nat)
    requires n <= |f|
    ensures Grouped(Cons(h, tail), f, n)
         == (if h.App? then Grouped(h.args, f, n) else if h.id < n then f[h.id] else 0) + Grouped(tail, f, n)
  {
    if n > 0 {
      GroupedCons(h, tail, f, n - 1);
      TimesDistributes(Count(h, n - 1), CountL(tail, n - 1), f[n - 1]);
    }
  }

  lemma {:induction false} GroupedNil(f: seq<nat>, n: nat)
    requires n <= |f|
    ensures Grouped(Nil, f, n) == 0
  {
    if n > 0 { GroupedNil(f, n - 1); }
  }

  lemma {:induction false} DotGrouped(ts: TermList, f: seq<nat>)
    ensures Dot(ts, f) == Grouped(ts, f, |f|)
  {
    match ts
    case Nil => GroupedNil(f, |f|);
    case Cons(h, tail) =>
      if h.App? { DotGrouped(h.args, f); }
      DotGrouped(tail, f);
      GroupedCons(h, tail, f, |f|);
  }

  lemma TimesMonotone(c: nat, d: nat, e: nat)
    requires c >= d
    ensures c * e >= d * e
  {
  }

  lemma {:induction false} GroupedMonotone(ss: TermList, ts: TermList, f: seq<nat>, n: nat)
    requires n <= |f|
    requires forall v: nat :: CountL(ss, v) >= CountL(ts, v)
    ensures Grouped(ss, f, n) >= Grouped(ts, f, n)
  {
    if n > 0 {
      GroupedMonotone(ss, ts, f, n - 1);
      TimesMonotone(CountL(ss, n - 1), CountL(ts, n - 1), f[n - 1]);
    }
  }

  lemma DotMonotone(s: Term, t: Term, f: seq<nat>)
    requires Dominates(s, t)
    ensures Dot(Cons(s, Nil), f) >= Dot(Cons(t, Nil), f)
  {
    DotGrouped(Cons(s, Nil), f);
    DotGrouped(Cons(t, Nil), f);
    forall v: nat ensures CountL(Cons(s, Nil), v) >= CountL(Cons(t, Nil), v) {
      assert Count(s, v) >= Count(t, v);
    }
    GroupedMonotone(Cons(s, Nil), Cons(t, Nil), f, |f|);
  }

  function Image(s: Subst, v: nat): Term {
    Apply(Var(v), s)
  }

  ghost function Gain(kb: Kbo, s: Subst, x: nat): nat
    requires kb.Grounded() && WFSubst(kb, s) && x < MAX_VARS
  {
    MinWeight(kb, Cons(Image(s, x), Nil));
    Weight(kb, Image(s, x)) - kb.varWeight
  }

  // How much weight each variable gains, and how many v's it brings in.
  ghost function Gains(kb: Kbo, s: Subst): (f: seq<nat>)
    requires kb.Grounded() && WFSubst(kb, s)
    ensures |f| == MAX_VARS
  {
    seq(MAX_VARS, x requires 0 <= x < MAX_VARS && kb.Grounded() && WFSubst(kb, s) => Gain(kb, s, x))
  }

  ghost function Brings(s: Subst, v: nat): (f: seq<nat>)
    ensures |f| == MAX_VARS
  {
    seq(MAX_VARS, x requires 0 <= x < MAX_VARS => Count(Image(s, x), v))
  }

  lemma {:induction false} ApplyWeight(kb: Kbo, ts: TermList, s: Subst)
    requires kb.Grounded() && WFL(kb, ts) && WFSubst(kb, s)
    ensures WeightL(kb, ApplyL(ts, s)) == WeightL(kb, ts) + Dot(ts, Gains(kb, s))
  {
    match ts
    case Nil =>
    case Cons(h, tail) =>
      if h.App? { ApplyWeight(kb, h.args, s); }
      ApplyWeight(kb, tail, s);
  }

  lemma {:induction false} ApplyCount(kb: Kbo, ts: TermList, s: Subst, v: nat)
    requires WFL(kb, ts)
    ensures CountL(ApplyL(ts, s), v) == Dot(ts, Brings(s, v))
  {
    match ts
    case Nil =>
    case Cons(h, tail) =>
      if h.App? { ApplyCount(kb, h.args, s, v); }
      ApplyCount(kb, tail, s, v);
  }

  lemma {:induction false} LexStable(kb: Kbo, ss: TermList, ts: TermList, s: Subst)
    requires kb.Grounded() && WFL(kb, ss) && WFL(kb, ts) && WFSubst(kb, s)
    requires LexGreater(kb, ss, ts)
    ensures LexGreater(kb, ApplyL(ss, s), ApplyL(ts, s))
    decreases ss, 0
  {
    if ss.head == ts.head {
      LexStable(kb, ss.tail, ts.tail, s);
    } else {
      Stable(kb, ss.head, ts.head, s);
      Irreflexive(kb, Apply(ss.head, s));
    }
  }

  lemma {:induction false} Stable(kb: Kbo, s: Term, t: Term, sub: Subst)
    requires kb.Grounded() && WF(kb, s) && WF(kb, t) && WFSubst(kb, sub)
    requires Greater(kb, s, t)
    ensures Greater(kb, Apply(s, sub), Apply(t, sub))
    decreases s, 1
  {
    var s1, t1 := Cons(s, Nil), Cons(t, Nil);
    ApplyWeight(kb, s1, sub);
    ApplyWeight(kb, t1, sub);
    DotMonotone(s, t, Gains(kb, sub));
    forall v: nat ensures Count(Apply(s, sub), v) >= Count(Apply(t, sub), v) {
      ApplyCount(kb, s1, sub, v);
      ApplyCount(kb, t1, sub, v);
      DotMonotone(s, t, Brings(sub, v));
    }
    if Weight(kb, s) == Weight(kb, t) && s.lab == t.lab {
      LexStable(kb, s.args, t.args, sub);
    }
  }

  ghost predicate StableAt(kb: Kbo, s: Term, t: Term, sub: Subst) {
    WF(kb, s) && WF(kb, t) && WFSubst(kb, sub) && Greater(kb, s, t) ==> Greater(kb, Apply(s, sub), Apply(t, sub))
  }

  // Closure under substitution holds exactly for tables in which no constant
  // weighs less than a variable.
  lemma StableIff(kb: Kbo)
    requires kb.Valid()
    ensures kb.Grounded() <==> forall s, t, sub :: StableAt(kb, s, t, sub)
  {
    if kb.Grounded() {
      forall s, t, sub ensures StableAt(kb, s, t, sub) {
        if WF(kb, s) && WF(kb, t) && WFSubst(kb, sub) && Greater(kb, s, t) { Stable(kb, s, t, sub); }
      }
    } else {
      var l :| 0 <= l < |kb.weights| && kb.arities[l] == 0 && kb.weights[l] < kb.varWeight;
      var x, c := Var(0), App(l, Nil);
      var sub: Subst := map[0 := c];
      assert c.args == Nil && Weight(kb, c) == kb.weights[l];
      forall v: nat ensures Count(c, v) == 0 { assert CountL(c.args, v) == 0; }
      assert Greater(kb, x, c) && WF(kb, c);
      assert Apply(x, sub) == c == Apply(c, sub);
      Irreflexive(kb, c);
      assert !StableAt(kb, x, c, sub);
    }
  }

  // ---- totality on ground terms ----

  ghost predicate Ground(t: Term) {
    forall v: nat :: Count(t, v) == 0
  }

  lemma {:induction false} GroundTail(ts: TermList)
    requires ts.Cons? && forall v: nat :: CountL(ts, v) == 0
    ensures Ground(ts.head) && forall v: nat :: CountL(ts.tail, v) == 0
  {
    forall v: nat ensures Count(ts.head, v) == 0 && CountL(ts.tail, v) == 0 {
      assert CountL(ts, v) == 0;
    }
  }

  lemma {:induction false} LexTotal(kb: Kbo, ss: TermList, ts: TermList)
    requires kb.Valid() && kb.TotalPrecedence() && WFL(kb, ss) && WFL(kb, ts)
    requires Len(ss) == Len(ts) && ss != ts
    requires forall v: nat :: CountL(ss, v) == 0
    requires forall v: nat :: CountL(ts, v) == 0
    ensures LexGreater(kb, ss, ts) || LexGreater(kb, ts, ss)
    decreases ss, 0
  {
    GroundTail(ss);
    GroundTail(ts);
    if ss.head == ts.head {
      LexTotal(kb, ss.tail, ts.tail);
    } else {
      GroundTotal(kb, ss.head, ts.head);
    }
  }

  lemma {:induction false} GroundTotal(kb: Kbo, s: Term, t: Term)
    requires kb.Valid() && kb.TotalPrecedence() && WF(kb, s) && WF(kb, t)
    requires Ground(s) && Ground(t) && s != t
    ensures Greater(kb, s, t) || Greater(kb, t, s)
    ensures Compare(kb, s, t) == GT || Compare(kb, s, t) == LT
    decreases s, 1
  {
    assert s.Var? ==> Count(s, s.id) == 1;
    assert t.Var? ==> Count(t, t.id) == 1;
    assert forall v: nat :: CountL(s.args, v) == Count(s, v);
    assert forall v: nat :: CountL(t.args, v) == Count(t, v);
    if s.lab == t.lab {
      LexTotal(kb, s.args, t.args);
    }
  }

  // ---- the decision list computes the ordering ----

  lemma {:induction false} DecideLIsLex(kb: Kbo, ss: TermList, ts: TermList, sDom: bool, tDom: bool)
    requires kb.Decisive() && WFL(kb, ss) && WFL(kb, ts) && Len(ss) == Len(ts)
    ensures DecideL(kb, ss, ts, sDom, tDom) ==
            if ss == ts then EQ
            else if sDom && LexGreater(kb, ss, ts) then GT
            else if tDom && LexGreater(kb, ts, ss) then LT
            else UN
    decreases ss
  {
    if ss.Cons? {
      DecideIsCompare(kb, ss.head, ts.head);
      CompareVerdicts(kb, ss.head, ts.head);
      DecideLIsLex(kb, ss.tail, ts.tail, sDom, tDom);
    }
  }

  lemma TotalIsDecisive(kb: Kbo)
    requires kb.Valid() && kb.TotalPrecedence()
    ensures kb.Decisive()
  {
  }

  // Equally heavy terms whose top labels tie have the same top label.
  lemma TiesAreSame(kb: Kbo, s: Term, t: Term)
    requires kb.Decisive() && WF(kb, s) && WF(kb, t) && s.App? && t.App?
    requires Weight(kb, s) == Weight(kb, t) && kb.LabelPrecedence(s.lab) == kb.LabelPrecedence(t.lab) && Len(s.args) == Len(t.args)
    ensures s.lab == t.lab
  {
    assert s.lab != t.lab ==> kb.Apart(s.lab, t.lab);
    assert Len(s.args) == 0 ==> s.args == Nil && t.args == Nil;
  }

  // When labels are told apart every verdict is the ordering's.
  lemma {:induction false} DecideIsCompare(kb: Kbo, s: Term, t: Term)
    requires kb.Decisive() && WF(kb, s) && WF(kb, t)
    ensures Decide(kb, s, t) == Compare(kb, s, t)
    decreases s, 0
  {
    if s.App? && t.App? && Weight(kb, s) == Weight(kb, t) && kb.LabelPrecedence(s.lab) == kb.LabelPrecedence(t.lab) {
      if Len(s.args) == Len(t.args) { TiesAreSame(kb, s, t); }
      if s.lab == t.lab { DecideLIsLex(kb, s.args, t.args, Dominates(s, t), Dominates(t, s)); }
    }
  }

  // ---- when EQ means identical ----

  // No two labels that the decision list cannot tell apart.
  ghost predicate NoTies(kb: Kbo) {
    forall l, m :: 0 <= l < |kb.arities| && 0 <= m < |kb.arities| && l != m ==>
      kb.LabelPrecedence(l) != kb.LabelPrecedence(m) || kb.arities[l] != kb.arities[m] || kb.LabelWeight(l) != kb.LabelWeight(m)
  }

  lemma {:induction false} EqualListsIdentical(kb: Kbo, ss: TermList, ts: TermList, sDom: bool, tDom: bool)
    requires NoTies(kb) && WFL(kb, ss) && WFL(kb, ts) && Len(ss) == Len(ts)
    requires DecideL(kb, ss, ts, sDom, tDom) == EQ
    ensures ss == ts
    decreases ss
  {
    if ss.Cons? {
      EqualIdentical(kb, ss.head, ts.head);
      EqualListsIdentical(kb, ss.tail, ts.tail, sDom, tDom);
    }
  }

  lemma {:induction false} EqualIdentical(kb: Kbo, s: Term, t: Term)
    requires NoTies(kb) && WF(kb, s) && WF(kb, t) && Decide(kb, s, t) == EQ
    ensures s == t
    decreases s, 0
  {
    if s != t { EqualListsIdentical(kb, s.args, t.args, Dominates(s, t), Dominates(t, s)); }
  }

  lemma {:induction false} SameListsEqual(kb: Kbo, ts: TermList, sDom: bool, tDom: bool)
    ensures DecideL(kb, ts, ts, sDom, tDom) == EQ
  {
    if ts.Cons? { SameListsEqual(kb, ts.tail, sDom, tDom); }
  }

  ghost predicate EqualOnlyIfIdentical(kb: Kbo, s: Term, t: Term) {
    WF(kb, s) && WF(kb, t) && Decide(kb, s, t) == EQ ==> s == t
  }

  // EQ is the verdict on identical terms only, exactly when no two labels tie
  // in precedence, arity and weight.
  lemma EqualIffIdentical(kb: Kbo)
    requires kb.Valid()
    ensures NoTies(kb) <==> forall s, t :: EqualOnlyIfIdentical(kb, s, t)
  {
    if NoTies(kb) {
      forall s, t ensures EqualOnlyIfIdentical(kb, s, t) {
        if WF(kb, s) && WF(kb, t) && Decide(kb, s, t) == EQ { EqualIdentical(kb, s, t); }
      }
    } else {
      var l, m :| 0 <= l < |kb.arities| && 0 <= m < |kb.arities| && l != m
               && kb.LabelPrecedence(l) == kb.LabelPrecedence(m) && kb.arities[l] == kb.arities[m]
               && kb.LabelWeight(l) == kb.LabelWeight(m);
      var args := Repeat(Var(0), kb.arities[l]);
      RepeatWF(kb, Var(0), kb.arities[l]);
      var s, t := App(l, args), App(m, args);
      SameListsEqual(kb, args, Dominates(s, t), Dominates(t, s));
      assert !EqualOnlyIfIdentical(kb, s, t);
    }
  }

  // ---- the linear-time comparator (kbo_lin_rek) ----

  // How the variables of s and t compare.
  ghost function VarVerdict(s: Term, t: Term): Cmp {
    if Dominates(s, t) then if Dominates(t, s) then EQ else GT
    else if Dominates(t, s) then LT else UN
  }

  // A verdict found deeper, passed up through one level's variable verdict.
  function MapThrough(v: Cmp, inner: Cmp): Cmp {
    match inner
    case EQ => EQ
    case GT => if v == LT then UN else GT
    case LT => if v == GT then UN else LT
    case UN => UN
  }

  // The decision for two terms that are not identical: only the first pair of
  // children that are not identical is looked at.
  ghost function Linear(kb: Kbo, s: Term, t: Term): Cmp
    decreases s, 0
  {
    var v := VarVerdict(s, t);
    if v == UN then UN
    else if Weight(kb, s) > Weight(kb, t) then if v == LT then UN else GT
    else if Weight(kb, s) < Weight(kb, t) then if v == GT then UN else LT
    else if s.Var? || t.Var? then UN
    else if kb.LabelPrecedence(s.lab) > kb.LabelPrecedence(t.lab) then if v == LT then UN else GT
    else if kb.LabelPrecedence(s.lab) < kb.LabelPrecedence(t.lab) then if v == GT then UN else LT
    else if s.lab != t.lab || Len(s.args) != Len(t.args) then UN
    else MapThrough(v, LinearL(kb, s.args, t.args))
  }

  ghost function LinearL(kb: Kbo, ss: TermList, ts: TermList): Cmp
    requires Len(ss) == Len(ts)
    decreases ss
  {
    if ss.Nil? then EQ
    else if ss.head == ts.head then LinearL(kb, ss.tail, ts.tail)
    else Linear(kb, ss.head, ts.head)
  }

  // thvm_kbo.
  ghost function LinearCompare(kb: Kbo, s: Term, t: Term): Cmp {
    if s == t then EQ else Linear(kb, s, t)
  }

  lemma {:induction false} LinearLIsLex(kb: Kbo, ss: TermList, ts: TermList)
    requires WFL(kb, ss) && WFL(kb, ts) && Len(ss) == Len(ts)
    ensures LinearL(kb, ss, ts) ==
            if ss == ts then EQ else if LexGreater(kb, ss, ts) then GT else if LexGreater(kb, ts, ss) then LT else UN
    decreases ss
  {
    if ss.Cons? {
      if ss.head == ts.head {
        LinearLIsLex(kb, ss.tail, ts.tail);
      } else {
        LinearIsCompare(kb, ss.head, ts.head);
      }
    }
  }

  // The linear comparator computes the ordering itself, whatever the tables.
  lemma {:induction false} LinearIsCompare(kb: Kbo, s: Term, t: Term)
    requires WF(kb, s) && WF(kb, t)
    ensures LinearCompare(kb, s, t) == Compare(kb, s, t)
    decreases s, 0
  {
    if s.App? && t.App? && s.lab == t.lab {
      LinearLIsLex(kb, s.args, t.args);
      if LexGreater(kb, s.args, t.args) && LexGreater(kb, t.args, s.args) { LexAsymmetric(kb, s.args, t.args); }
    }
  }

  lemma LexAsymmetric(kb: Kbo, ss: TermList, ts: TermList)
    requires LexGreater(kb, ss, ts)
    ensures !LexGreater(kb, ts, ss)
  {
    if LexGreater(kb, ts, ss) {
      LexTransitive(kb, ss, ts, ss);
      LexIrreflexive(kb, ss);
    }
  }

  // ---- where the two comparators agree ----

  function Same(l: nat, n: nat): Term {
    App(l, Repeat(Var(0), n))
  }

  // l(m(x, .., x), x, .., x), or just l if it is a constant.
  function Nested(l: nat, m: nat, n: nat): Term {
    if n == 0 then App(l, Nil) else App(l, Cons(Same(m, n), Repeat(Var(0), n - 1)))
  }

  lemma SameMeasures(kb: Kbo, l: nat, m: nat, n: nat)
    ensures Weight(kb, Same(l, n)) - kb.LabelWeight(l) == Weight(kb, Same(m, n)) - kb.LabelWeight(m)
    ensures Dominates(Same(l, n), Same(m, n)) && Dominates(Same(m, n), Same(l, n))
  {
    assert forall v: nat :: Count(Same(l, n), v) == CountL(Repeat(Var(0), n), v) == Count(Same(m, n), v);
  }

  lemma NestedMeasures(kb: Kbo, l: nat, m: nat, n: nat)
    requires n > 0
    ensures Weight(kb, Nested(l, m, n)) == Weight(kb, Nested(m, l, n))
    ensures Dominates(Nested(l, m, n), Nested(m, l, n))
  {
    SameMeasures(kb, l, m, n);
    var s, t, rest := Nested(l, m, n), Nested(m, l, n), Repeat(Var(0), n - 1);
    assert WeightL(kb, s.args) == Weight(kb, Same(m, n)) + WeightL(kb, rest);
    assert WeightL(kb, t.args) == Weight(kb, Same(l, n)) + WeightL(kb, rest);
    forall v: nat ensures Count(s, v) == Count(t, v) {
      assert CountL(s.args, v) == Count(Same(m, n), v) + CountL(rest, v);
      assert CountL(t.args, v) == Count(Same(l, n), v) + CountL(rest, v);
    }
  }

  // On l(m(x, .., x), x, .., x) and m(l(x, .., x), x, .., x), for two labels that
  // are not told apart, the reference comparator goes on to the arguments and
  // finds a verdict; the linear one does not.
  lemma ComparatorsPart(kb: Kbo, l: nat, m: nat)
    requires kb.Valid() && l < |kb.arities| && m < |kb.arities| && l != m && !kb.Apart(l, m)
    ensures var s, t := Nested(l, m, kb.arities[l]), Nested(m, l, kb.arities[m]);
      WF(kb, s) && WF(kb, t) && Decide(kb, s, t) != UN && LinearCompare(kb, s, t) == UN
  {
    var n := kb.arities[l];
    if n == 0 {
      var s, t := Nested(l, m, n), Nested(m, l, n);
      assert s.args == t.args == Nil;
      assert Dominates(s, t) && Dominates(t, s);
    } else {
      NestedWF(kb, l, m);
      NestedWF(kb, m, l);
      NestedDecided(kb, l, m, n);
    }
  }

  lemma NestedWF(kb: Kbo, l: nat, m: nat)
    requires l < |kb.arities| && m < |kb.arities| && kb.arities[l] == kb.arities[m] > 0
    ensures WF(kb, Nested(l, m, kb.arities[l]))
  {
    var n := kb.arities[l];
    RepeatWF(kb, Var(0), n);
    RepeatWF(kb, Var(0), n - 1);
    assert WF(kb, Same(m, n));
  }

  lemma NestedDecided(kb: Kbo, l: nat, m: nat, n: nat)
    requires l != m && n > 0 && kb.LabelPrecedence(l) == kb.LabelPrecedence(m)
    ensures Decide(kb, Nested(l, m, n), Nested(m, l, n)) != UN
    ensures LinearCompare(kb, Nested(l, m, n), Nested(m, l, n)) == UN
  {
    var s, t, rest := Nested(l, m, n), Nested(m, l, n), Repeat(Var(0), n - 1);
    NestedMeasures(kb, l, m, n);
    NestedMeasures(kb, m, l, n);
    SameDecided(kb, m, l, n);
    SameListsEqual(kb, rest, true, true);
    RepeatLen(Var(0), n - 1);
    assert Len(s.args) == 1 + Len(rest) == Len(t.args);
    assert DecideL(kb, s.args, t.args, true, true) != UN;
  }

  lemma SameDecided(kb: Kbo, l: nat, m: nat, n: nat)
    requires l != m && n > 0 && kb.LabelPrecedence(l) == kb.LabelPrecedence(m)
    ensures Decide(kb, Same(l, n), Same(m, n)) != UN
  {
    SameMeasures(kb, l, m, n);
    SameListsEqual(kb, Repeat(Var(0), n), true, true);
  }

  ghost predicate ComparatorsAgree(kb: Kbo, s: Term, t: Term) {
    WF(kb, s) && WF(kb, t) ==> Decide(kb, s, t) == LinearCompare(kb, s, t)
  }

  // The reference and the linear comparator always agree exactly when labels of
  // one precedence and arity are constants of different weight.
  lemma ComparatorsAgreeIff(kb: Kbo)
    requires kb.Valid()
    ensures kb.Decisive() <==> forall s, t :: ComparatorsAgree(kb, s, t)
  {
    if kb.Decisive() {
      forall s, t ensures ComparatorsAgree(kb, s, t) {
        if WF(kb, s) && WF(kb, t) {
          DecideIsCompare(kb, s, t);
          LinearIsCompare(kb, s, t);
        }
      }
    } else {
      var l, m :| 0 <= l < |kb.arities| && 0 <= m < |kb.arities| && l != m && !kb.Apart(l, m);
      ComparatorsPart(kb, l, m);
      assert !ComparatorsAgree(kb, Nested(l, m, kb.arities[l]), Nested(m, l, kb.arities[m]));
    }
  }
}
