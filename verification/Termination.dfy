// Rewriting with oriented rules: every step goes down in the ordering, so the
// loop stops by itself and the final comparison has only two possible answers.
module Termination {
  import opened FirstOrder
  import opened KnuthBendix
  import opened Rewriting

  // The rule set the inner loop keeps: left sides greater than right sides.
  ghost predicate Oriented(kb: Kbo, rules: seq<Rule>) {
    forall i :: 0 <= i < |rules| ==>
      WF(kb, rules[i].lhs) && WF(kb, rules[i].rhs) && Greater(kb, rules[i].lhs, rules[i].rhs)
  }

  lemma {:induction false} OccursIffCounted(ts: TermList, v: nat)
    ensures v in VarsL(ts) <==> CountL(ts, v) > 0
  {
    match ts
    case Nil =>
    case Cons(h, tail) =>
      if h.App? { OccursIffCounted(h.args, v); }
      OccursIffCounted(tail, v);
  }

  // Orientation already forbids a right side with a variable of its own.
  lemma OrientedWF(kb: Kbo, rules: seq<Rule>)
    requires Oriented(kb, rules)
    ensures WFRules(kb, rules)
  {
    forall i | 0 <= i < |rules| ensures Vars(rules[i].rhs) <= Vars(rules[i].lhs) {
      forall v | v in Vars(rules[i].rhs) ensures v in Vars(rules[i].lhs) {
        OccursIffCounted(Cons(rules[i].rhs, Nil), v);
        OccursIffCounted(Cons(rules[i].lhs, Nil), v);
        assert Count(rules[i].lhs, v) >= Count(rules[i].rhs, v);
      }
    }
  }

  lemma StepDecreases(kb: Kbo, rules: seq<Rule>, t: Term)
    requires kb.Grounded() && Oriented(kb, rules) && WF(kb, t)
    requires Step(rules, t).Some?
    ensures WF(kb, Step(rules, t).value) && Greater(kb, t, Step(rules, t).value)
  {
    OrientedWF(kb, rules);
    StepWF(kb, rules, t);
    var c, i, s := StepRedex(kb, rules, t);
    Stable(kb, rules[i].lhs, rules[i].rhs, s);
    ContextClosed(kb, c, Apply(rules[i].lhs, s), Apply(rules[i].rhs, s));
  }

  // The normal form lies strictly below the subject exactly when a step fired.
  lemma {:induction false} NormalFormVerdict(kb: Kbo, rules: seq<Rule>, t: Term, cap: nat)
    requires kb.Grounded() && Oriented(kb, rules) && WF(kb, t)
    ensures WF(kb, Normalize(rules, t, cap))
    ensures Compare(kb, t, Normalize(rules, t, cap)) == if cap == 0 || Step(rules, t).None? then EQ else GT
    decreases cap
  {
    if cap != 0 && Step(rules, t).Some? {
      var u := Step(rules, t).value;
      StepDecreases(kb, rules, t);
      NormalFormVerdict(kb, rules, u, cap - 1);
      var n := Normalize(rules, u, cap - 1);
      if u != n {
        CompareVerdicts(kb, u, n);
        Transitive(kb, t, u, n);
      }
      Irreflexive(kb, t);
    }
  }

  // No iterate ever reaches twice the weight of the subject.
  lemma NormalFormFits(kb: Kbo, rules: seq<Rule>, t: Term, cap: nat)
    requires kb.Admissible() && Oriented(kb, rules) && WF(kb, t)
    ensures Size(Normalize(rules, t, cap)) < 2 * Weight(kb, t)
  {
    NormalFormVerdict(kb, rules, t, cap);
    SizeBelowTwiceWeight(kb, Cons(Normalize(rules, t, cap), Nil));
  }

  // ---- how many steps at most ----

  // Every term over the signature with at most n nodes (and possibly larger ones).
  ghost function TermsUpTo(kb: Kbo, n: nat): set<Term>
    decreases n, 0
  {
    if n == 0 then {}
    else
      (set v | 0 <= v < MAX_VARS :: Var(v)) +
      (set l, ts | 0 <= l < |kb.arities| && ts in ListsUpTo(kb, kb.arities[l], n - 1) :: App(l, ts))
  }

  ghost function ListsUpTo(kb: Kbo, k: nat, n: nat): set<TermList>
    decreases n, k + 1
  {
    if k == 0 then {Nil}
    else set h, tail | h in TermsUpTo(kb, n) && tail in ListsUpTo(kb, k - 1, n) :: Cons(h, tail)
  }

  lemma {:induction false} Enumerated(kb: Kbo, ts: TermList, n: nat)
    requires WFL(kb, ts) && SizeL(ts) <= n
    ensures ts in ListsUpTo(kb, Len(ts), n)
    ensures ts.Cons? ==> ts.head in TermsUpTo(kb, n)
  {
    match ts
    case Nil =>
    case Cons(h, tail) =>
      if h.App? { Enumerated(kb, h.args, n - 1); }
      Enumerated(kb, tail, n);
  }

  // The number of steps after which an oriented rule set must have stopped.
  ghost function StepBound(kb: Kbo, t: Term): nat {
    |TermsUpTo(kb, 2 * Weight(kb, t))|
  }

  // `below` holds t and everything under it; each step leaves one term behind.
  lemma {:induction false} DescentBound(kb: Kbo, rules: seq<Rule>, t: Term, cap: nat, below: set<Term>)
    requires kb.Admissible() && Oriented(kb, rules) && WF(kb, t)
    requires t in below && forall u :: WF(kb, u) && Greater(kb, t, u) ==> u in below
    requires |below| <= cap + 1
    ensures Step(rules, Normalize(rules, t, cap)).None?
    decreases cap
  {
    if Step(rules, t).Some? {
      var u := Step(rules, t).value;
      StepDecreases(kb, rules, t);
      Irreflexive(kb, t);
      assert {t, u} <= below && |{t, u}| == 2;
      CardinalityMonotone({t, u}, below);
      forall v | WF(kb, v) && Greater(kb, u, v) ensures v in below - {t} {
        Transitive(kb, t, u, v);
      }
      DescentBound(kb, rules, u, cap - 1, below - {t});
    }
  }

  lemma {:induction false} CardinalityMonotone<T>(a: set<T>, b: set<T>)
    requires a <= b
    ensures |a| <= |b|
  {
    if a != {} {
      var x :| x in a;
      CardinalityMonotone(a - {x}, b - {x});
    }
  }

  // With a cap at or above the bound the result is irreducible, whatever the rules.
  lemma NormalizeTerminates(kb: Kbo, rules: seq<Rule>, t: Term, cap: nat)
    requires kb.Admissible() && Oriented(kb, rules) && WF(kb, t)
    requires StepBound(kb, t) <= cap
    ensures Step(rules, Normalize(rules, t, cap)).None?
    ensures forall u :: !Rewrites(rules, Normalize(rules, t, cap), u)
  {
    var below := TermsUpTo(kb, 2 * Weight(kb, t));
    forall u | WF(kb, u) && (u == t || Greater(kb, t, u)) ensures u in below {
      SizeBelowTwiceWeight(kb, Cons(u, Nil));
      Enumerated(kb, Cons(u, Nil), 2 * Weight(kb, t));
    }
    DescentBound(kb, rules, t, cap, below);
    OrientedWF(kb, rules);
    NormalizeWF(kb, rules, t, cap);
    StepIffReducible(kb, rules, Normalize(rules, t, cap));
  }

  // ---- the heap-term loop ----

  // No label has more children than the heap-term code handles.
  ghost predicate NarrowLabels(kb: Kbo) {
    forall l :: 0 <= l < |kb.arities| ==> kb.arities[l] <= MAX_ARITY
  }

  lemma {:induction false} NarrowWF(kb: Kbo, ts: TermList)
    requires NarrowLabels(kb) && WFL(kb, ts)
    ensures NarrowL(ts)
  {
    if ts.Cons? {
      if ts.head.App? { NarrowWF(kb, ts.head.args); }
      NarrowWF(kb, ts.tail);
    }
  }

  lemma NarrowWFRules(kb: Kbo, rules: seq<Rule>)
    requires NarrowLabels(kb) && Oriented(kb, rules)
    ensures NarrowRules(rules)
  {
    forall i | 0 <= i < |rules| ensures Narrow(rules[i].rhs) { NarrowWF(kb, Cons(rules[i].rhs, Nil)); }
  }

  // On oriented rules no redex rewrites to itself, so both loops compute the same term.
  lemma {:induction false} HeapNormalizeAgrees(kb: Kbo, rules: seq<Rule>, t: Term, cap: nat)
    requires kb.Grounded() && Oriented(kb, rules) && WF(kb, t) && NarrowLabels(kb)
    ensures HeapNormalize(rules, t, cap) == Normalize(rules, t, cap)
    decreases cap
  {
    NarrowWFRules(kb, rules);
    NarrowWF(kb, Cons(t, Nil));
    HeapStepAgrees(rules, t);
    if Step(rules, t).Some? {
      StepDecreases(kb, rules, t);
      Irreflexive(kb, t);
    }
    if cap != 0 && Step(rules, t).Some? {
      HeapNormalizeAgrees(kb, rules, Step(rules, t).value, cap - 1);
    }
  }

  // With more children they part: the rule l(x, .., x) -> x applies inside
  // l(l(x, .., x), x, .., x), where the heap-term step does not look.
  function WideRule(l: nat, n: nat): Rule {
    Rule(App(l, Repeat(Var(0), n)), Var(0))
  }

  function WideTerm(l: nat, n: nat): Term
    requires n > 0
  {
    App(l, Cons(App(l, Repeat(Var(0), n)), Repeat(Var(0), n - 1)))
  }

  lemma {:induction false} RepeatMeasures(kb: Kbo, n: nat, v: nat)
    ensures CountL(Repeat(Var(0), n), v) == if v == 0 then n else 0
    ensures WeightL(kb, Repeat(Var(0), n)) >= if n >= 2 then 2 * kb.varWeight else n * kb.varWeight
  {
    if n > 0 { RepeatMeasures(kb, n - 1, v); }
  }

  lemma WideOriented(kb: Kbo, l: nat)
    requires kb.Valid() && 1 <= kb.varWeight && l < |kb.arities| && kb.arities[l] >= 2
    ensures Oriented(kb, [WideRule(l, kb.arities[l])]) && WF(kb, WideTerm(l, kb.arities[l]))
  {
    var n, x := kb.arities[l], Var(0);
    RepeatWF(kb, x, n);
    RepeatWF(kb, x, n - 1);
    var lhs := App(l, Repeat(x, n));
    RepeatMeasures(kb, n, 0);
    forall v: nat ensures Count(lhs, v) >= Count(x, v) { RepeatMeasures(kb, n, v); }
    assert WF(kb, x) && WF(kb, lhs) && Greater(kb, lhs, x);
  }

  lemma WideParts(kb: Kbo, l: nat, n: nat)
    requires kb.Valid() && l < |kb.arities| && kb.arities[l] == n > MAX_ARITY
    ensures var rules, t := [WideRule(l, n)], WideTerm(l, n); Step(rules, t).Some? && HeapStep(rules, t) == t
  {
    var x, p := Var(0), App(l, Repeat(Var(0), n));
    var rules, t := [WideRule(l, n)], WideTerm(l, n);
    RepeatWF(kb, x, n);
    RepeatWF(kb, x, n - 1);
    var m := Match(p, t, map[]);
    assert m.None? by {
      if m.Some? {
        NotAnInstance(l, n, m.value);
        MatchIff(kb, p, t, m.value);
      }
    }
    SelfMatch(kb, p);
    assert rules[1..] == [];
    assert TryTop(rules, t) == None && HeapTryTop(rules, t) == None && TryTop(rules, p).Some?;
    assert Step(rules, p) == TryTop(rules, p) && StepL(rules, t.args).Some?;
    assert Len(t.args) == n;
  }

  // The first two children of an instance are the same, those of t are not.
  lemma NotAnInstance(l: nat, n: nat, s: Subst)
    requires n >= 2
    ensures Apply(WideRule(l, n).lhs, s) != WideTerm(l, n)
  {
    var x := Var(0);
    var image := Apply(x, s);
    assert ApplyL(Repeat(x, n), s) == Cons(image, ApplyL(Repeat(x, n - 1), s));
    assert ApplyL(Repeat(x, n - 1), s) == Cons(image, ApplyL(Repeat(x, n - 2), s));
    assert Repeat(x, n - 1) == Cons(x, Repeat(x, n - 2));
  }

  // A term matches itself.
  lemma SelfMatch(kb: Kbo, p: Term)
    requires WF(kb, p)
    ensures Match(p, p, map[]).Some? && Apply(p, Match(p, p, map[]).value) == p
  {
    ApplyEmpty(Cons(p, Nil));
    assert ApplyL(Cons(p, Nil), map[]).head == Apply(p, map[]);
    MatchExists(kb, p, p, map[]);
    MatchIff(kb, p, p, Restricted(p, map[]));
  }

  lemma {:induction false} ApplyEmpty(ts: TermList)
    ensures ApplyL(ts, map[]) == ts
  {
    if ts.Cons? {
      if ts.head.App? { ApplyEmpty(ts.head.args); }
      ApplyEmpty(ts.tail);
    }
  }

  ghost predicate LoopsAgree(kb: Kbo, rules: seq<Rule>, t: Term, cap: nat) {
    Oriented(kb, rules) && WF(kb, t) ==> HeapNormalize(rules, t, cap) == Normalize(rules, t, cap)
  }

  // The two loops compute the same term for all oriented rules over a
  // signature exactly when no label of it has more than MAX_ARITY children.
  lemma LoopsAgreeIff(kb: Kbo)
    requires kb.Grounded() && 1 <= kb.varWeight
    ensures NarrowLabels(kb) <==> forall rules, t, cap :: LoopsAgree(kb, rules, t, cap)
  {
    if NarrowLabels(kb) {
      forall rules, t, cap ensures LoopsAgree(kb, rules, t, cap) {
        if Oriented(kb, rules) && WF(kb, t) { HeapNormalizeAgrees(kb, rules, t, cap); }
      }
    } else {
      var l :| 0 <= l < |kb.arities| && kb.arities[l] > MAX_ARITY;
      var rules, t := [WideRule(l, kb.arities[l])], WideTerm(l, kb.arities[l]);
      WideOriented(kb, l);
      WideParts(kb, l, kb.arities[l]);
      StepDecreases(kb, rules, t);
      Irreflexive(kb, t);
      assert Normalize(rules, t, 1) == Normalize(rules, Step(rules, t).value, 0) == Step(rules, t).value;
      assert !LoopsAgree(kb, rules, t, 1);
    }
  }

  // ---- a weightless unary label ----

  // A unary label of weight zero that is not the greatest: m(..) -> l(m(..)) is
  // oriented and never stops.
  lemma {:induction false} WeightlessNeverStops(kb: Kbo, l: nat, m: nat, k: nat, cap: nat)
    requires kb.Valid() && l < |kb.arities| && m < |kb.arities| && kb.arities[l] == 1 && kb.weights[l] == 0
    requires kb.precedence[m] > kb.precedence[l]
    ensures var body := App(m, Repeat(Var(0), kb.arities[m]));
      var rules := [Rule(body, App(l, Cons(body, Nil)))];
      && Oriented(kb, rules) && WF(kb, Tower(l, body, k))
      && Step(rules, Normalize(rules, Tower(l, body, k), cap)).Some?
    decreases cap
  {
    var body := App(m, Repeat(Var(0), kb.arities[m]));
    var rules := [Rule(body, App(l, Cons(body, Nil)))];
    RepeatWF(kb, Var(0), kb.arities[m]);
    TowerWF(kb, l, body, k);
    var up := App(l, Cons(body, Nil));
    Single(kb, body);
    assert up.args == Cons(body, Nil) && forall v: nat :: Count(up, v) == CountL(up.args, v);
    assert WF(kb, up) && Greater(kb, body, up);
    TowerStep(kb, l, m, k);
    if cap > 0 { WeightlessNeverStops(kb, l, m, k + 1, cap - 1); }
  }

  function Tower(l: nat, t: Term, k: nat): Term {
    if k == 0 then t else App(l, Cons(Tower(l, t, k - 1), Nil))
  }

  lemma {:induction false} TowerWF(kb: Kbo, l: nat, t: Term, k: nat)
    requires l < |kb.arities| && kb.arities[l] == 1 && WF(kb, t)
    ensures WF(kb, Tower(l, t, k))
  {
    if k > 0 {
      TowerWF(kb, l, t, k - 1);
      Single(kb, Tower(l, t, k - 1));
    }
  }

  lemma {:induction false} TowerStep(kb: Kbo, l: nat, m: nat, k: nat)
    requires l != m && m < |kb.arities|
    ensures var body := App(m, Repeat(Var(0), kb.arities[m])); var rules := [Rule(body, App(l, Cons(body, Nil)))];
      Step(rules, Tower(l, body, k)) == Some(Tower(l, body, k + 1))
  {
    var body := App(m, Repeat(Var(0), kb.arities[m]));
    var rules := [Rule(body, App(l, Cons(body, Nil)))];
    assert rules[1..] == [];
    RepeatWF(kb, Var(0), kb.arities[m]);
    if k == 0 {
      SelfMatch(kb, body);
      var s := Match(body, body, map[]).value;
      assert ApplyL(Cons(body, Nil), s) == Cons(body, Nil);
      assert Tower(l, body, 1) == App(l, Cons(body, Nil));
    } else {
      TowerStep(kb, l, m, k - 1);
      var below := Tower(l, body, k - 1);
      assert Match(body, App(l, Cons(below, Nil)), map[]) == None;
      assert TryTop(rules, App(l, Cons(below, Nil))) == None;
      assert StepL(rules, Cons(below, Nil)) == Some(Cons(Tower(l, body, k), Nil));
    }
  }
}
