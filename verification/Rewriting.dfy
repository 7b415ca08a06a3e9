// The tree rewriter the flat core is measured against: one-way matching, one
// leftmost-outermost step with the lowest-index rule, and iteration of the step.
module Rewriting {
  import opened FirstOrder

  datatype Option<T> = None | Some(value: T)

  datatype Rule = Rule(lhs: Term, rhs: Term)

  // ---- matching ----

  // thvm_match: extend the bindings s so that the pattern becomes t.
  function Match(p: Term, t: Term, s: Subst): Option<Subst>
    decreases p
  {
    match p
    case Var(id) =>
      if id >= MAX_VARS then None
      else if id in s then (if s[id] == t then Some(s) else None)
      else Some(s[id := t])
    case App(l, ps) =>
      if t.App? && t.lab == l then MatchL(ps, t.args, s) else None
  }

  function MatchL(ps: TermList, ts: TermList, s: Subst): Option<Subst>
    decreases ps
  {
    if ps.Cons? && ts.Cons? then
      var r := Match(ps.head, ts.head, s);
      if r.Some? then MatchL(ps.tail, ts.tail, r.value) else None
    else if ps.Nil? && ts.Nil? then Some(s)
    else None
  }

  function Vars(t: Term): set<nat> {
    match t
    case Var(id) => {id}
    case App(_, args) => VarsL(args)
  }

  function VarsL(ts: TermList): set<nat> {
    match ts
    case Nil => {}
    case Cons(h, tail) => Vars(h) + VarsL(tail)
  }

  // What matching is for: s binds exactly the variables of p and turns p into t.
  ghost predicate Matches(p: Term, t: Term, s: Subst) {
    s.Keys == Vars(p) && Apply(p, s) == t
  }

  ghost predicate Extends(s: Subst, s': Subst) {
    forall v :: v in s ==> v in s' && s'[v] == s[v]
  }

  lemma {:induction false} ApplyExtended(ps: TermList, s: Subst, s': Subst)
    requires Extends(s, s') && VarsL(ps) <= s.Keys
    ensures ApplyL(ps, s') == ApplyL(ps, s)
  {
    match ps
    case Nil =>
    case Cons(h, tail) =>
      if h.App? { ApplyExtended(h.args, s, s'); } else { assert h.id in Vars(h); }
      ApplyExtended(tail, s, s');
  }

  lemma {:induction false} MatchSound(ps: TermList, ts: TermList, s: Subst)
    requires MatchL(ps, ts, s).Some?
    ensures var s' := MatchL(ps, ts, s).value;
      Extends(s, s') && s'.Keys == s.Keys + VarsL(ps) && ApplyL(ps, s') == ts
  {
    if ps.Cons? {
      var s1 := Match(ps.head, ts.head, s).value;
      if ps.head.App? { MatchSound(ps.head.args, ts.head.args, s); }
      MatchSound(ps.tail, ts.tail, s1);
      ApplyExtended(Cons(ps.head, Nil), s1, MatchL(ps, ts, s).value);
    }
  }

  lemma {:induction false} MatchComplete(kb: Kbo, ps: TermList, ts: TermList, s: Subst, w: Subst)
    requires WFL(kb, ps) && Extends(s, w) && VarsL(ps) <= w.Keys && ApplyL(ps, w) == ts
    ensures MatchL(ps, ts, s).Some? && Extends(MatchL(ps, ts, s).value, w)
  {
    if ps.Cons? {
      assert ps.head.Var? ==> ps.head.id in Vars(ps.head);
      if ps.head.App? { MatchComplete(kb, ps.head.args, ts.head.args, s, w); }
      MatchComplete(kb, ps.tail, ts.tail, Match(ps.head, ts.head, s).value, w);
    }
  }

  // The matcher returns s exactly when s is the matching substitution.
  lemma MatchIff(kb: Kbo, p: Term, t: Term, s: Subst)
    requires WF(kb, p)
    ensures Match(p, t, map[]) == Some(s) <==> Matches(p, t, s)
  {
    var ps, ts := Cons(p, Nil), Cons(t, Nil);
    assert MatchL(ps, ts, map[]) == Match(p, t, map[]);
    if Match(p, t, map[]) == Some(s) { MatchSound(ps, ts, map[]); }
    if Matches(p, t, s) {
      MatchComplete(kb, ps, ts, map[], s);
      MatchSound(ps, ts, map[]);
      var s' := MatchL(ps, ts, map[]).value;
      assert s'.Keys == s.Keys;
      assert s' == s;
    }
  }

  lemma {:induction false} MatchWF(kb: Kbo, ps: TermList, ts: TermList, s: Subst)
    requires WFL(kb, ts) && WFSubst(kb, s) && MatchL(ps, ts, s).Some?
    ensures WFSubst(kb, MatchL(ps, ts, s).value)
  {
    if ps.Cons? {
      if ps.head.App? { MatchWF(kb, ps.head.args, ts.head.args, s); }
      MatchWF(kb, ps.tail, ts.tail, Match(ps.head, ts.head, s).value);
    }
  }

  // The part of s that p looks at.
  function Restricted(p: Term, s: Subst): Subst {
    map v | v in Vars(p) :: Apply(Var(v), s)
  }

  lemma {:induction false} ApplyRestricted(ps: TermList, s: Subst, s': Subst)
    requires forall v :: v in VarsL(ps) ==> v in s' && s'[v] == Apply(Var(v), s)
    ensures ApplyL(ps, s') == ApplyL(ps, s)
  {
    match ps
    case Nil =>
    case Cons(h, tail) =>
      assert VarsL(ps) == Vars(h) + VarsL(tail);
      if h.App? {
        assert Vars(h) == VarsL(h.args);
        ApplyRestricted(h.args, s, s');
      } else {
        assert h.id in Vars(h);
      }
      ApplyRestricted(tail, s, s');
  }

  // A match exists as soon as any substitution at all turns p into t.
  lemma MatchExists(kb: Kbo, p: Term, t: Term, s: Subst)
    requires WF(kb, p) && Apply(p, s) == t
    ensures Match(p, t, map[]) == Some(Restricted(p, s))
  {
    ApplyRestricted(Cons(p, Nil), s, Restricted(p, s));
    assert ApplyL(Cons(p, Nil), s) == Cons(t, Nil);
    assert Matches(p, t, Restricted(p, s));
    MatchIff(kb, p, t, Restricted(p, s));
  }

  // ---- one step ----

  // The rules tried at the root, lowest index first (rewrite_try_top).
  function TryTop(rules: seq<Rule>, t: Term): Option<Term>
  {
    if rules == [] then None
    else
      var m := Match(rules[0].lhs, t, map[]);
      if m.Some? then Some(Apply(rules[0].rhs, m.value)) else TryTop(rules[1..], t)
  }

  // The root first, then the children left to right; the first redex fires.
  function Step(rules: seq<Rule>, t: Term): Option<Term>
    decreases t
  {
    var top := TryTop(rules, t);
    if top.Some? then top
    else if t.Var? then None
    else
      var args := StepL(rules, t.args);
      if args.Some? then Some(App(t.lab, args.value)) else None
  }

  function StepL(rules: seq<Rule>, ts: TermList): Option<TermList>
    decreases ts
  {
    match ts
    case Nil => None
    case Cons(h, tail) =>
      var h' := Step(rules, h);
      if h'.Some? then Some(Cons(h'.value, tail))
      else
        var tail' := StepL(rules, tail);
        if tail'.Some? then Some(Cons(h, tail'.value)) else None
  }

  // Rules over the signature that invent no variable.
  ghost predicate WFRules(kb: Kbo, rules: seq<Rule>) {
    forall i :: 0 <= i < |rules| ==>
      WF(kb, rules[i].lhs) && WF(kb, rules[i].rhs) && Vars(rules[i].rhs) <= Vars(rules[i].lhs)
  }

  // ---- the rewrite relation the step implements ----

  ghost predicate RewritesVia(rules: seq<Rule>, t: Term, u: Term, c: Context, i: nat, s: Subst) {
    && i < |rules|
    && t == Plug(c, Apply(rules[i].lhs, s))
    && u == Plug(c, Apply(rules[i].rhs, s))
  }

  ghost predicate Rewrites(rules: seq<Rule>, t: Term, u: Term) {
    exists c: Context, i: nat, s: Subst :: RewritesVia(rules, t, u, c, i, s)
  }

  lemma {:induction false} TopRedex(kb: Kbo, rules: seq<Rule>, t: Term) returns (i: nat, s: Subst)
    requires WF(kb, t) && TryTop(rules, t).Some?
    ensures i < |rules| && WFSubst(kb, s) && Apply(rules[i].lhs, s) == t
    ensures TryTop(rules, t).value == Apply(rules[i].rhs, s)
  {
    var m := Match(rules[0].lhs, t, map[]);
    if m.Some? {
      var ps, ts := Cons(rules[0].lhs, Nil), Cons(t, Nil);
      assert MatchL(ps, ts, map[]) == m;
      MatchSound(ps, ts, map[]);
      MatchWF(kb, ps, ts, map[]);
      i, s := 0, m.value;
    } else {
      i, s := TopRedex(kb, rules[1..], t);
      i := i + 1;
    }
  }

  lemma {:induction false} TopComplete(kb: Kbo, rules: seq<Rule>, t: Term, i: nat, s: Subst)
    requires WFRules(kb, rules) && i < |rules| && Apply(rules[i].lhs, s) == t
    ensures TryTop(rules, t).Some?
  {
    if i == 0 {
      MatchExists(kb, rules[0].lhs, t, s);
    } else {
      assert rules[1..][i - 1] == rules[i];
      TopComplete(kb, rules[1..], t, i - 1, s);
    }
  }

  // ---- which rule fires ----

  // t is an instance of p.
  ghost predicate Instance(p: Term, t: Term) {
    exists s: Subst :: Apply(p, s) == t
  }

  // One substitution makes the sides of the rule t and u.
  ghost predicate Sends(rule: Rule, t: Term, u: Term) {
    exists s: Subst :: Apply(rule.lhs, s) == t && Apply(rule.rhs, s) == u
  }

  // Rule i sends t to u, and no rule below it has an instance at t.
  ghost predicate FirstRule(rules: seq<Rule>, t: Term, u: Term, i: nat) {
    && i < |rules| && Sends(rules[i], t, u)
    && forall j :: 0 <= j < i ==> !Instance(rules[j].lhs, t)
  }

  // A rule that invents no variable sends a term to the matcher's instance only.
  lemma MatchSends(kb: Kbo, rule: Rule, t: Term)
    requires WF(kb, rule.lhs) && Vars(rule.rhs) <= Vars(rule.lhs)
    ensures var m := Match(rule.lhs, t, map[]);
      && (m.Some? <==> Instance(rule.lhs, t))
      && forall u :: Sends(rule, t, u) <==> m.Some? && u == Apply(rule.rhs, m.value)
  {
    var m := Match(rule.lhs, t, map[]);
    if m.Some? {
      MatchIff(kb, rule.lhs, t, m.value);
      assert Sends(rule, t, Apply(rule.rhs, m.value));
    }
    forall s: Subst | Apply(rule.lhs, s) == t ensures m.Some? && Apply(rule.rhs, s) == Apply(rule.rhs, m.value) {
      MatchExists(kb, rule.lhs, t, s);
      ApplyRestricted(Cons(rule.rhs, Nil), s, m.value);
      assert ApplyL(Cons(rule.rhs, Nil), s).head == ApplyL(Cons(rule.rhs, Nil), m.value).head;
    }
  }

  lemma FirstRuleShift(rules: seq<Rule>, t: Term, u: Term, i: nat)
    requires rules != [] && !Instance(rules[0].lhs, t)
    ensures FirstRule(rules, t, u, i + 1) <==> FirstRule(rules[1..], t, u, i)
    ensures !FirstRule(rules, t, u, 0)
  {
    assert FirstRule(rules[1..], t, u, i) ==> forall j :: 0 < j < i + 1 ==> rules[j] == rules[1..][j - 1];
    assert FirstRule(rules, t, u, i + 1) ==> forall j :: 0 <= j < i ==> rules[1..][j] == rules[j + 1];
    assert Sends(rules[0], t, u) ==> Instance(rules[0].lhs, t);
  }

  // The root is rewritten by the first rule that has an instance there.
  lemma {:induction false} TryTopIff(kb: Kbo, rules: seq<Rule>, t: Term, u: Term)
    requires WFRules(kb, rules)
    ensures TryTop(rules, t) == Some(u) <==> exists i :: FirstRule(rules, t, u, i)
  {
    if rules != [] {
      MatchSends(kb, rules[0], t);
      if Instance(rules[0].lhs, t) {
        assert Sends(rules[0], t, u) ==> FirstRule(rules, t, u, 0);
        assert forall i: nat :: FirstRule(rules, t, u, i) ==> i == 0;
      } else {
        TryTopIff(kb, rules[1..], t, u);
        if i: nat :| FirstRule(rules, t, u, i) { FirstRuleShift(rules, t, u, if i == 0 then 0 else i - 1); }
        if i: nat :| FirstRule(rules[1..], t, u, i) { FirstRuleShift(rules, t, u, i); }
      }
    }
  }

  lemma {:induction false} TryTopNone(kb: Kbo, rules: seq<Rule>, t: Term)
    requires WFRules(kb, rules)
    ensures TryTop(rules, t).None? <==> forall i :: 0 <= i < |rules| ==> !Instance(rules[i].lhs, t)
  {
    if rules != [] {
      MatchSends(kb, rules[0], t);
      TryTopNone(kb, rules[1..], t);
      assert forall i :: 0 < i < |rules| ==> rules[i] == rules[1..][i - 1];
      assert forall i :: 0 <= i < |rules| - 1 ==> rules[1..][i] == rules[i + 1];
    }
  }

  // Where in a list the step fires.
  lemma {:induction false} FirstStepping(rules: seq<Rule>, ts: TermList) returns (before: TermList, h: Term, after: TermList)
    requires StepL(rules, ts).Some?
    ensures ts == Append(before, Cons(h, after)) && h < ts && OutermostL(rules, before) == []
    ensures Step(rules, h).Some? && StepL(rules, ts).value == Append(before, Cons(Step(rules, h).value, after))
  {
    if Step(rules, ts.head).Some? {
      before, h, after := Nil, ts.head, ts.tail;
    } else {
      before, h, after := FirstStepping(rules, ts.tail);
      NothingOutermost(rules, Cons(ts.head, Nil));
      before := Cons(ts.head, before);
    }
  }

  // A step is a rewrite: some rule instance replaced in some context.
  lemma {:induction false} StepRedex(kb: Kbo, rules: seq<Rule>, t: Term) returns (c: Context, i: nat, s: Subst)
    requires WF(kb, t) && Step(rules, t).Some?
    ensures RewritesVia(rules, t, Step(rules, t).value, c, i, s) && WFSubst(kb, s)
    decreases t
  {
    if TryTop(rules, t).Some? {
      i, s := TopRedex(kb, rules, t);
      c := Hole;
    } else {
      var before, h, after := FirstStepping(rules, t.args);
      AppendWF(kb, before, Cons(h, after));
      c, i, s := StepRedex(kb, rules, h);
      c := In(t.lab, before, c, after);
    }
  }

  lemma {:induction false} StepLFinds(rules: seq<Rule>, before: TermList, h: Term, after: TermList)
    requires Step(rules, h).Some?
    ensures StepL(rules, Append(before, Cons(h, after))).Some?
  {
    if before.Cons? { StepLFinds(rules, before.tail, h, after); }
  }

  lemma {:induction false} StepFinds(kb: Kbo, rules: seq<Rule>, t: Term, u: Term, c: Context, i: nat, s: Subst)
    requires WFRules(kb, rules) && RewritesVia(rules, t, u, c, i, s)
    ensures Step(rules, t).Some?
    decreases c
  {
    match c
    case Hole => TopComplete(kb, rules, t, i, s);
    case In(_, before, inner, after) =>
      var x, y := Plug(inner, Apply(rules[i].lhs, s)), Plug(inner, Apply(rules[i].rhs, s));
      StepFinds(kb, rules, x, y, inner, i, s);
      StepLFinds(rules, before, x, after);
  }

  // The step makes a rewrite whenever the term has one, and otherwise reports none.
  lemma StepIffReducible(kb: Kbo, rules: seq<Rule>, t: Term)
    requires WFRules(kb, rules) && WF(kb, t)
    ensures Step(rules, t).Some? ==> Rewrites(rules, t, Step(rules, t).value)
    ensures Step(rules, t).None? <==> forall u :: !Rewrites(rules, t, u)
  {
    if Step(rules, t).Some? {
      var c, i, s := StepRedex(kb, rules, t);
      assert Rewrites(rules, t, Step(rules, t).value);
    }
    forall u | Rewrites(rules, t, u) ensures Step(rules, t).Some? {
      var c: Context, i: nat, s: Subst :| RewritesVia(rules, t, u, c, i, s);
      StepFinds(kb, rules, t, u, c, i, s);
    }
  }

  lemma {:induction false} PlugWF(kb: Kbo, c: Context, t: Term, u: Term)
    requires WF(kb, Plug(c, t))
    ensures WF(kb, t)
    ensures WF(kb, u) ==> WF(kb, Plug(c, u))
  {
    match c
    case Hole =>
    case In(_, before, inner, after) =>
      var t', u' := Plug(inner, t), Plug(inner, u);
      AppendWF(kb, before, Cons(t', after));
      AppendWF(kb, before, Cons(u', after));
      AppendMeasures(before, Cons(t', after));
      AppendMeasures(before, Cons(u', after));
      PlugWF(kb, inner, t, u);
  }

  lemma StepWF(kb: Kbo, rules: seq<Rule>, t: Term)
    requires WFRules(kb, rules) && WF(kb, t) && Step(rules, t).Some?
    ensures WF(kb, Step(rules, t).value)
  {
    var c, i, s := StepRedex(kb, rules, t);
    ApplyWF(kb, Cons(rules[i].rhs, Nil), s);
    PlugWF(kb, c, Apply(rules[i].lhs, s), Apply(rules[i].rhs, s));
  }

  // ---- iteration ----

  // At most cap steps, stopping early at an irreducible term.
  function Normalize(rules: seq<Rule>, t: Term, cap: nat): Term
    decreases cap
  {
    if cap == 0 || Step(rules, t).None? then t else Normalize(rules, Step(rules, t).value, cap - 1)
  }

  // u is the k-th iterate of the step from t, every one of the k steps firing.
  ghost predicate Iterate(rules: seq<Rule>, t: Term, k: nat, u: Term)
    decreases k
  {
    if k == 0 then t == u else Step(rules, t).Some? && Iterate(rules, Step(rules, t).value, k - 1, u)
  }

  lemma {:induction false} NormalizeIterates(rules: seq<Rule>, t: Term, cap: nat) returns (k: nat)
    ensures k <= cap && Iterate(rules, t, k, Normalize(rules, t, cap))
    ensures k == cap || Step(rules, Normalize(rules, t, cap)).None?
    ensures k == 0 <==> cap == 0 || Step(rules, t).None?
    decreases cap
  {
    if cap == 0 || Step(rules, t).None? {
      k := 0;
    } else {
      k := NormalizeIterates(rules, Step(rules, t).value, cap - 1);
      k := k + 1;
    }
  }

  // A finished result is a fixed point, and a larger cap cannot change it.
  lemma {:induction false} NormalizeStable(rules: seq<Rule>, t: Term, cap: nat, more: nat)
    requires Step(rules, Normalize(rules, t, cap)).None?
    ensures Normalize(rules, Normalize(rules, t, cap), more) == Normalize(rules, t, cap)
    ensures Normalize(rules, t, cap + more) == Normalize(rules, t, cap)
    decreases cap
  {
    if cap != 0 && Step(rules, t).Some? {
      NormalizeStable(rules, Step(rules, t).value, cap - 1, more);
    }
  }

  lemma {:induction false} NormalizeWF(kb: Kbo, rules: seq<Rule>, t: Term, cap: nat)
    requires WFRules(kb, rules) && WF(kb, t)
    ensures WF(kb, Normalize(rules, t, cap))
    decreases cap
  {
    if cap != 0 && Step(rules, t).Some? {
      StepWF(kb, rules, t);
      NormalizeWF(kb, rules, Step(rules, t).value, cap - 1);
    }
  }

  // ---- the heap-term version of the same loop ----

  // Nodes with more children than this are neither entered nor rebuilt
  // (REWRITE_MAX_ARITY).
  const MAX_ARITY: nat := 16

  // thvm_subst_apply.
  function HeapApply(t: Term, s: Subst): Term {
    match t
    case Var(id) => if id in s then s[id] else t
    case App(l, args) => if Len(args) > MAX_ARITY then t else App(l, HeapApplyL(args, s))
  }

  function HeapApplyL(ts: TermList, s: Subst): TermList {
    match ts
    case Nil => Nil
    case Cons(h, tail) => Cons(HeapApply(h, s), HeapApplyL(tail, s))
  }

  // rewrite_try_top.
  function HeapTryTop(rules: seq<Rule>, t: Term): Option<Term> {
    if rules == [] then None
    else
      var m := Match(rules[0].lhs, t, map[]);
      if m.Some? then Some(HeapApply(rules[0].rhs, m.value)) else HeapTryTop(rules[1..], t)
  }

  // thvm_rewrite_step: a child whose rewrite comes back unchanged is passed
  // over in favour of the next one.
  function HeapStep(rules: seq<Rule>, t: Term): Term
    decreases t
  {
    var top := HeapTryTop(rules, t);
    if top.Some? then top.value
    else if t.Var? || Len(t.args) > MAX_ARITY then t
    else App(t.lab, HeapStepL(rules, t.args))
  }

  function HeapStepL(rules: seq<Rule>, ts: TermList): TermList
    decreases ts
  {
    match ts
    case Nil => Nil
    case Cons(h, tail) =>
      var h' := HeapStep(rules, h);
      if h' != h then Cons(h', tail) else Cons(h, HeapStepL(rules, tail))
  }

  // thvm_rewrite_normalize: stop at the cap or when a step changes nothing.
  function HeapNormalize(rules: seq<Rule>, t: Term, cap: nat): Term
    decreases cap
  {
    if cap == 0 || HeapStep(rules, t) == t then t else HeapNormalize(rules, HeapStep(rules, t), cap - 1)
  }

  // No node has more children than the heap-term code handles.
  ghost predicate Narrow(t: Term) {
    t.App? ==> Len(t.args) <= MAX_ARITY && NarrowL(t.args)
  }

  ghost predicate NarrowL(ts: TermList) {
    ts.Cons? ==> Narrow(ts.head) && NarrowL(ts.tail)
  }

  ghost predicate NarrowRules(rules: seq<Rule>) {
    forall i :: 0 <= i < |rules| ==> Narrow(rules[i].rhs)
  }

  lemma {:induction false} HeapApplyNarrow(ts: TermList, s: Subst)
    requires NarrowL(ts)
    ensures HeapApplyL(ts, s) == ApplyL(ts, s)
  {
    if ts.Cons? {
      if ts.head.App? { HeapApplyNarrow(ts.head.args, s); }
      HeapApplyNarrow(ts.tail, s);
    }
  }

  lemma {:induction false} HeapTryTopNarrow(rules: seq<Rule>, t: Term)
    requires NarrowRules(rules)
    ensures HeapTryTop(rules, t) == TryTop(rules, t)
  {
    if rules != [] {
      var m := Match(rules[0].lhs, t, map[]);
      if m.Some? {
        HeapApplyNarrow(Cons(rules[0].rhs, Nil), m.value);
        assert HeapApplyL(Cons(rules[0].rhs, Nil), m.value).head == HeapApply(rules[0].rhs, m.value);
      } else {
        HeapTryTopNarrow(rules[1..], t);
      }
    }
  }

  // The heap-term rewriter picks the same rule.
  lemma HeapTryTopIff(kb: Kbo, rules: seq<Rule>, t: Term, u: Term)
    requires WFRules(kb, rules) && NarrowRules(rules)
    ensures HeapTryTop(rules, t) == Some(u) <==> exists i :: FirstRule(rules, t, u, i)
  {
    HeapTryTopNarrow(rules, t);
    TryTopIff(kb, rules, t, u);
  }

  // ---- where the two steps agree ----

  // The step's result, or the term itself when nothing fires.
  function Stepped(rules: seq<Rule>, t: Term): Term {
    if Step(rules, t).Some? then Step(rules, t).value else t
  }

  function SteppedL(rules: seq<Rule>, ts: TermList): TermList {
    if StepL(rules, ts).Some? then StepL(rules, ts).value else ts
  }

  // A position at which a rule fires, before and after.
  datatype Redex = Redex(before: Term, after: Term)

  predicate Changes(r: Redex) {
    r.before != r.after
  }

  // The redexes not below another one, left to right.
  function Outermost(rules: seq<Rule>, t: Term): seq<Redex>
    decreases t
  {
    var top := TryTop(rules, t);
    if top.Some? then [Redex(t, top.value)] else if t.Var? then [] else OutermostL(rules, t.args)
  }

  function OutermostL(rules: seq<Rule>, ts: TermList): seq<Redex>
    decreases ts
  {
    if ts.Nil? then [] else Outermost(rules, ts.head) + OutermostL(rules, ts.tail)
  }

  // The first outermost redex changes something, or none does.
  predicate FirstDecides(rs: seq<Redex>) {
    rs == [] || Changes(rs[0]) || forall r :: r in rs ==> !Changes(r)
  }

  lemma ConcatRedexes(rs: seq<Redex>, rs': seq<Redex>)
    ensures rs == [] ==> rs + rs' == rs'
    ensures rs != [] ==> (rs + rs')[0] == rs[0]
    ensures forall r :: r in rs + rs' <==> r in rs || r in rs'
  {
  }

  // Both steps read off the outermost redexes: the one takes the first, the
  // other the first that changes something.
  lemma {:induction false} StepsByRedexes(rules: seq<Rule>, ts: TermList)
    requires NarrowRules(rules) && NarrowL(ts)
    ensures StepL(rules, ts).Some? <==> OutermostL(rules, ts) != []
    ensures SteppedL(rules, ts) != ts <==> OutermostL(rules, ts) != [] && Changes(OutermostL(rules, ts)[0])
    ensures HeapStepL(rules, ts) == ts <==> forall r :: r in OutermostL(rules, ts) ==> !Changes(r)
    ensures HeapStepL(rules, ts) == SteppedL(rules, ts) <==> FirstDecides(OutermostL(rules, ts))
  {
    if ts.Cons? {
      var h := ts.head;
      HeapTryTopNarrow(rules, h);
      if h.App? { StepsByRedexes(rules, h.args); }
      StepsByRedexes(rules, ts.tail);
      ConcatRedexes(Outermost(rules, h), OutermostL(rules, ts.tail));
    }
  }

  // The terms to the left of the hole, in order.
  function LeftOf(c: Context): TermList {
    match c
    case Hole => Nil
    case In(_, before, inner, _) => Append(before, LeftOf(inner))
  }

  // No rule fires at a node above the hole.
  ghost predicate QuietAbove(rules: seq<Rule>, c: Context, u: Term) {
    c.In? ==> TryTop(rules, Plug(c, u)).None? && QuietAbove(rules, c.inner, u)
  }

  lemma {:induction false} OutermostAppend(rules: seq<Rule>, ss: TermList, ts: TermList)
    ensures OutermostL(rules, Append(ss, ts)) == OutermostL(rules, ss) + OutermostL(rules, ts)
  {
    if ss.Cons? { OutermostAppend(rules, ss.tail, ts); }
  }

  // Which position the step takes: nothing fires above it, and no outermost
  // redex lies to its left.
  lemma {:induction false} StepTakesFirst(rules: seq<Rule>, t: Term) returns (c: Context, u: Term, v: Term)
    requires Step(rules, t).Some?
    ensures t == Plug(c, u) && TryTop(rules, u) == Some(v) && Step(rules, t) == Some(Plug(c, v))
    ensures QuietAbove(rules, c, u) && OutermostL(rules, LeftOf(c)) == []
    decreases t
  {
    if TryTop(rules, t).Some? {
      c, u, v := Hole, t, TryTop(rules, t).value;
    } else {
      var before, h, after := FirstStepping(rules, t.args);
      c, u, v := StepTakesFirst(rules, h);
      OutermostAppend(rules, before, LeftOf(c));
      c := In(t.lab, before, c, after);
    }
  }

  lemma {:induction false} NothingOutermost(rules: seq<Rule>, ts: TermList)
    requires StepL(rules, ts).None?
    ensures OutermostL(rules, ts) == []
  {
    if ts.Cons? {
      if ts.head.App? { NothingOutermost(rules, ts.head.args); }
      NothingOutermost(rules, ts.tail);
    }
  }

  // Which position the heap-term step takes: that of the first outermost redex
  // that changes something.
  lemma {:induction false} HeapStepTakes(rules: seq<Rule>, t: Term) returns (c: Context, u: Term, v: Term)
    requires NarrowRules(rules) && Narrow(t) && HeapStep(rules, t) != t
    ensures t == Plug(c, u) && TryTop(rules, u) == Some(v) && u != v && HeapStep(rules, t) == Plug(c, v)
    ensures QuietAbove(rules, c, u) && forall r :: r in OutermostL(rules, LeftOf(c)) ==> !Changes(r)
    decreases t
  {
    HeapTryTopNarrow(rules, t);
    if TryTop(rules, t).Some? {
      c, u, v := Hole, t, TryTop(rules, t).value;
    } else {
      var before, h, after := FirstChanging(rules, t.args);
      c, u, v := HeapStepTakes(rules, h);
      OutermostAppend(rules, before, LeftOf(c));
      c := In(t.lab, before, c, after);
    }
  }

  lemma {:induction false} FirstChanging(rules: seq<Rule>, ts: TermList) returns (before: TermList, h: Term, after: TermList)
    requires NarrowRules(rules) && NarrowL(ts) && HeapStepL(rules, ts) != ts
    ensures ts == Append(before, Cons(h, after)) && h < ts && Narrow(h) && HeapStep(rules, h) != h
    ensures HeapStepL(rules, ts) == Append(before, Cons(HeapStep(rules, h), after))
    ensures forall r :: r in OutermostL(rules, before) ==> !Changes(r)
  {
    if HeapStep(rules, ts.head) != ts.head {
      before, h, after := Nil, ts.head, ts.tail;
    } else {
      before, h, after := FirstChanging(rules, ts.tail);
      StepsByRedexes(rules, Cons(ts.head, Nil));
      assert OutermostL(rules, Cons(ts.head, Nil)) == Outermost(rules, ts.head);
      before := Cons(ts.head, before);
    }
  }

  // The two steps agree on a term exactly when its first outermost redex
  // changes something or none of them does.
  lemma HeapStepAgrees(rules: seq<Rule>, t: Term)
    requires NarrowRules(rules) && Narrow(t)
    ensures HeapStep(rules, t) == Stepped(rules, t) <==> FirstDecides(Outermost(rules, t))
    ensures Step(rules, t) == Some(t) <==> Outermost(rules, t) != [] && !Changes(Outermost(rules, t)[0])
  {
    HeapTryTopNarrow(rules, t);
    if t.App? { StepsByRedexes(rules, t.args); }
  }

  // The two steps agree on every term over the signature.
  ghost predicate AgreeEverywhere(kb: Kbo, rules: seq<Rule>) {
    forall t :: WF(kb, t) && Narrow(t) ==> HeapStep(rules, t) == Stepped(rules, t)
  }

  // Some rule fires on every term.
  predicate CatchAll(rules: seq<Rule>) {
    exists i :: 0 <= i < |rules| && rules[i].lhs.Var? && rules[i].lhs.id < MAX_VARS
  }

  // u is rewritten to itself, or to something else, at its root.
  ghost predicate Kept(kb: Kbo, rules: seq<Rule>, u: Term) {
    WF(kb, u) && Narrow(u) && TryTop(rules, u) == Some(u)
  }

  ghost predicate Changed(kb: Kbo, rules: seq<Rule>, u: Term) {
    WF(kb, u) && Narrow(u) && TryTop(rules, u).Some? && TryTop(rules, u) != Some(u)
  }

  // A label with at least two children that no left side starts with.
  ghost predicate FreeLabel(kb: Kbo, rules: seq<Rule>, l: nat) {
    && l < |kb.arities| && 2 <= kb.arities[l] <= MAX_ARITY
    && forall i :: 0 <= i < |rules| ==> rules[i].lhs.Var? || rules[i].lhs.lab != l
  }

  lemma {:induction false} CatchAllFires(rules: seq<Rule>, t: Term, i: nat)
    requires i < |rules| && rules[i].lhs.Var? && rules[i].lhs.id < MAX_VARS
    ensures TryTop(rules, t).Some?
  {
    if i > 0 {
      assert rules[1..][i - 1] == rules[i];
      CatchAllFires(rules[1..], t, i - 1);
    }
  }

  lemma {:induction false} OutermostFire(kb: Kbo, rules: seq<Rule>, ts: TermList, r: Redex)
    requires WFL(kb, ts) && NarrowL(ts) && r in OutermostL(rules, ts)
    ensures WF(kb, r.before) && Narrow(r.before) && TryTop(rules, r.before) == Some(r.after)
  {
    var h := ts.head;
    ConcatRedexes(Outermost(rules, h), OutermostL(rules, ts.tail));
    if r in OutermostL(rules, ts.tail) {
      OutermostFire(kb, rules, ts.tail, r);
    } else if TryTop(rules, h).None? {
      OutermostFire(kb, rules, h.args, r);
    }
  }

  lemma {:induction false} FreeStuck(rules: seq<Rule>, l: nat, args: TermList)
    requires forall i :: 0 <= i < |rules| ==> if rules[i].lhs.Var? then rules[i].lhs.id >= MAX_VARS else rules[i].lhs.lab != l
    ensures TryTop(rules, App(l, args)).None?
  {
    if rules != [] { FreeStuck(rules[1..], l, args); }
  }

  // Over a signature with a free label, a rule set on which the two steps always
  // agree is one that fires on every term, or rewrites no term to itself at the
  // root, or only ever does that.
  lemma AgreeIff(kb: Kbo, rules: seq<Rule>, l: nat)
    requires NarrowRules(rules) && FreeLabel(kb, rules, l)
    ensures AgreeEverywhere(kb, rules) <==>
            CatchAll(rules) || (forall u :: !Kept(kb, rules, u)) || (forall u :: !Changed(kb, rules, u))
  {
    if CatchAll(rules) || (forall u :: !Kept(kb, rules, u)) || (forall u :: !Changed(kb, rules, u)) {
      forall t | WF(kb, t) && Narrow(t) ensures HeapStep(rules, t) == Stepped(rules, t) { AgreeAt(kb, rules, t); }
    } else {
      var u, v :| Kept(kb, rules, u) && Changed(kb, rules, v);
      var t := App(l, Cons(u, Repeat(v, kb.arities[l] - 1)));
      FreeStuck(rules, l, t.args);
      RepeatNarrow(kb, v, kb.arities[l] - 1);
      HeapTryTopNarrow(rules, t);
      HeapTryTopNarrow(rules, u);
      HeapTryTopNarrow(rules, v);
      assert StepL(rules, t.args) == Some(t.args);
      assert HeapStepL(rules, t.args).tail == HeapStepL(rules, t.args.tail);
      assert HeapStepL(rules, t.args.tail).head == TryTop(rules, v).value != v;
      assert Len(t.args) == 1 + Len(t.args.tail) && WF(kb, t) && Narrow(t);
    }
  }

  lemma {:induction false} RepeatNarrow(kb: Kbo, t: Term, n: nat)
    requires WF(kb, t) && Narrow(t)
    ensures WFL(kb, Repeat(t, n)) && NarrowL(Repeat(t, n)) && Len(Repeat(t, n)) == n
  {
    if n > 0 { RepeatNarrow(kb, t, n - 1); }
  }

  lemma PairNarrow(l: nat, s: Term, t: Term)
    ensures Len(Pair(l, s, t).args) == 2
    ensures Narrow(s) && Narrow(t) ==> Narrow(Pair(l, s, t))
  {
    assert Len(Cons(t, Nil)) == 1;
    assert Narrow(t) ==> NarrowL(Cons(t, Nil));
  }

  lemma AgreeAt(kb: Kbo, rules: seq<Rule>, t: Term)
    requires NarrowRules(rules) && WF(kb, t) && Narrow(t)
    requires CatchAll(rules) || (forall u :: !Kept(kb, rules, u)) || (forall u :: !Changed(kb, rules, u))
    ensures HeapStep(rules, t) == Stepped(rules, t)
  {
    HeapTryTopNarrow(rules, t);
    if CatchAll(rules) {
      var i :| 0 <= i < |rules| && rules[i].lhs.Var? && rules[i].lhs.id < MAX_VARS;
      CatchAllFires(rules, t, i);
    } else {
      assert OutermostL(rules, Cons(t, Nil)) == Outermost(rules, t);
      forall r | r in Outermost(rules, t)
        ensures Kept(kb, rules, r.before) || Changed(kb, rules, r.before)
        ensures Changes(r) <==> !Kept(kb, rules, r.before)
      {
        OutermostFire(kb, rules, Cons(t, Nil), r);
      }
      HeapStepAgrees(rules, t);
    }
  }

  // Without a free label the condition is not needed: when the commuting rule's
  // label is the only one, it fires at the root of every application, so the
  // steps agree although some pairs are kept and others changed.
  lemma OnlyLabelAgrees(kb: Kbo)
    requires kb.arities == [2]
    ensures AgreeEverywhere(kb, [Rule(Pair(0, Var(0), Var(1)), Pair(0, Var(1), Var(0)))])
    ensures var rules := [Rule(Pair(0, Var(0), Var(1)), Pair(0, Var(1), Var(0)))];
      !CatchAll(rules) && Kept(kb, rules, Pair(0, Var(0), Var(0))) && Changed(kb, rules, Pair(0, Var(0), Var(1)))
  {
    var rules := [Rule(Pair(0, Var(0), Var(1)), Pair(0, Var(1), Var(0)))];
    PairNarrow(0, Var(1), Var(0));
    PairNarrow(0, Var(0), Var(0));
    PairNarrow(0, Var(0), Var(1));
    CommuteTop(0, Var(0), Var(0));
    CommuteTop(0, Var(0), Var(1));
    PairWF(kb, 0, Var(0), Var(0));
    PairWF(kb, 0, Var(0), Var(1));
    forall t | WF(kb, t) && Narrow(t) ensures HeapStep(rules, t) == Stepped(rules, t) {
      HeapTryTopNarrow(rules, t);
      if t.App? {
        TwoArgs(t.args);
        CommuteTop(0, t.args.head, t.args.tail.head);
      } else {
        assert rules[1..] == [];
      }
    }
  }

  lemma TwoArgs(ts: TermList)
    requires Len(ts) == 2
    ensures ts.Cons? && ts.tail.Cons? && ts == Cons(ts.head, Cons(ts.tail.head, Nil))
  {
    assert Len(ts.tail) == 1 && Len(ts.tail.tail) == 0;
  }

  // With a rule that can rewrite a term to itself they part: commuting label 2
  // on 3(2(a, a), 2(a, b)) fires on the first child here and on the second there.
  lemma HeapStepDiffers(a: Term, b: Term)
    requires a != b
    ensures var rules, t := [Rule(Pair(2, Var(0), Var(1)), Pair(2, Var(1), Var(0)))],
                            Pair(3, Pair(2, a, a), Pair(2, a, b));
      && Step(rules, t) == Some(t)
      && HeapStep(rules, t) == Pair(3, Pair(2, a, a), Pair(2, b, a)) != t
  {
    var rules := [Rule(Pair(2, Var(0), Var(1)), Pair(2, Var(1), Var(0)))];
    var aa, ab, ba := Pair(2, a, a), Pair(2, a, b), Pair(2, b, a);
    CommuteTop(2, a, a);
    CommuteTop(2, a, b);
    var t := Pair(3, aa, ab);
    PairNarrow(3, aa, ab);
    assert NarrowRules(rules) by { PairNarrow(2, Var(1), Var(0)); }
    HeapTryTopNarrow(rules, t);
    HeapTryTopNarrow(rules, aa);
    HeapTryTopNarrow(rules, ab);
    assert TryTop(rules[1..], t) == None;
    assert StepL(rules, t.args) == Some(t.args);
    assert HeapStepL(rules, Cons(ab, Nil)) == Cons(ba, Nil);
    assert HeapStepL(rules, t.args) == Cons(aa, Cons(ba, Nil));
  }

  lemma CommuteTop(l: nat, s: Term, t: Term)
    ensures TryTop([Rule(Pair(l, Var(0), Var(1)), Pair(l, Var(1), Var(0)))], Pair(l, s, t)) == Some(Pair(l, t, s))
  {
    var p, u := Pair(l, Var(0), Var(1)), Pair(l, s, t);
    var m0: Subst := map[];
    var m1 := m0[0 := s];
    var m2 := m1[1 := t];
    assert Match(Var(1), t, m1) == Some(m2);
    assert MatchL(Nil, Nil, m2) == Some(m2);
    assert MatchL(p.args.tail, u.args.tail, m1) == Some(m2);
    assert MatchL(p.args, u.args, m0) == Some(m2);
    assert Match(p, u, m0) == Some(m2);
    assert ApplyL(Cons(Var(0), Nil), m2) == Cons(s, Nil);
    assert ApplyL(Cons(Var(1), Cons(Var(0), Nil)), m2) == Cons(t, Cons(s, Nil));
    assert Apply(Pair(l, Var(1), Var(0)), m2) == Pair(l, t, s);
  }
}
