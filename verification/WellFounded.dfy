// Which tables make every oriented rule set stop: the ordering is well-founded
// even with a weightless unary label, as long as that label is the greatest.
module WellFounded {
  import opened FirstOrder
  import opened KnuthBendix
  import opened Rewriting
  import opened Termination

  // A unary label of weight zero stands above all others.
  ghost predicate WeightlessOnTop(kb: Kbo) {
    forall l, m :: 0 <= l < |kb.arities| && 0 <= m < |kb.arities| && l != m && Weightless(kb, l) ==>
      kb.LabelPrecedence(m) < kb.LabelPrecedence(l)
  }

  ghost predicate Weightless(kb: Kbo, l: nat) {
    l < |kb.arities| && kb.arities[l] == 1 && kb.LabelWeight(l) == 0
  }

  // Weightless constants and weightless branching labels do not occur together.
  ghost predicate WeightlessLeafOrBranch(kb: Kbo) {
    (forall c :: 0 <= c < |kb.arities| && kb.arities[c] == 0 ==> kb.LabelWeight(c) > 0) ||
    (forall g :: 0 <= g < |kb.arities| && kb.arities[g] >= 2 ==> kb.LabelWeight(g) > 0)
  }

  ghost predicate Sound(kb: Kbo) {
    kb.Grounded() && WeightlessOnTop(kb) && WeightlessLeafOrBranch(kb)
  }

  // ---- a mass that bounds the branching ----

  // The weight, with one more for each variable if branching labels may be
  // weightless.
  ghost function Massive(kb: Kbo): Kbo {
    if forall g :: 0 <= g < |kb.arities| && kb.arities[g] >= 2 ==> kb.LabelWeight(g) > 0 then kb
    else kb.(varWeight := kb.varWeight + 1)
  }

  ghost function Mass(kb: Kbo, t: Term): nat {
    Weight(Massive(kb), t)
  }

  ghost function Extra(kb: Kbo): seq<nat> {
    seq(MAX_VARS, _ => Massive(kb).varWeight - kb.varWeight)
  }

  lemma {:induction false} MassIsWeight(kb: Kbo, ts: TermList)
    requires WFL(kb, ts)
    ensures WeightL(Massive(kb), ts) == WeightL(kb, ts) + Dot(ts, Extra(kb))
  {
    match ts
    case Nil =>
    case Cons(h, tail) =>
      if h.App? { MassIsWeight(kb, h.args); }
      MassIsWeight(kb, tail);
  }

  // Going down never gains mass, and without losing mass it is by precedence or
  // lexicographically.
  lemma MassDescends(kb: Kbo, s: Term, t: Term)
    requires WF(kb, s) && WF(kb, t) && Greater(kb, s, t)
    ensures Mass(kb, t) <= Mass(kb, s)
    ensures Mass(kb, t) == Mass(kb, s) ==> Weight(kb, t) == Weight(kb, s)
  {
    MassIsWeight(kb, Cons(s, Nil));
    MassIsWeight(kb, Cons(t, Nil));
    Single(kb, s);
    Single(kb, t);
    Single(Massive(kb), s);
    Single(Massive(kb), t);
    DotMonotone(s, t, Extra(kb));
  }

  // No infinite descent from t.
  least predicate Acc(kb: Kbo, t: Term) {
    forall u :: WF(kb, u) && Greater(kb, t, u) ==> Acc(kb, u)
  }

  // No infinite lexicographic descent from ts through lists of such terms.
  least predicate LexAcc(kb: Kbo, ts: TermList) {
    forall us :: Below(kb, ts, us) ==> LexAcc(kb, us)
  }

  ghost predicate Below(kb: Kbo, ts: TermList, us: TermList) {
    WFL(kb, us) && Len(us) == Len(ts) && AllAcc(kb, us) && LexGreater(kb, ts, us)
  }

  ghost predicate AllAcc(kb: Kbo, ts: TermList) {
    ts.Cons? ==> Acc(kb, ts.head) && AllAcc(kb, ts.tail)
  }

  lemma {:induction false} LexAccCons(kb: Kbo, h: Term, tail: TermList, i: ORDINAL, j: ORDINAL)
    requires Acc#[i](kb, h) && LexAcc#[j](kb, tail)
    ensures LexAcc(kb, Cons(h, tail))
    decreases Len(tail) + 1, i, j
  {
    if i.IsLimit {
      var i' :| i' < i && Acc#[i'](kb, h);
      LexAccCons(kb, h, tail, i', j);
    } else if j.IsLimit {
      var j' :| j' < j && LexAcc#[j'](kb, tail);
      LexAccCons(kb, h, tail, i, j');
    } else {
      forall us | Below(kb, Cons(h, tail), us) ensures LexAcc(kb, us) {
        if us.head == h {
          assert Below(kb, tail, us.tail);
          LexAccCons(kb, h, us.tail, i, j - 1);
        } else {
          assert Acc#[i - 1](kb, us.head);
          AllAccLex(kb, us.tail);
          var j' :| LexAcc#[j'](kb, us.tail);
          LexAccCons(kb, us.head, us.tail, i - 1, j');
        }
      }
    }
  }

  lemma {:induction false} AllAccLex(kb: Kbo, ts: TermList)
    requires AllAcc(kb, ts)
    ensures LexAcc(kb, ts)
    decreases Len(ts)
  {
    if ts.Cons? {
      AllAccLex(kb, ts.tail);
      var i :| Acc#[i](kb, ts.head);
      var j :| LexAcc#[j](kb, ts.tail);
      LexAccCons(kb, ts.head, ts.tail, i, j);
    }
  }

  ghost predicate AllLighter(kb: Kbo, ts: TermList, w: nat) {
    ts.Cons? ==> Mass(kb, ts.head) < w && AllLighter(kb, ts.tail, w)
  }

  // With mass in every leaf, all of several terms are lighter than their sum.
  lemma {:induction false} LeavesMatter(kb: Kbo, ts: TermList)
    requires Sound(kb) && WFL(kb, ts) && Massive(kb) != kb
    ensures ts.Cons? ==> Mass(kb, ts.head) >= 1 && WeightL(Massive(kb), ts) >= 1
  {
    match ts
    case Nil =>
    case Cons(h, tail) =>
      if h.App? {
        LeavesMatter(kb, h.args);
        assert h.args.Nil? ==> Len(h.args) == 0 && kb.LabelWeight(h.lab) > 0;
      }
      LeavesMatter(kb, tail);
  }

  lemma {:induction false} PartsLighter(kb: Kbo, ts: TermList, w: nat)
    requires Sound(kb) && WFL(kb, ts) && WeightL(Massive(kb), ts) <= w
    requires WeightL(Massive(kb), ts) < w || (Massive(kb) != kb && (ts.Cons? ==> ts.tail.Cons?))
    ensures AllLighter(kb, ts, w)
  {
    if ts.Cons? {
      if Massive(kb) != kb {
        LeavesMatter(kb, ts);
        LeavesMatter(kb, ts.tail);
      }
      PartsLighter(kb, ts.tail, w);
    }
  }

  // The arguments of a label that is not weightless and unary are lighter than
  // the whole.
  lemma ArgsLighter(kb: Kbo, l: nat, ts: TermList)
    requires Sound(kb) && WF(kb, App(l, ts)) && !Weightless(kb, l)
    ensures AllLighter(kb, ts, Mass(kb, App(l, ts)))
  {
    if ts.Cons? {
      assert Len(ts) == 1 + Len(ts.tail);
      assert ts.tail.Nil? ==> Len(ts.tail) == 0;
      assert ts.tail.Cons? ==> Len(ts) >= 2;
      PartsLighter(kb, ts, Mass(kb, App(l, ts)));
    }
  }

  // By induction on the mass: first the terms under an ordinary label, by
  // precedence and then lexicographically, then those under the weightless one.
  lemma {:induction false} AccAll(kb: Kbo, t: Term)
    requires Sound(kb) && WF(kb, t)
    ensures Acc(kb, t)
    decreases Mass(kb, t), 3, Size(t), 0, 0 as ORDINAL
  {
    if t.Var? {
      forall u | WF(kb, u) && Greater(kb, t, u) ensures Acc(kb, u) {
        MassDescends(kb, t, u);
        AccAll(kb, u);
      }
    } else if Weightless(kb, t.lab) {
      var arg := t.args.head;
      assert t.args.tail.Nil? by { assert Len(t.args) == 1 + Len(t.args.tail); }
      assert t.args == Cons(arg, Nil);
      Single(Massive(kb), arg);
      AccAll(kb, arg);
      var k :| Acc#[k](kb, arg);
      WeightlessAcc(kb, t.lab, arg, k);
    } else {
      LabelAcc(kb, t.lab, t.args);
    }
  }

  lemma {:induction false} ArgsAcc(kb: Kbo, ts: TermList, w: nat)
    requires Sound(kb) && WFL(kb, ts) && AllLighter(kb, ts, w)
    ensures AllAcc(kb, ts)
    decreases w, 0, 0, Len(ts), 0 as ORDINAL
  {
    if ts.Cons? {
      AccAll(kb, ts.head);
      ArgsAcc(kb, ts.tail, w);
    }
  }

  lemma {:induction false} LabelAcc(kb: Kbo, l: nat, ts: TermList)
    requires Sound(kb) && WF(kb, App(l, ts)) && !Weightless(kb, l)
    ensures Acc(kb, App(l, ts))
    decreases Mass(kb, App(l, ts)), 1, kb.LabelPrecedence(l), 1, 0 as ORDINAL
  {
    ArgsLighter(kb, l, ts);
    ArgsAcc(kb, ts, Mass(kb, App(l, ts)));
    AllAccLex(kb, ts);
    var k :| LexAcc#[k](kb, ts);
    LexLabelAcc(kb, l, ts, k);
  }

  lemma {:induction false} LexLabelAcc(kb: Kbo, l: nat, ts: TermList, k: ORDINAL)
    requires Sound(kb) && WF(kb, App(l, ts)) && !Weightless(kb, l) && LexAcc#[k](kb, ts)
    ensures Acc(kb, App(l, ts))
    decreases Mass(kb, App(l, ts)), 1, kb.LabelPrecedence(l), 0, k
  {
    if k.IsLimit {
      var k' :| k' < k && LexAcc#[k'](kb, ts);
      LexLabelAcc(kb, l, ts, k');
    } else {
      var t := App(l, ts);
      forall u | WF(kb, u) && Greater(kb, t, u) ensures Acc(kb, u) {
        MassDescends(kb, t, u);
        if Mass(kb, u) < Mass(kb, t) {
          AccAll(kb, u);
        } else if kb.LabelPrecedence(u.lab) < kb.LabelPrecedence(l) {
          LabelAcc(kb, u.lab, u.args);
        } else {
          ArgsLighter(kb, l, u.args);
          ArgsAcc(kb, u.args, Mass(kb, t));
          assert Below(kb, ts, u.args);
          LexLabelAcc(kb, l, u.args, k - 1);
        }
      }
    }
  }

  lemma {:induction false} WeightlessAcc(kb: Kbo, l: nat, arg: Term, k: ORDINAL)
    requires Sound(kb) && Weightless(kb, l) && WF(kb, arg) && Acc#[k](kb, arg)
    ensures Acc(kb, App(l, Cons(arg, Nil)))
    decreases Mass(kb, arg), 2, 0, 0, k
  {
    if k.IsLimit {
      var k' :| k' < k && Acc#[k'](kb, arg);
      WeightlessAcc(kb, l, arg, k');
    } else {
      var t := App(l, Cons(arg, Nil));
      Single(Massive(kb), arg);
      forall u | WF(kb, u) && Greater(kb, t, u) ensures Acc(kb, u) {
        MassDescends(kb, t, u);
        if Mass(kb, u) < Mass(kb, t) {
          AccAll(kb, u);
        } else if u.lab != l {
          LabelAcc(kb, u.lab, u.args);
        } else {
          var arg' := u.args.head;
          assert u.args.tail.Nil? by { assert Len(u.args) == 1 + Len(u.args.tail); }
          assert u.args == Cons(arg', Nil);
          Single(kb, arg');
          Single(Massive(kb), arg');
          assert LexGreater(kb, t.args, u.args) && !LexGreater(kb, Nil, Nil);
          assert LexGreater(kb, Cons(arg, Nil), Cons(arg', Nil));
          assert Greater(kb, arg, arg');
          WeightlessAcc(kb, l, arg', k - 1);
        }
      }
    }
  }

  // ---- stopping ----

  ghost predicate Stops(rules: seq<Rule>, t: Term) {
    exists cap: nat :: Step(rules, Normalize(rules, t, cap)).None?
  }

  lemma {:induction false} AccStops(kb: Kbo, rules: seq<Rule>, t: Term, k: ORDINAL)
    requires kb.Grounded() && Oriented(kb, rules) && WF(kb, t) && Acc#[k](kb, t)
    ensures Stops(rules, t)
    decreases k
  {
    if k.IsLimit {
      var k' :| k' < k && Acc#[k'](kb, t);
      AccStops(kb, rules, t, k');
    } else if Step(rules, t).None? {
      assert Step(rules, Normalize(rules, t, 0)).None?;
    } else {
      StepDecreases(kb, rules, t);
      var u := Step(rules, t).value;
      assert Acc#[k - 1](kb, u);
      AccStops(kb, rules, u, k - 1);
      var cap: nat :| Step(rules, Normalize(rules, u, cap)).None?;
      assert Normalize(rules, t, cap + 1) == Normalize(rules, u, cap);
    }
  }

  ghost predicate AlwaysStops(kb: Kbo) {
    forall rules, t :: Oriented(kb, rules) && WF(kb, t) ==> Stops(rules, t)
  }

  // A constant lighter than a variable: x -> c is oriented and keeps firing on c.
  lemma {:induction false} LightConstantLoops(kb: Kbo, c: nat, cap: nat)
    requires kb.Valid() && c < |kb.arities| && kb.arities[c] == 0 && kb.weights[c] < kb.varWeight
    ensures var rules, t := [Rule(Var(0), App(c, Nil))], App(c, Nil);
      Oriented(kb, rules) && WF(kb, t) && Step(rules, Normalize(rules, t, cap)).Some?
    decreases cap
  {
    var t := App(c, Nil);
    assert t.args == Nil && Weight(kb, t) == kb.weights[c];
    forall v: nat ensures Count(t, v) == 0 { assert CountL(t.args, v) == 0; }
    assert Greater(kb, Var(0), t);
    var rules := [Rule(Var(0), t)];
    var m: Subst := map[0 := t];
    assert Match(Var(0), t, map[]) == Some(m) && ApplyL(t.args, m) == Nil;
    assert TryTop(rules, t) == Some(Apply(t, m)) == Some(t);
    assert Step(rules, t) == Some(t);
    if cap > 0 { LightConstantLoops(kb, c, cap - 1); }
  }

  // A weightless constant c and a weightless label g with at least two children,
  // c the greater: c -> g(c, .., c) is oriented and never stops.
  lemma {:induction false} LeafLoops(kb: Kbo, c: nat, g: nat, k: nat, cap: nat)
    requires LeafAndBranch(kb, c, g) && kb.LabelPrecedence(c) > kb.LabelPrecedence(g)
    ensures var rules := [Rule(App(c, Nil), Bush(kb, c, g))];
      Oriented(kb, rules) && WF(kb, LeftTower(kb, c, g, k)) && Step(rules, Normalize(rules, LeftTower(kb, c, g, k), cap)).Some?
    decreases cap
  {
    BushMeasures(kb, c, g);
    assert Greater(kb, App(c, Nil), Bush(kb, c, g));
    LeftTowerStep(kb, c, g, k);
    if cap > 0 { LeafLoops(kb, c, g, k + 1, cap - 1); }
  }

  // And g the greater: the weight of g(c, .., c) is that of c, so
  // G = g(g(c, .., c), c, .., c) -> g(c, G, c, .., c) is oriented.
  lemma {:induction false} BranchLoops(kb: Kbo, c: nat, g: nat, k: nat, cap: nat)
    requires LeafAndBranch(kb, c, g) && kb.LabelPrecedence(g) > kb.LabelPrecedence(c)
    ensures var rules := [Rule(Double(kb, c, g), Second(kb, c, g, Double(kb, c, g)))];
      Oriented(kb, rules) && WF(kb, RightTower(kb, c, g, k)) && Step(rules, Normalize(rules, RightTower(kb, c, g, k), cap)).Some?
    decreases cap
  {
    BranchOriented(kb, c, g);
    RightTowerStep(kb, c, g, k);
    if cap > 0 { BranchLoops(kb, c, g, k + 1, cap - 1); }
  }

  ghost predicate LeafAndBranch(kb: Kbo, c: nat, g: nat) {
    && kb.Valid() && c < |kb.arities| && g < |kb.arities|
    && kb.arities[c] == 0 && kb.arities[g] >= 2 && kb.LabelWeight(c) == 0 && kb.LabelWeight(g) == 0
  }

  // g(c, .., c).
  function Bush(kb: Kbo, c: nat, g: nat): Term
    requires g < |kb.arities|
  {
    App(g, Repeat(App(c, Nil), kb.arities[g]))
  }

  // g(t, c, .., c) and g(c, t, c, .., c).
  function First(kb: Kbo, c: nat, g: nat, t: Term): Term
    requires g < |kb.arities| && kb.arities[g] >= 2
  {
    App(g, Cons(t, Repeat(App(c, Nil), kb.arities[g] - 1)))
  }

  function Second(kb: Kbo, c: nat, g: nat, t: Term): Term
    requires g < |kb.arities| && kb.arities[g] >= 2
  {
    App(g, Cons(App(c, Nil), Cons(t, Repeat(App(c, Nil), kb.arities[g] - 2))))
  }

  function Double(kb: Kbo, c: nat, g: nat): Term
    requires g < |kb.arities| && kb.arities[g] >= 2
  {
    First(kb, c, g, Bush(kb, c, g))
  }

  function LeftTower(kb: Kbo, c: nat, g: nat, k: nat): Term
    requires g < |kb.arities| && kb.arities[g] >= 2
  {
    if k == 0 then App(c, Nil) else First(kb, c, g, LeftTower(kb, c, g, k - 1))
  }

  function RightTower(kb: Kbo, c: nat, g: nat, k: nat): Term
    requires g < |kb.arities| && kb.arities[g] >= 2
  {
    if k == 0 then Double(kb, c, g) else Second(kb, c, g, RightTower(kb, c, g, k - 1))
  }

  // Ground, weightless and well-formed.
  ghost predicate Void(kb: Kbo, ts: TermList) {
    WFL(kb, ts) && WeightL(kb, ts) == 0 && forall v: nat :: CountL(ts, v) == 0
  }

  lemma {:induction false} RepeatVoid(kb: Kbo, c: nat, g: nat, n: nat)
    requires LeafAndBranch(kb, c, g)
    ensures Void(kb, Repeat(App(c, Nil), n)) && Len(Repeat(App(c, Nil), n)) == n
  {
    if n > 0 {
      RepeatVoid(kb, c, g, n - 1);
      var leaf := App(c, Nil);
      assert leaf.args == Nil && WF(kb, leaf);
      VoidCons(kb, leaf, Repeat(leaf, n - 1));
    }
  }

  lemma VoidCons(kb: Kbo, t: Term, ts: TermList)
    requires Void(kb, ts) && WF(kb, t) && Weight(kb, t) == 0 && forall v: nat :: Count(t, v) == 0
    ensures Void(kb, Cons(t, ts)) && Len(Cons(t, ts)) == 1 + Len(ts)
  {
    forall v: nat ensures CountL(Cons(t, ts), v) == 0 { assert CountL(Cons(t, ts), v) == Count(t, v) + CountL(ts, v); }
  }

  lemma VoidApp(kb: Kbo, c: nat, g: nat, ts: TermList)
    requires LeafAndBranch(kb, c, g) && Void(kb, ts) && Len(ts) == kb.arities[g]
    ensures WF(kb, App(g, ts)) && Weight(kb, App(g, ts)) == 0 && Void(kb, Cons(App(g, ts), Nil))
    ensures forall v: nat :: Count(App(g, ts), v) == 0
  {
    assert forall v: nat :: Count(App(g, ts), v) == CountL(ts, v);
    Single(kb, App(g, ts));
  }

  lemma BushMeasures(kb: Kbo, c: nat, g: nat)
    requires LeafAndBranch(kb, c, g)
    ensures var leaf, bush := App(c, Nil), Bush(kb, c, g);
      && WF(kb, leaf) && Weight(kb, leaf) == 0 && (forall v: nat :: Count(leaf, v) == 0)
      && WF(kb, bush) && Weight(kb, bush) == 0 && (forall v: nat :: Count(bush, v) == 0)
      && bush == First(kb, c, g, leaf)
  {
    var leaf := App(c, Nil);
    RepeatVoid(kb, c, g, 1);
    RepeatVoid(kb, c, g, kb.arities[g]);
    VoidApp(kb, c, g, Repeat(leaf, kb.arities[g]));
    assert leaf.args == Nil && forall v: nat :: Count(leaf, v) == CountL(leaf.args, v);
  }

  lemma FirstVoid(kb: Kbo, c: nat, g: nat, t: Term)
    requires LeafAndBranch(kb, c, g) && WF(kb, t) && Weight(kb, t) == 0 && forall v: nat :: Count(t, v) == 0
    ensures var f, s := First(kb, c, g, t), Second(kb, c, g, t);
      && WF(kb, f) && Weight(kb, f) == 0 && (forall v: nat :: Count(f, v) == 0)
      && WF(kb, s) && Weight(kb, s) == 0 && (forall v: nat :: Count(s, v) == 0)
  {
    var leaf, n := App(c, Nil), kb.arities[g];
    BushMeasures(kb, c, g);
    RepeatVoid(kb, c, g, n - 1);
    RepeatVoid(kb, c, g, n - 2);
    VoidCons(kb, t, Repeat(leaf, n - 1));
    VoidApp(kb, c, g, Cons(t, Repeat(leaf, n - 1)));
    VoidCons(kb, t, Repeat(leaf, n - 2));
    VoidCons(kb, leaf, Cons(t, Repeat(leaf, n - 2)));
    VoidApp(kb, c, g, Cons(leaf, Cons(t, Repeat(leaf, n - 2))));
  }

  lemma BranchOriented(kb: Kbo, c: nat, g: nat)
    requires LeafAndBranch(kb, c, g) && kb.LabelPrecedence(g) > kb.LabelPrecedence(c)
    ensures Oriented(kb, [Rule(Double(kb, c, g), Second(kb, c, g, Double(kb, c, g)))])
  {
    var leaf, bush, lhs := App(c, Nil), Bush(kb, c, g), Double(kb, c, g);
    var rhs := Second(kb, c, g, lhs);
    BushMeasures(kb, c, g);
    FirstVoid(kb, c, g, bush);
    FirstVoid(kb, c, g, lhs);
    assert Greater(kb, bush, leaf);
    assert LexGreater(kb, lhs.args, rhs.args);
    assert Greater(kb, lhs, rhs);
  }

  // A rule between terms without variables fires on its left side only.
  lemma GroundRule(kb: Kbo, lhs: Term, rhs: Term, t: Term)
    requires WF(kb, lhs) && Ground(lhs) && Ground(rhs)
    ensures TryTop([Rule(lhs, rhs)], t) == if t == lhs then Some(rhs) else None
  {
    var rules := [Rule(lhs, rhs)];
    assert rules[1..] == [];
    var m := Match(lhs, t, map[]);
    if m.Some? {
      MatchIff(kb, lhs, t, m.value);
      GroundApply(Cons(lhs, Nil), m.value);
      GroundApply(Cons(rhs, Nil), m.value);
    }
    if t == lhs { SelfMatch(kb, lhs); }
  }

  lemma {:induction false} GroundApply(ts: TermList, s: Subst)
    requires ts.Cons? ==> Ground(ts.head)
    requires forall v: nat :: CountL(ts, v) == 0
    ensures ApplyL(ts, s) == ts && (ts.Cons? ==> Apply(ts.head, s) == ts.head)
  {
    if ts.Cons? {
      GroundTail(ts);
      if ts.head.App? {
        assert forall v: nat :: CountL(ts.head.args, v) == Count(ts.head, v);
        if ts.head.args.Cons? { GroundTail(ts.head.args); }
        GroundApply(ts.head.args, s);
      } else {
        assert Count(ts.head, ts.head.id) == 1;
      }
      if ts.tail.Cons? { GroundTail(ts.tail); }
      GroundApply(ts.tail, s);
    }
  }

  lemma {:induction false} LeftTowerStep(kb: Kbo, c: nat, g: nat, k: nat)
    requires LeafAndBranch(kb, c, g) && c != g
    ensures var t := LeftTower(kb, c, g, k);
      && WF(kb, t) && Weight(kb, t) == 0 && (forall v: nat :: Count(t, v) == 0)
      && Step([Rule(App(c, Nil), Bush(kb, c, g))], t) == Some(LeftTower(kb, c, g, k + 1))
  {
    var leaf, t := App(c, Nil), LeftTower(kb, c, g, k);
    var rules := [Rule(leaf, Bush(kb, c, g))];
    BushMeasures(kb, c, g);
    GroundRule(kb, leaf, Bush(kb, c, g), t);
    if k > 0 {
      LeftTowerStep(kb, c, g, k - 1);
      FirstVoid(kb, c, g, LeftTower(kb, c, g, k - 1));
      assert StepL(rules, t.args) == Some(Cons(LeftTower(kb, c, g, k), t.args.tail));
    } else {
      assert LeftTower(kb, c, g, 1) == First(kb, c, g, LeftTower(kb, c, g, 0));
    }
  }

  lemma {:induction false} RightTowerStep(kb: Kbo, c: nat, g: nat, k: nat)
    requires LeafAndBranch(kb, c, g) && c != g
    ensures var t, lhs := RightTower(kb, c, g, k), Double(kb, c, g);
      && WF(kb, t) && Weight(kb, t) == 0 && (forall v: nat :: Count(t, v) == 0)
      && Step([Rule(lhs, Second(kb, c, g, lhs))], t) == Some(RightTower(kb, c, g, k + 1))
  {
    var leaf, t, lhs := App(c, Nil), RightTower(kb, c, g, k), Double(kb, c, g);
    var rules := [Rule(lhs, Second(kb, c, g, lhs))];
    BushMeasures(kb, c, g);
    FirstVoid(kb, c, g, Bush(kb, c, g));
    FirstVoid(kb, c, g, lhs);
    GroundRule(kb, lhs, Second(kb, c, g, lhs), t);
    if k > 0 {
      RightTowerStep(kb, c, g, k - 1);
      FirstVoid(kb, c, g, RightTower(kb, c, g, k - 1));
      assert t.args.head == leaf != lhs.args.head;
      GroundRule(kb, lhs, Second(kb, c, g, lhs), leaf);
      assert leaf.args == Nil && Step(rules, leaf) == None;
      assert StepL(rules, t.args.tail) == Some(Cons(RightTower(kb, c, g, k), t.args.tail.tail));
      assert StepL(rules, t.args) == Some(Cons(leaf, Cons(RightTower(kb, c, g, k), t.args.tail.tail)));
    } else {
      assert RightTower(kb, c, g, 1) == Second(kb, c, g, RightTower(kb, c, g, 0));
    }
  }

  // Every oriented rule set stops on every term, after some number of steps,
  // exactly when no constant is lighter than a variable, a weightless unary
  // label, if there is one, is the greatest, and weightless constants do not
  // occur together with weightless branching labels.
  lemma AlwaysStopsIff(kb: Kbo)
    requires kb.Valid() && kb.TotalPrecedence()
    ensures AlwaysStops(kb) <==> Sound(kb)
  {
    if Sound(kb) {
      forall rules, t | Oriented(kb, rules) && WF(kb, t) ensures Stops(rules, t) {
        AccAll(kb, t);
        var k :| Acc#[k](kb, t);
        AccStops(kb, rules, t, k);
      }
    } else {
      Unsound(kb);
    }
  }

  lemma Unsound(kb: Kbo)
    requires kb.Valid() && kb.TotalPrecedence() && !Sound(kb)
    ensures !AlwaysStops(kb)
  {
    if !kb.Grounded() {
      var c :| 0 <= c < |kb.weights| && kb.arities[c] == 0 && kb.weights[c] < kb.varWeight;
      var rules, t := [Rule(Var(0), App(c, Nil))], App(c, Nil);
      LightConstantLoops(kb, c, 0);
      forall cap: nat ensures Step(rules, Normalize(rules, t, cap)).Some? { LightConstantLoops(kb, c, cap); }
      assert !Stops(rules, t);
    } else if !WeightlessOnTop(kb) {
      var l, m :| 0 <= l < |kb.arities| && 0 <= m < |kb.arities| && l != m && Weightless(kb, l)
                  && kb.LabelPrecedence(m) >= kb.LabelPrecedence(l);
      var body := App(m, Repeat(Var(0), kb.arities[m]));
      var rules := [Rule(body, App(l, Cons(body, Nil)))];
      assert Tower(l, body, 0) == body;
      WeightlessNeverStops(kb, l, m, 0, 0);
      forall cap: nat ensures Step(rules, Normalize(rules, body, cap)).Some? { WeightlessNeverStops(kb, l, m, 0, cap); }
      assert !Stops(rules, body);
    } else {
      var c :| 0 <= c < |kb.arities| && kb.arities[c] == 0 && kb.LabelWeight(c) == 0;
      var g :| 0 <= g < |kb.arities| && kb.arities[g] >= 2 && kb.LabelWeight(g) == 0;
      if kb.LabelPrecedence(c) > kb.LabelPrecedence(g) {
        var rules, t := [Rule(App(c, Nil), Bush(kb, c, g))], LeftTower(kb, c, g, 0);
        LeafLoops(kb, c, g, 0, 0);
        forall cap: nat ensures Step(rules, Normalize(rules, t, cap)).Some? { LeafLoops(kb, c, g, 0, cap); }
        assert !Stops(rules, t);
      } else {
        var rules, t := [Rule(Double(kb, c, g), Second(kb, c, g, Double(kb, c, g)))], RightTower(kb, c, g, 0);
        BranchLoops(kb, c, g, 0, 0);
        forall cap: nat ensures Step(rules, Normalize(rules, t, cap)).Some? { BranchLoops(kb, c, g, 0, cap); }
        assert !Stops(rules, t);
      }
    }
  }
}
