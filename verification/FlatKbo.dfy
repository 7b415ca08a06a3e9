// The ordering decided on flat arrays: equal subterms cancel by a skip, cached
// weights and one walk over the leaves give the balances of the rest.
module FlatKbo {
  import opened FirstOrder
  import opened FlatTerm
  import opened FlatMatch
  import opened KnuthBendix
  import opened Balance

  // ---- variable balance ----

  // The leaves of a run: its first node if that is a variable, then the rest.
  lemma PostUnfold(st: Ledger, ts: TermList, plus: bool)
    requires ts.Cons?
    ensures PostAll(st, LeafTrailL(ts, plus)) ==
            PostAll(if ts.head.Var? then Post(st, Bump(ts.head.id, plus)) else st, LeafTrailL(Unfold(ts), plus))
  {
    if ts.head.App? {
      LeafTrailAppend(ts.head.args, ts.tail, plus);
    } else {
      assert LeafTrailL(ts, plus) == [Bump(ts.head.id, plus)] + LeafTrailL(ts.tail, plus);
      assert LeafTrailL(ts, plus)[1..] == LeafTrailL(ts.tail, plus);
    }
  }

  // The C table has room for MAX_VARS entries of touched; the sequence here
  // grows as far as the walk asks.
  method Count1(id: nat, plus: bool, bal: array<int>, touched: seq<nat>) returns (touched': seq<nat>)
    requires bal.Length == MAX_VARS
    modifies bal
    ensures Ledger(bal[..], touched') == Post(old(Ledger(bal[..], touched)), Bump(id, plus))
  {
    touched' := touched;
    if id < MAX_VARS {
      if bal[id] == 0 { touched' := touched' + [id]; }
      bal[id] := bal[id] + Signed(plus, 1);
    }
  }

  // Adds one (or takes one away) for each variable leaf of the subtree t at p,
  // noting every variable whose balance leaves zero.
  method Tally(kb: Kbo, a: seq<FlatNode>, p: nat, plus: bool, bal: array<int>, touched: seq<nat>, ghost t: Term)
    returns (touched': seq<nat>)
    requires kb.Valid() && WF(kb, t) && p < |a| && Holds(kb, a, p, Cons(t, Nil))
    requires bal.Length == MAX_VARS && Touched(bal[..], touched)
    modifies bal
    ensures Ledger(bal[..], touched') == PostAll(old(Ledger(bal[..], touched)), LeafTrail(t, plus))
    ensures Touched(bal[..], touched')
    ensures forall v :: 0 <= v < MAX_VARS ==> bal[v] == old(bal[v]) + Signed(plus, Count(t, v))
  {
    touched' := touched;
    ghost var st, rest := Ledger(bal[..], touched), Cons(t, Nil);
    ghost var goal := PostAll(st, LeafTrail(t, plus));
    AtHead(kb, a, p, rest);
    assert LeafTrailL(rest, plus) == LeafTrail(t, plus);
    var n := a[p].size;
    var i, at: nat := 0, p;
    while i < n
      invariant 0 <= i <= n && i + SizeL(rest) == n && at == p + i
      invariant WFL(kb, rest) && Holds(kb, a, at, rest)
      invariant PostAll(Ledger(bal[..], touched'), LeafTrailL(rest, plus)) == goal
    {
      AtHead(kb, a, at, rest);
      PostUnfold(Ledger(bal[..], touched'), rest, plus);
      if IsVar(a[at].sym) {
        touched' := Count1(VarId(a[at].sym), plus, bal, touched');
      }
      rest := Unfold(rest);
      i, at := i + 1, at + 1;
    }
    assert rest == Nil;
    TallyBalances(st, t, plus);
  }

  lemma TallyBalances(st: Ledger, t: Term, plus: bool)
    requires Touched(st.bal, st.touched)
    ensures var st' := PostAll(st, LeafTrail(t, plus));
      && Touched(st'.bal, st'.touched)
      && forall v :: 0 <= v < MAX_VARS ==> st'.bal[v] == st.bal[v] + Signed(plus, Count(t, v))
  {
    TouchedKept(st, LeafTrail(t, plus));
    forall v | 0 <= v < MAX_VARS
      ensures PostAll(st, LeafTrail(t, plus)).bal[v] == st.bal[v] + Signed(plus, Count(t, v))
    {
      NetBalance(st, LeafTrail(t, plus), v);
      NetLeaves(Cons(t, Nil), plus, v);
    }
  }

  // ---- the difference of two terms (fc_diff) ----

  // Walks s and t together and adds w(s) - w(t) to the weight balance and
  // count(s, v) - count(t, v) to every variable's, looking only at the subtrees
  // where they part; same says whether they never do.
  method Diff(kb: Kbo, s: seq<FlatNode>, sp: nat, t: seq<FlatNode>, tp: nat, wb: int, bal: array<int>, touched: seq<nat>,
              ghost x: Term, ghost y: Term)
    returns (same: bool, wb': int, touched': seq<nat>)
    requires kb.Valid() && WF(kb, x) && WF(kb, y) && sp < |s| && tp < |t|
    requires Holds(kb, s, sp, Cons(x, Nil)) && Holds(kb, t, tp, Cons(y, Nil))
    requires bal.Length == MAX_VARS && Touched(bal[..], touched)
    modifies bal
    ensures same <==> x == y
    ensures wb' == wb + Weight(kb, x) - Weight(kb, y)
    ensures Ledger(bal[..], touched') == PostAll(old(Ledger(bal[..], touched)), Trail(x, y))
    ensures forall v :: 0 <= v < MAX_VARS ==> bal[v] == old(bal[v]) + Count(x, v) - Count(y, v)
    ensures Touched(bal[..], touched')
    ensures 2 * |touched'| <= 2 * |touched| + VarLeaves(x) + VarLeaves(y) + MAX_VARS
    decreases x
  {
    wb', touched' := wb, touched;
    ghost var st := Ledger(bal[..], touched);
    TrailBalances(kb, st, x, y);
    AtHead(kb, s, sp, Cons(x, Nil));
    AtHead(kb, t, tp, Cons(y, Nil));
    if s[sp].size == t[tp].size {
      same := SliceEq(kb, s, sp, t, tp, s[sp].size, x, y);
      if same { return; }
    }
    if s[sp].sym == t[tp].sym && !IsVar(s[sp].sym) {
      same, wb', touched' := DiffChildren(kb, s, sp, t, tp, wb, bal, touched, x, y);
      return;
    }
    VarPart(kb, x, y);
    wb' := wb' + s[sp].weight - t[tp].weight;
    PostAllConcat(st, LeafTrail(x, true), LeafTrail(y, false));
    touched' := Tally(kb, s, sp, true, bal, touched', x);
    touched' := Tally(kb, t, tp, false, bal, touched', y);
    same := false;
  }

  // Terms that part at the root contribute all their leaves.
  lemma VarPart(kb: Kbo, x: Term, y: Term)
    requires kb.Valid() && WF(kb, x) && WF(kb, y)
    ensures x != y && !(Node(kb, x).sym == Node(kb, y).sym && x.App?) ==> Trail(x, y) == LeafTrail(x, true) + LeafTrail(y, false)
  {
    RootSymbol(kb, x);
    RootSymbol(kb, y);
  }

  // What a walk over x and y leaves behind.
  lemma TrailBalances(kb: Kbo, st: Ledger, x: Term, y: Term)
    requires WF(kb, x) && WF(kb, y) && Touched(st.bal, st.touched)
    ensures var st' := PostAll(st, Trail(x, y));
      && Touched(st'.bal, st'.touched)
      && (forall v :: 0 <= v < MAX_VARS ==> st'.bal[v] == st.bal[v] + Count(x, v) - Count(y, v))
      && 2 * |st'.touched| <= 2 * |st.touched| + VarLeaves(x) + VarLeaves(y) + MAX_VARS
  {
    TouchedKept(st, Trail(x, y));
    NotedPotential(st, Trail(x, y));
    NonZeroBound(PostAll(st, Trail(x, y)).bal);
    TrailLength(Cons(x, Nil), Cons(y, Nil));
    forall v | 0 <= v < MAX_VARS ensures PostAll(st, Trail(x, y)).bal[v] == st.bal[v] + Count(x, v) - Count(y, v) {
      NetBalance(st, Trail(x, y), v);
      NetTrail(kb, Cons(x, Nil), Cons(y, Nil), v);
    }
  }

  // Runs of equally many terms, read side by side.
  ghost predicate Beside(kb: Kbo, s: seq<FlatNode>, i: nat, xs: TermList, t: seq<FlatNode>, j: nat, ys: TermList) {
    WFL(kb, xs) && WFL(kb, ys) && Len(xs) == Len(ys) && Holds(kb, s, i, xs) && Holds(kb, t, j, ys)
  }

  lemma NextInRun(kb: Kbo, a: seq<FlatNode>, i: nat, ts: TermList)
    requires kb.Valid() && ts.Cons? && WFL(kb, ts) && Holds(kb, a, i, ts)
    ensures i < |a| && WF(kb, ts.head) && WFL(kb, ts.tail)
    ensures Holds(kb, a, i, Cons(ts.head, Nil)) && Holds(kb, a, i + a[i].size, ts.tail)
  {
    AtHead(kb, a, i, ts);
    Skip(kb, a, i, ts, i + a[i].size);
  }

  lemma BesideNext(kb: Kbo, s: seq<FlatNode>, i: nat, xs: TermList, t: seq<FlatNode>, j: nat, ys: TermList)
    requires kb.Valid() && Beside(kb, s, i, xs, t, j, ys) && xs.Cons?
    ensures i < |s| && j < |t| && WF(kb, xs.head) && WF(kb, ys.head)
    ensures Holds(kb, s, i, Cons(xs.head, Nil)) && Holds(kb, t, j, Cons(ys.head, Nil))
    ensures Beside(kb, s, i + s[i].size, xs.tail, t, j + t[j].size, ys.tail)
  {
    NextInRun(kb, s, i, xs);
    NextInRun(kb, t, j, ys);
  }

  // The children of two nodes with the same constructor, in lockstep.
  method DiffChildren(kb: Kbo, s: seq<FlatNode>, sp: nat, t: seq<FlatNode>, tp: nat, wb: int, bal: array<int>, touched: seq<nat>,
                      ghost x: Term, ghost y: Term)
    returns (ident: bool, wb': int, touched': seq<nat>)
    requires kb.Valid() && WF(kb, x) && WF(kb, y) && sp < |s| && tp < |t|
    requires x.App? && y.App? && x.lab == y.lab
    requires Holds(kb, s, sp, Cons(x, Nil)) && Holds(kb, t, tp, Cons(y, Nil))
    requires bal.Length == MAX_VARS && Touched(bal[..], touched)
    modifies bal
    ensures ident <==> x == y
    ensures wb' == wb + Weight(kb, x) - Weight(kb, y)
    ensures Ledger(bal[..], touched') == PostAll(old(Ledger(bal[..], touched)), Trail(x, y))
    ensures forall v :: 0 <= v < MAX_VARS ==> bal[v] == old(bal[v]) + Count(x, v) - Count(y, v)
    ensures Touched(bal[..], touched')
    decreases x, 0
  {
    AtHead(kb, s, sp, Cons(x, Nil));
    AtHead(kb, t, tp, Cons(y, Nil));
    ident, wb', touched' := true, wb, touched;
    ghost var xs, ys, st := x.args, y.args, Ledger(bal[..], touched);
    ghost var goal := PostAll(st, Trail(x, y));
    SameTrail(x, y);
    var sc: nat, tc: nat := sp + 1, tp + 1;
    var k := 0;
    while k < s[sp].arity
      invariant k + Len(xs) == s[sp].arity && xs < x
      invariant Beside(kb, s, sc, xs, t, tc, ys)
      invariant x == y <==> ident && xs == ys
      invariant wb' + WeightL(kb, xs) - WeightL(kb, ys) == wb + Weight(kb, x) - Weight(kb, y)
      invariant PostAll(Ledger(bal[..], touched'), TrailL(xs, ys)) == goal && Touched(bal[..], touched')
    {
      BesideNext(kb, s, sc, xs, t, tc, ys);
      PostAllConcat(Ledger(bal[..], touched'), Trail(xs.head, ys.head), TrailL(xs.tail, ys.tail));
      var same;
      same, wb', touched' := Diff(kb, s, sc, t, tc, wb', bal, touched', xs.head, ys.head);
      ident := ident && same;
      sc, tc := sc + s[sc].size, tc + t[tc].size;
      xs, ys := xs.tail, ys.tail;
      k := k + 1;
    }
    TrailBalances(kb, st, x, y);
  }

  // Identical children contribute no leaves, so the walk may enter them.
  lemma SameTrail(x: Term, y: Term)
    requires x.App? && y.App? && x.lab == y.lab
    ensures Trail(x, y) == TrailL(x.args, y.args)
  {
    if x == y { SameTrailL(x.args); }
  }

  lemma {:induction false} SameTrailL(ts: TermList)
    ensures TrailL(ts, ts) == []
  {
    if ts.Cons? { SameTrailL(ts.tail); }
  }

  // ---- the comparison (fc_kbo_rec) ----

  // The verdict of the tree comparator, although only the divergent subtrees
  // are weighed; fits says that no level noted more variables than the C table
  // has entries, so that the C code gets to this verdict.
  method KboRec(kb: Kbo, s: seq<FlatNode>, sp: nat, t: seq<FlatNode>, tp: nat, ghost x: Term, ghost y: Term)
    returns (c: Cmp, fits: bool)
    requires kb.Valid() && WF(kb, x) && WF(kb, y) && sp < |s| && tp < |t|
    requires Holds(kb, s, sp, Cons(x, Nil)) && Holds(kb, t, tp, Cons(y, Nil))
    ensures c == Decide(kb, x, y)
    ensures FitsWhen(kb, x, y, fits)
    decreases x, 1
  {
    var bal := new int[MAX_VARS](_ => 0);
    assert bal[..] == Blank().bal;
    var same, wb, touched := Diff(kb, s, sp, t, tp, 0, bal, [], x, y);
    NotedBound(x, y);
    fits := |touched| <= MAX_VARS;
    if same { return EQ, fits; }
    var sDom, tDom := Dominance(kb, bal, touched, x, y);
    AtHead(kb, s, sp, Cons(x, Nil));
    AtHead(kb, t, tp, Cons(y, Nil));
    if !sDom && !tDom { return UN, fits; }
    if wb > 0 { return if sDom then GT else UN, fits; }
    if wb < 0 { return if tDom then LT else UN, fits; }
    if IsVar(s[sp].sym) || IsVar(t[tp].sym) { return UN, fits; }
    var ps, pt := kb.LabelPrecedence(s[sp].sym), kb.LabelPrecedence(t[tp].sym);
    if ps > pt { return if sDom then GT else UN, fits; }
    if ps < pt { return if tDom then LT else UN, fits; }
    var below;
    c, below := KboChildren(kb, s, sp, t, tp, sDom, tDom, x, y);
    fits := fits && below;
  }

  // What is known of fits: it needs the root level to fit, with labels
  // told apart it needs no more than that, and 65 variable leaves always fit.
  ghost predicate FitsWhen(kb: Kbo, x: Term, y: Term, fits: bool) {
    && (fits ==> Noted(x, y) <= MAX_VARS)
    && FitsBelow(kb, x, y, fits)
  }

  ghost predicate FitsBelow(kb: Kbo, x: Term, y: Term, fits: bool) {
    && (kb.Decisive() && Noted(x, y) <= MAX_VARS ==> fits)
    && (VarLeaves(x) + VarLeaves(y) <= MAX_VARS + 1 ==> fits)
  }

  // Which side has every variable at least as often, read off the touched ones.
  method Dominance(kb: Kbo, bal: array<int>, touched: seq<nat>, ghost x: Term, ghost y: Term) returns (sDom: bool, tDom: bool)
    requires kb.Valid() && WF(kb, x) && WF(kb, y)
    requires bal.Length == MAX_VARS && Touched(bal[..], touched)
    requires forall v :: 0 <= v < MAX_VARS ==> bal[v] == Count(x, v) - Count(y, v)
    ensures sDom <==> Dominates(x, y)
    ensures tDom <==> Dominates(y, x)
  {
    sDom, tDom := true, true;
    var i := 0;
    while i < |touched|
      invariant 0 <= i <= |touched|
      invariant sDom <==> forall k :: 0 <= k < i ==> bal[touched[k]] >= 0
      invariant tDom <==> forall k :: 0 <= k < i ==> bal[touched[k]] <= 0
    {
      var v := bal[touched[i]];
      if v < 0 { sDom := false; }
      if v > 0 { tDom := false; }
      i := i + 1;
    }
    BalanceDecides(kb, bal[..], touched, x, y);
  }

  lemma BalanceDecides(kb: Kbo, bal: seq<int>, touched: seq<nat>, x: Term, y: Term)
    requires kb.Valid() && WF(kb, x) && WF(kb, y) && Touched(bal, touched)
    requires forall v :: 0 <= v < MAX_VARS ==> bal[v] == Count(x, v) - Count(y, v)
    ensures Dominates(x, y) <==> forall k :: 0 <= k < |touched| ==> bal[touched[k]] >= 0
    ensures Dominates(y, x) <==> forall k :: 0 <= k < |touched| ==> bal[touched[k]] <= 0
  {
    forall v: nat | MAX_VARS <= v ensures Count(x, v) == 0 && Count(y, v) == 0 {
      NoHighVariables(kb, Cons(x, Nil), v);
      NoHighVariables(kb, Cons(y, Nil), v);
    }
    if forall k :: 0 <= k < |touched| ==> bal[touched[k]] >= 0 {
      forall v: nat ensures Count(x, v) >= Count(y, v) {
        if v < MAX_VARS && bal[v] != 0 { var k :| 0 <= k < |touched| && touched[k] == v; }
      }
    }
    if forall k :: 0 <= k < |touched| ==> bal[touched[k]] <= 0 {
      forall v: nat ensures Count(y, v) >= Count(x, v) {
        if v < MAX_VARS && bal[v] != 0 { var k :| 0 <= k < |touched| && touched[k] == v; }
      }
    }
    assert forall k :: 0 <= k < |touched| ==> bal[touched[k]] == Count(x, touched[k]) - Count(y, touched[k]);
  }

  // The pairs of children still to compare note no more than the parents did.
  ghost predicate Narrower(kb: Kbo, x: Term, y: Term, xs: TermList, ys: TermList) {
    && VarLeavesL(xs) + VarLeavesL(ys) <= VarLeaves(x) + VarLeaves(y)
    && (kb.Decisive() ==> Trail(x, y) == TrailL(xs, ys))
  }

  lemma NarrowerStart(kb: Kbo, x: Term, y: Term)
    requires kb.Valid() && WF(kb, x) && WF(kb, y) && x != y && x.App? && y.App? && Len(x.args) == Len(y.args)
    requires kb.LabelPrecedence(x.lab) == kb.LabelPrecedence(y.lab) && Weight(kb, x) == Weight(kb, y)
    ensures Narrower(kb, x, y, x.args, y.args)
  {
    if kb.Decisive() { TiesAreSame(kb, x, y); }
  }

  lemma NarrowerHead(kb: Kbo, x: Term, y: Term, xs: TermList, ys: TermList, fits: bool)
    requires Narrower(kb, x, y, xs, ys) && xs.Cons? && ys.Cons? && FitsWhen(kb, xs.head, ys.head, fits)
    ensures FitsBelow(kb, x, y, fits)
  {
    LeafTrailLength(xs, true);
    LeafTrailLength(ys, true);
    var bs, cs := Trail(xs.head, ys.head), TrailL(xs.tail, ys.tail);
    PostAllConcat(Blank(), bs, cs);
    NotedPotential(PostAll(Blank(), bs), cs);
  }

  lemma NarrowerTail(kb: Kbo, x: Term, y: Term, xs: TermList, ys: TermList)
    requires kb.Valid() && WFL(kb, xs) && WFL(kb, ys)
    requires Narrower(kb, x, y, xs, ys) && xs.Cons? && ys.Cons? && Decide(kb, xs.head, ys.head) == EQ
    ensures Narrower(kb, x, y, xs.tail, ys.tail)
  {
    LeafTrailLength(xs, true);
    LeafTrailLength(ys, true);
    if kb.Decisive() {
      DecideIsCompare(kb, xs.head, ys.head);
      assert TrailL(xs, ys) == [] + TrailL(xs.tail, ys.tail);
    }
  }

  // Equal weight, equal constructor: the first child that differs decides.
  method KboChildren(kb: Kbo, s: seq<FlatNode>, sp: nat, t: seq<FlatNode>, tp: nat, sDom: bool, tDom: bool,
                     ghost x: Term, ghost y: Term) returns (c: Cmp, fits: bool)
    requires kb.Valid() && WF(kb, x) && WF(kb, y) && sp < |s| && tp < |t|
    requires Holds(kb, s, sp, Cons(x, Nil)) && Holds(kb, t, tp, Cons(y, Nil))
    requires x != y && x.App? && y.App? && kb.LabelPrecedence(x.lab) == kb.LabelPrecedence(y.lab) && Weight(kb, x) == Weight(kb, y)
    requires sDom <==> Dominates(x, y)
    requires tDom <==> Dominates(y, x)
    requires sDom || tDom
    ensures c == Decide(kb, x, y)
    ensures FitsBelow(kb, x, y, fits)
    decreases x, 0
  {
    AtHead(kb, s, sp, Cons(x, Nil));
    AtHead(kb, t, tp, Cons(y, Nil));
    if s[sp].arity != t[tp].arity { return UN, true; }
    var sc: nat, tc: nat := sp + 1, tp + 1;
    ghost var xs, ys := x.args, y.args;
    var k := 0;
    fits := true;
    NarrowerStart(kb, x, y);
    while k < s[sp].arity
      invariant k + Len(xs) == s[sp].arity && xs < x
      invariant Beside(kb, s, sc, xs, t, tc, ys)
      invariant DecideL(kb, xs, ys, sDom, tDom) == Decide(kb, x, y)
      invariant Narrower(kb, x, y, xs, ys) && FitsBelow(kb, x, y, fits)
    {
      BesideNext(kb, s, sc, xs, t, tc, ys);
      var below;
      c, below := KboRec(kb, s, sc, t, tc, xs.head, ys.head);
      NarrowerHead(kb, x, y, xs, ys, below);
      fits := fits && below;
      if c == GT { return if sDom then GT else UN, fits; }
      if c == LT { return if tDom then LT else UN, fits; }
      if c == UN { return UN, fits; }
      NarrowerTail(kb, x, y, xs, ys);
      sc, tc := sc + s[sc].size, tc + t[tc].size;
      xs, ys := xs.tail, ys.tail;
      k := k + 1;
    }
    return EQ, fits;
  }

  // Two whole terms, each at the start of its array (fc_kbo_compare).
  method KboCompare(kb: Kbo, s: seq<FlatNode>, t: seq<FlatNode>, ghost x: Term, ghost y: Term) returns (c: Cmp, fits: bool)
    requires kb.Valid() && WF(kb, x) && WF(kb, y)
    requires s == Enc(kb, x) && t == Enc(kb, y)
    ensures c == Decide(kb, x, y)
    ensures kb.Decisive() ==> (fits <==> Noted(x, y) <= MAX_VARS)
    ensures VarLeaves(x) + VarLeaves(y) <= MAX_VARS + 1 ==> fits
  {
    HoldsEnc(kb, x);
    HoldsEnc(kb, y);
    c, fits := KboRec(kb, s, 0, t, 0, x, y);
  }
}
