// The variable balance of a comparison as a ledger: which balances a walk over
// two terms changes, in which order, and how long its list of touched variables
// grows.
module Balance {
  import opened FirstOrder

  // One variable leaf met on the left (plus) or on the right.
  datatype Bump = Bump(id: nat, plus: bool)

  datatype Ledger = Ledger(bal: seq<int>, touched: seq<nat>)

  function Signed(plus: bool, n: int): int {
    if plus then n else -n
  }

  // Changes one balance, noting the variable whenever the balance was zero;
  // ids beyond the table are passed over.
  function Post(st: Ledger, b: Bump): Ledger {
    if b.id >= |st.bal| then st
    else
      Ledger(st.bal[b.id := st.bal[b.id] + Signed(b.plus, 1)],
             if st.bal[b.id] == 0 then st.touched + [b.id] else st.touched)
  }

  function PostAll(st: Ledger, bs: seq<Bump>): Ledger
    decreases |bs|
  {
    if bs == [] then st else PostAll(Post(st, bs[0]), bs[1..])
  }

  function Blank(): Ledger {
    Ledger(seq(MAX_VARS, _ => 0), [])
  }

  // ---- the leaves met by a walk ----

  // All leaves of a term.
  function LeafTrail(t: Term, plus: bool): seq<Bump> {
    match t
    case Var(id) => [Bump(id, plus)]
    case App(_, args) => LeafTrailL(args, plus)
  }

  function LeafTrailL(ts: TermList, plus: bool): seq<Bump> {
    match ts
    case Nil => []
    case Cons(h, tail) => LeafTrail(h, plus) + LeafTrailL(tail, plus)
  }

  // The leaves met when s and t are walked together: those of the subtrees at
  // which they part, s before t.
  function Trail(s: Term, t: Term): seq<Bump> {
    if s == t then []
    else if s.App? && t.App? && s.lab == t.lab then TrailL(s.args, t.args)
    else LeafTrail(s, true) + LeafTrail(t, false)
  }

  function TrailL(ss: TermList, ts: TermList): seq<Bump> {
    if ss.Nil? || ts.Nil? then [] else Trail(ss.head, ts.head) + TrailL(ss.tail, ts.tail)
  }

  // Entries the list of touched variables ends up with.
  function Noted(s: Term, t: Term): nat {
    |PostAll(Blank(), Trail(s, t)).touched|
  }

  // Number of variable leaves.
  function VarLeaves(t: Term): nat {
    |LeafTrail(t, true)|
  }

  function VarLeavesL(ts: TermList): nat {
    |LeafTrailL(ts, true)|
  }

  lemma {:induction false} LeafTrailLength(ts: TermList, plus: bool)
    ensures |LeafTrailL(ts, plus)| == VarLeavesL(ts)
    ensures ts.Cons? ==> |LeafTrail(ts.head, plus)| == VarLeaves(ts.head)
    ensures ts.Cons? ==> VarLeavesL(ts) == VarLeaves(ts.head) + VarLeavesL(ts.tail)
  {
    if ts.Cons? {
      if ts.head.App? { LeafTrailLength(ts.head.args, plus); }
      LeafTrailLength(ts.tail, plus);
      assert LeafTrailL(ts, true) == LeafTrail(ts.head, true) + LeafTrailL(ts.tail, true);
    }
  }

  lemma {:induction false} LeafTrailAppend(ss: TermList, ts: TermList, plus: bool)
    ensures LeafTrailL(Append(ss, ts), plus) == LeafTrailL(ss, plus) + LeafTrailL(ts, plus)
  {
    match ss
    case Nil => assert [] + LeafTrailL(ts, plus) == LeafTrailL(ts, plus);
    case Cons(h, tail) =>
      LeafTrailAppend(tail, ts, plus);
      assert LeafTrail(h, plus) + (LeafTrailL(tail, plus) + LeafTrailL(ts, plus))
          == LeafTrail(h, plus) + LeafTrailL(tail, plus) + LeafTrailL(ts, plus);
  }

  lemma {:induction false} TrailLength(ss: TermList, ts: TermList)
    ensures |TrailL(ss, ts)| <= VarLeavesL(ss) + VarLeavesL(ts)
    ensures ss.Cons? && ts.Cons? ==> |Trail(ss.head, ts.head)| <= VarLeaves(ss.head) + VarLeaves(ts.head)
  {
    if ss.Cons? && ts.Cons? {
      var s, t := ss.head, ts.head;
      if s.App? && t.App? { TrailLength(s.args, t.args); }
      LeafTrailLength(Cons(t, Nil), false);
      TrailLength(ss.tail, ts.tail);
      LeafTrailLength(ss, true);
      LeafTrailLength(ts, true);
    }
  }

  // ---- weights, counted out ----

  // Number of nodes labelled l.
  function Labelled(t: Term, l: nat): nat {
    match t
    case Var(_) => 0
    case App(lab, args) => (if lab == l then 1 else 0) + LabelledL(args, l)
  }

  function LabelledL(ts: TermList, l: nat): nat {
    match ts
    case Nil => 0
    case Cons(h, tail) => Labelled(h, l) + LabelledL(tail, l)
  }

  // The first n entries of a table, each times the nodes with that label.
  function LabelSum(ts: TermList, table: seq<nat>, n: nat): nat
    requires n <= |table|
  {
    if n == 0 then 0 else LabelSum(ts, table, n - 1) + table[n - 1] * LabelledL(ts, n - 1)
  }

  lemma Distribute(a: nat, b: nat, c: nat, d: nat)
    ensures a * (b + c + d) == a * b + a * c + a * d
  {
  }

  lemma {:induction false} LabelSumNil(table: seq<nat>, n: nat)
    requires n <= |table|
    ensures LabelSum(Nil, table, n) == 0
  {
    if n > 0 { LabelSumNil(table, n - 1); }
  }

  // The root's own entry, then its children's, then the siblings'.
  lemma {:induction false} LabelSumCons(h: Term, tail: TermList, table: seq<nat>, n: nat)
    requires n <= |table|
    ensures LabelSum(Cons(h, tail), table, n) == LabelSum(tail, table, n) +
              if h.App? then (if h.lab < n then table[h.lab] else 0) + LabelSum(h.args, table, n) else 0
  {
    if n > 0 {
      LabelSumCons(h, tail, table, n - 1);
      var root, below := if h.App? && h.lab == n - 1 then 1 else 0, if h.App? then LabelledL(h.args, n - 1) else 0;
      assert LabelledL(Cons(h, tail), n - 1) == root + below + LabelledL(tail, n - 1);
      Distribute(table[n - 1], root, below, LabelledL(tail, n - 1));
    }
  }

  // The weight of a term is the variable weight for each variable leaf and the
  // entry of the weight table for each node with that label.
  lemma {:induction false} WeightCounted(kb: Kbo, ts: TermList)
    ensures WeightL(kb, ts) == kb.varWeight * VarLeavesL(ts) + LabelSum(ts, kb.weights, |kb.weights|)
  {
    match ts
    case Nil => LabelSumNil(kb.weights, |kb.weights|);
    case Cons(h, tail) =>
      if h.App? { WeightCounted(kb, h.args); }
      WeightCounted(kb, tail);
      LabelSumCons(h, tail, kb.weights, |kb.weights|);
      LeafTrailLength(ts, true);
      Distribute(kb.varWeight, VarLeaves(h), VarLeavesL(tail), 0);
  }

  // The same for one term.
  lemma WeightIs(kb: Kbo, t: Term)
    ensures Weight(kb, t) == kb.varWeight * VarLeaves(t) + LabelSum(Cons(t, Nil), kb.weights, |kb.weights|)
    ensures forall l: nat :: LabelledL(Cons(t, Nil), l) == Labelled(t, l)
  {
    WeightCounted(kb, Cons(t, Nil));
    Single(kb, t);
    LeafTrailLength(Cons(t, Nil), true);
    assert VarLeavesL(Nil) == 0;
    forall l: nat ensures LabelledL(Cons(t, Nil), l) == Labelled(t, l) { assert LabelledL(Nil, l) == 0; }
  }

  // ---- what the balances come to ----

  lemma {:induction false} PostAllConcat(st: Ledger, bs: seq<Bump>, cs: seq<Bump>)
    ensures PostAll(st, bs + cs) == PostAll(PostAll(st, bs), cs)
    ensures |PostAll(st, bs).bal| == |st.bal|
    decreases |bs|
  {
    if bs == [] {
      assert bs + cs == cs;
    } else {
      assert (bs + cs)[1..] == bs[1..] + cs;
      PostAllConcat(Post(st, bs[0]), bs[1..], cs);
    }
  }

  // Leaves of v on the left minus leaves of v on the right.
  function Net(bs: seq<Bump>, v: nat): int {
    if bs == [] then 0 else (if bs[0].id == v then Signed(bs[0].plus, 1) else 0) + Net(bs[1..], v)
  }

  lemma {:induction false} NetConcat(bs: seq<Bump>, cs: seq<Bump>, v: nat)
    ensures Net(bs + cs, v) == Net(bs, v) + Net(cs, v)
  {
    if bs == [] {
      assert bs + cs == cs;
    } else {
      assert (bs + cs)[1..] == bs[1..] + cs;
      NetConcat(bs[1..], cs, v);
    }
  }

  lemma {:induction false} NetBalance(st: Ledger, bs: seq<Bump>, v: nat)
    requires v < |st.bal|
    ensures |PostAll(st, bs).bal| == |st.bal| && PostAll(st, bs).bal[v] == st.bal[v] + Net(bs, v)
    decreases |bs|
  {
    if bs != [] { NetBalance(Post(st, bs[0]), bs[1..], v); }
  }

  lemma {:induction false} NetLeaves(ts: TermList, plus: bool, v: nat)
    ensures Net(LeafTrailL(ts, plus), v) == Signed(plus, CountL(ts, v))
    ensures ts.Cons? ==> Net(LeafTrail(ts.head, plus), v) == Signed(plus, Count(ts.head, v))
  {
    if ts.Cons? {
      if ts.head.App? { NetLeaves(ts.head.args, plus, v); }
      NetLeaves(ts.tail, plus, v);
      NetConcat(LeafTrail(ts.head, plus), LeafTrailL(ts.tail, plus), v);
    }
  }

  // Skipping equal subterms loses nothing: the net of the walk is the
  // difference of the full occurrence counts.
  lemma {:induction false} NetTrail(kb: Kbo, ss: TermList, ts: TermList, v: nat)
    requires WFL(kb, ss) && WFL(kb, ts) && Len(ss) == Len(ts)
    ensures Net(TrailL(ss, ts), v) == CountL(ss, v) - CountL(ts, v)
    ensures ss.Cons? ==> Net(Trail(ss.head, ts.head), v) == Count(ss.head, v) - Count(ts.head, v)
  {
    if ss.Cons? {
      var s, t := ss.head, ts.head;
      if s.App? && t.App? && s.lab == t.lab { NetTrail(kb, s.args, t.args, v); }
      NetLeaves(Cons(s, Nil), true, v);
      NetLeaves(Cons(t, Nil), false, v);
      NetConcat(LeafTrail(s, true), LeafTrail(t, false), v);
      NetTrail(kb, ss.tail, ts.tail, v);
      NetConcat(Trail(s, t), TrailL(ss.tail, ts.tail), v);
    }
  }

  // Every variable out of balance has been touched.
  ghost predicate Touched(bal: seq<int>, touched: seq<nat>) {
    && |bal| == MAX_VARS
    && (forall k :: 0 <= k < |touched| ==> touched[k] < MAX_VARS)
    && (forall v :: 0 <= v < MAX_VARS && bal[v] != 0 ==> v in touched)
  }

  lemma {:induction false} TouchedKept(st: Ledger, bs: seq<Bump>)
    requires Touched(st.bal, st.touched)
    ensures Touched(PostAll(st, bs).bal, PostAll(st, bs).touched)
    decreases |bs|
  {
    if bs != [] { TouchedKept(Post(st, bs[0]), bs[1..]); }
  }

  // ---- how long the list of touched variables grows ----

  function NonZero(bal: seq<int>): nat {
    if bal == [] then 0 else (if bal[0] == 0 then 0 else 1) + NonZero(bal[1..])
  }

  lemma {:induction false} NonZeroUpdate(bal: seq<int>, i: nat, x: int)
    requires i < |bal|
    ensures NonZero(bal[i := x]) == NonZero(bal) - (if bal[i] == 0 then 0 else 1) + if x == 0 then 0 else 1
    ensures NonZero(bal) <= |bal|
  {
    NonZeroBound(bal);
    if i == 0 {
      assert bal[i := x][1..] == bal[1..];
    } else {
      assert bal[i := x][1..] == bal[1..][i - 1 := x];
      NonZeroUpdate(bal[1..], i - 1, x);
    }
  }

  lemma {:induction false} NonZeroBound(bal: seq<int>)
    ensures NonZero(bal) <= |bal|
  {
    if bal != [] { NonZeroBound(bal[1..]); }
  }

  // A variable must leave zero and come back before it is noted again.
  lemma {:induction false} NotedPotential(st: Ledger, bs: seq<Bump>)
    ensures 2 * |PostAll(st, bs).touched| - NonZero(PostAll(st, bs).bal) <= 2 * |st.touched| - NonZero(st.bal) + |bs|
    ensures |st.touched| <= |PostAll(st, bs).touched|
    decreases |bs|
  {
    if bs != [] {
      var b := bs[0];
      if b.id < |st.bal| { NonZeroUpdate(st.bal, b.id, st.bal[b.id] + Signed(b.plus, 1)); }
      NotedPotential(Post(st, b), bs[1..]);
    }
  }

  lemma {:induction false} BlankZero(n: nat)
    ensures NonZero(seq(n, _ => 0)) == 0
  {
    if n > 0 {
      assert seq(n, _ => 0)[1..] == seq(n - 1, _ => 0);
      BlankZero(n - 1);
    }
  }

  // Half the leaves met and half the table, rounded down, is always enough.
  lemma NotedBound(s: Term, t: Term)
    ensures 2 * Noted(s, t) <= VarLeaves(s) + VarLeaves(t) + MAX_VARS
  {
    BlankZero(MAX_VARS);
    NotedPotential(Blank(), Trail(s, t));
    NonZeroBound(PostAll(Blank(), Trail(s, t)).bal);
    PostAllConcat(Blank(), Trail(s, t), []);
    TrailLength(Cons(s, Nil), Cons(t, Nil));
  }

  // ---- the length 64 of the C table ----

  lemma PairTrail(l: nat, s: Term, t: Term, plus: bool)
    ensures LeafTrail(Pair(l, s, t), plus) == LeafTrail(s, plus) + LeafTrail(t, plus)
    ensures VarLeaves(Pair(l, s, t)) == VarLeaves(s) + VarLeaves(t)
  {
    forall p: bool ensures LeafTrail(Pair(l, s, t), p) == LeafTrail(s, p) + LeafTrail(t, p) {
      var one, two := Cons(t, Nil), Cons(s, Cons(t, Nil));
      assert LeafTrailL(one, p) == LeafTrail(t, p) + LeafTrailL(Nil, p);
      assert LeafTrailL(two, p) == LeafTrail(s, p) + LeafTrailL(one, p);
      assert LeafTrail(Pair(l, s, t), p) == LeafTrailL(two, p);
    }
  }

  // The variables i, ..., n - 1 under right-nested nodes l.
  function Comb(l: nat, i: nat, n: nat): Term
    requires i < n
    decreases n - i
  {
    if i + 1 == n then Var(i) else Pair(l, Var(i), Comb(l, i + 1, n))
  }

  lemma {:induction false} CombPosts(l: nat, i: nat, n: nat, st: Ledger)
    requires i < n <= |st.bal| && forall v :: i <= v < n ==> st.bal[v] == 0
    ensures var st' := PostAll(st, LeafTrail(Comb(l, i, n), true));
      && |st'.bal| == |st.bal| && |st'.touched| == |st.touched| + n - i
      && forall v :: 0 <= v < |st.bal| ==> st'.bal[v] == if i <= v < n then 1 else st.bal[v]
    ensures VarLeaves(Comb(l, i, n)) == n - i
    decreases n - i
  {
    var b := Bump(i, true);
    var st1 := Post(st, b);
    if i + 1 == n {
      assert PostAll(st, [b]) == PostAll(st1, []) == st1;
    } else {
      var rest := LeafTrail(Comb(l, i + 1, n), true);
      PairTrail(l, Var(i), Comb(l, i + 1, n), true);
      assert ([b] + rest)[1..] == rest;
      CombPosts(l, i + 1, n, st1);
    }
  }

  lemma {:induction false} CombWF(kb: Kbo, l: nat, i: nat, n: nat)
    requires l < |kb.arities| && kb.arities[l] == 2 && i < n <= MAX_VARS
    ensures WF(kb, Comb(l, i, n))
    decreases n - i
  {
    if i + 1 < n {
      CombWF(kb, l, i + 1, n);
      PairWF(kb, l, Var(i), Comb(l, i + 1, n));
    }
  }

  // Two terms with 66 variable leaves between them that take 65 entries: 63
  // variables, then the first of them back to zero and away again, then one more.
  lemma Overflow(kb: Kbo, l: nat)
    requires l < |kb.arities| && kb.arities[l] == 2
    ensures var s, t := Pair(l, Comb(l, 0, 63), Var(0)), Pair(l, Var(0), Var(63));
      && WF(kb, s) && WF(kb, t)
      && VarLeaves(s) + VarLeaves(t) == 66
      && Noted(s, t) == 65
  {
    var c, v, w := Comb(l, 0, 63), Var(0), Var(63);
    var s, t := Pair(l, c, v), Pair(l, v, w);
    CombWF(kb, l, 0, 63);
    PairWF(kb, l, c, v);
    PairWF(kb, l, v, w);
    CombPosts(l, 0, 63, Blank());
    var st := PostAll(Blank(), LeafTrail(c, true));
    var tail := [Bump(0, false), Bump(0, true), Bump(63, false)];
    OverflowTrail(l, c);
    PostAllConcat(Blank(), LeafTrail(c, true), tail);
    ThreePosts(st, tail);
    PairTrail(l, c, v, true);
    PairTrail(l, v, w, true);
  }

  lemma OverflowTrail(l: nat, c: Term)
    requires c.App?
    ensures Trail(Pair(l, c, Var(0)), Pair(l, Var(0), Var(63))) ==
            LeafTrail(c, true) + [Bump(0, false), Bump(0, true), Bump(63, false)]
  {
    var v, w := Var(0), Var(63);
    var s, t := Pair(l, c, v), Pair(l, v, w);
    var ends := TrailL(Cons(v, Nil), Cons(w, Nil));
    assert ends == Trail(v, w) + TrailL(Nil, Nil);
    assert Trail(v, w) == [Bump(0, true)] + [Bump(63, false)];
    assert Trail(c, v) == LeafTrail(c, true) + [Bump(0, false)];
    assert Trail(s, t) == TrailL(s.args, t.args) == Trail(c, v) + ends;
  }

  lemma ThreePosts(st: Ledger, bs: seq<Bump>)
    requires |bs| == 3
    ensures PostAll(st, bs) == Post(Post(Post(st, bs[0]), bs[1]), bs[2])
  {
    var st1 := Post(st, bs[0]);
    var st2 := Post(st1, bs[1]);
    assert bs[1..][1..] == [bs[2]] && bs[1..][0] == bs[1];
    assert PostAll(st2, [bs[2]]) == PostAll(Post(st2, bs[2]), []);
    assert PostAll(st1, bs[1..]) == PostAll(st2, [bs[2]]);
  }

  ghost predicate TableSuffices(kb: Kbo, n: nat) {
    forall s, t :: WF(kb, s) && WF(kb, t) && VarLeaves(s) + VarLeaves(t) <= n ==> Noted(s, t) <= MAX_VARS
  }

  // The 64 entries of the C table suffice for all pairs of terms with at most n
  // variable leaves between them exactly when n is at most 65.
  lemma TableSufficesIff(kb: Kbo, l: nat, n: nat)
    requires l < |kb.arities| && kb.arities[l] == 2
    ensures TableSuffices(kb, n) <==> n <= MAX_VARS + 1
  {
    if n <= MAX_VARS + 1 {
      forall s, t | WF(kb, s) && WF(kb, t) && VarLeaves(s) + VarLeaves(t) <= n ensures Noted(s, t) <= MAX_VARS {
        NotedBound(s, t);
      }
    } else {
      Overflow(kb, l);
    }
  }
}
