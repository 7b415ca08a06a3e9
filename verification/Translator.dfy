// The memoized walk: every node of the graph is translated once, on first use.
module Translate {
  import opened Casts
  import opened Tensors
  import opened FromTinygrad
  import opened Lowering

  datatype Result = Ok(term: Term) | NotImplemented

  // ---- bookkeeping over the graph ----

  // u and everything it is computed from.
  ghost function Reach(g: seq<UOp>, u: nat): set<nat>
    requires Graph(g) && u < |g|
    decreases u, 1
  {
    assert NodeOk(g, u);
    {u} + ReachAll(g, g[u].src, u)
  }

  ghost function ReachAll(g: seq<UOp>, src: seq<nat>, u: nat): set<nat>
    requires Graph(g) && u <= |g| && forall i :: 0 <= i < |src| ==> src[i] < u
    decreases u, 0, |src|
  {
    if src == [] then {} else ReachAll(g, src[..|src| - 1], u) + Reach(g, src[|src| - 1])
  }

  // The operation of u has a lowering, and its parameters can be found.
  ghost predicate Decodable(g: seq<UOp>, u: nat)
    requires Graph(g) && u < |g|
  {
    assert NodeOk(g, u);
    match g[u].op
    case Unmapped => false
    case Pad(params) => Pairs(params, |g[g[u].src[0]].shape|).Some?
    case Shrink(params) => Pairs(params, |g[g[u].src[0]].shape|).Some?
    case _ => true
  }

  // Everything at u or below it can be lowered.
  ghost predicate Supported(g: seq<UOp>, u: nat)
    requires Graph(g) && u < |g|
    decreases u, 1
  {
    assert NodeOk(g, u);
    Decodable(g, u) && AllSupported(g, g[u].src, u)
  }

  ghost predicate AllSupported(g: seq<UOp>, src: seq<nat>, u: nat)
    requires Graph(g) && u <= |g| && forall i :: 0 <= i < |src| ==> src[i] < u
    decreases u, 0, |src|
  {
    src == [] || (AllSupported(g, src[..|src| - 1], u) && Supported(g, src[|src| - 1]))
  }

  // ---- where the lowering keeps values ----

  // The lossy nodes: a constant that does not fit 32 bits, and a cast or a
  // reinterpretation that some value met does not survive.
  ghost predicate Exact(g: seq<UOp>, env: Env, u: nat)
    requires Graph(g) && u < |g|
  {
    assert NodeOk(g, u);
    var n := g[u];
    match n.op
    case IConst(k) => InRange(INT32, k)
    case Cast(dt) => forall idx :: InBox(idx, n.shape) ==> Survives(dt, Den(g, env, n.src[0])(idx))
    case Bitcast(from, dt) => forall idx :: InBox(idx, n.shape) ==> RereadSurvives(env, from, dt, Den(g, env, n.src[0])(idx))
    case _ => true
  }

  ghost predicate AllExact(g: seq<UOp>, env: Env, us: set<nat>)
    requires Graph(g)
  {
    forall u :: u in us && u < |g| ==> Exact(g, env, u)
  }

  // What the memo promises of an entry: if nothing lossy is met, its meaning.
  ghost predicate Entails(g: seq<UOp>, env: Env, u: nat, t: Term)
    requires Graph(g) && u < |g|
  {
    AllExact(g, env, Reach(g, u)) ==> Means(g, env, u, t)
  }

  lemma {:induction false} Unsupported(g: seq<UOp>, src: seq<nat>, i: nat, u: nat)
    requires Graph(g) && u <= |g| && (forall j :: 0 <= j < |src| ==> src[j] < u)
    requires i < |src| && !Supported(g, src[i])
    ensures !AllSupported(g, src, u)
    decreases |src|
  {
    if i < |src| - 1 { Unsupported(g, src[..|src| - 1], i, u); }
  }

  // The terms ts are the memo's entries for the nodes src.
  ghost predicate Entries(memo: map<nat, Term>, src: seq<nat>, ts: seq<Term>) {
    && |src| == |ts|
    && (src == [] ||
        var n := |src| - 1;
        src[n] in memo && memo[src[n]] == ts[n] && Entries(memo, src[..n], ts[..n]))
  }

  lemma {:induction false} EntriesGrow(memo: map<nat, Term>, more: map<nat, Term>, src: seq<nat>, ts: seq<Term>)
    requires Entries(memo, src, ts) && forall u :: u in memo ==> u in more && more[u] == memo[u]
    ensures Entries(more, src, ts)
    decreases |src|
  {
    if src != [] { EntriesGrow(memo, more, src[..|src| - 1], ts[..|src| - 1]); }
  }

  lemma EntriesMore(memo: map<nat, Term>, src: seq<nat>, i: nat, ts: seq<Term>, t: Term)
    requires i < |src| && Entries(memo, src[..i], ts) && src[i] in memo && memo[src[i]] == t
    ensures Entries(memo, src[..i + 1], ts + [t])
  {
    assert src[..i + 1][..i] == src[..i] && (ts + [t])[..i] == ts;
  }

  lemma {:induction false} EntriesAt(memo: map<nat, Term>, src: seq<nat>, ts: seq<Term>, i: nat)
    requires Entries(memo, src, ts) && i < |src|
    ensures src[i] in memo && memo[src[i]] == ts[i]
    decreases |src|
  {
    if i < |src| - 1 { EntriesAt(memo, src[..|src| - 1], ts[..|src| - 1], i); }
  }

  ghost function CountAxes(axes: set<nat>, n: nat): nat {
    if n == 0 then 0 else CountAxes(axes, n - 1) + if n - 1 in axes then 1 else 0
  }

  // How many terms the lowering of one node builds.
  ghost function Cost(g: seq<UOp>, u: nat): nat
    requires Graph(g) && u < |g|
  {
    assert NodeOk(g, u);
    match g[u].op
    case Pass => 0
    case Sub => 2
    case CmpNe => 4
    case Max => 7
    case Reduce(_, axes) => CountAxes(axes, |g[g[u].src[0]].shape|) + 1
    case _ => 1
  }

  ghost function TotalCost(g: seq<UOp>, us: set<nat>, n: nat): nat
    requires Graph(g) && n <= |g|
  {
    if n == 0 then 0 else TotalCost(g, us, n - 1) + if n - 1 in us then Cost(g, n - 1) else 0
  }

  lemma {:induction false} TotalCostAdd(g: seq<UOp>, us: set<nat>, u: nat, n: nat)
    requires Graph(g) && n <= |g| && u !in us && u < |g|
    ensures TotalCost(g, us + {u}, n) == TotalCost(g, us, n) + if u < n then Cost(g, u) else 0
  {
    if n > 0 { TotalCostAdd(g, us, u, n - 1); }
  }

  lemma {:induction false} TotalCostEmpty(g: seq<UOp>, n: nat)
    requires Graph(g) && n <= |g|
    ensures TotalCost(g, {}, n) == 0
  {
    if n > 0 { TotalCostEmpty(g, n - 1); }
  }

  // ---- reducing one axis at a time ----

  lemma InsertedAxis(shape: seq<nat>, axes: set<nat>, k: nat)
    requires k < |shape| && PartShape(shape, axes, k + 1) == Insert(PartShape(shape, axes, k), k, shape[k])
    ensures var big, small := PartShape(shape, axes, k + 1), PartShape(shape, axes, k);
      k < |big| && big[k] == shape[k] && big[..k] + big[k + 1..] == small
  {
    var small := PartShape(shape, axes, k);
    assert small[..k] == shape[..k];
    assert small == small[..k] + small[k..];
  }

  // t denotes the tensor with the axes from k on already reduced away.
  ghost predicate Reduced(env: Env, kind: ReduceOp, axes: set<nat>, shape: seq<nat>, k: nat, f: Index -> real, t: Term)
    requires k <= |shape|
  {
    Denotes(env, t, PartShape(shape, axes, k), Partly(Combine(kind), Start(env, kind), shape, axes, k, f))
  }

  lemma ReducedStep(env: Env, kind: ReduceOp, axes: set<nat>, shape: seq<nat>, k: nat, f: Index -> real, t: Term)
    requires k < |shape| && Reduced(env, kind, axes, shape, k + 1, f, t)
    ensures Reduced(env, kind, axes, shape, k, f, if k in axes then TReduce(kind, k, t) else t)
  {
    if k in axes {
      PartlyReduce(Combine(kind), Start(env, kind), shape, axes, k, f, Value(env, t));
      InsertedAxis(shape, axes, k);
    } else {
      PartlySkip(Combine(kind), Start(env, kind), shape, axes, k, f);
    }
  }

  lemma ReducedDone(env: Env, kind: ReduceOp, axes: set<nat>, shape: seq<nat>, f: Index -> real, t: Term)
    requires Reduced(env, kind, axes, shape, 0, f, t)
    ensures Denotes(env, TReshape(t, Kept(shape, axes, 0)), Kept(shape, axes, 0), KeepReduce(Combine(kind), Start(env, kind), shape, axes, f))
  {
    assert PartShape(shape, axes, 0) == Dropped(shape, axes, 0) by { assert shape[0..] == shape; }
    LoweredReduce(Combine(kind), Start(env, kind), shape, axes, f, Value(env, t));
  }

  // The term an elementwise node is lowered to.
  function ElementwiseTerm(op: Op, ts: seq<Term>): Term
    requires Elementwise(op) && |ts| == Operands(op)
  {
    if op.Unary? then TUnary(op.f, ts[0])
    else if op.Sub? then SubTerm(ts[0], ts[1])
    else if op.Max? then MaxTerm(ts[0], ts[1])
    else if op.CmpNe? then NeTerm(ts[0], ts[1])
    else if op.Where? then TWhere(ts[0], ts[1], ts[2])
    else TBinary(if op.Add? then ADD else if op.Mul? then MUL else CMPLT, ts[0], ts[1])
  }

  predicate Elementwise(op: Op) {
    op.Unary? || op.Sub? || op.Max? || op.CmpNe? || op.Add? || op.Mul? || op.CmpLt? || op.Where?
  }

  lemma ElementwiseMeans(g: seq<UOp>, u: nat, ts: seq<Term>, env: Env)
    requires Graph(g) && u < |g| && Elementwise(g[u].op) && |ts| == |g[u].src| && NodeOk(g, u)
    requires forall i :: 0 <= i < |ts| ==> Means(g, env, g[u].src[i], ts[i])
    ensures Means(g, env, u, ElementwiseTerm(g[u].op, ts))
  {
    var n := g[u];
    var s, x := n.shape, Den(g, env, n.src[0]);
    assert Denotes(env, ts[0], s, x);
    if n.op.Unary? {
      UnaryDenotes(env, n.op.f, ts[0], s, x);
    } else {
      var y := Den(g, env, n.src[1]);
      assert Denotes(env, ts[1], s, y);
      DenotesSpreads(env, ts[0], s, x);
      DenotesSpreads(env, ts[1], s, y);
      if n.op.Sub? {
        SubDenotes(env, ts[0], ts[1], s, x, y);
      } else if n.op.Max? {
        MaxDenotes(env, ts[0], ts[1], s, x, y);
      } else if n.op.CmpNe? {
        NeDenotes(env, ts[0], ts[1], s, x, y);
      } else if n.op.Where? {
        assert Denotes(env, ts[2], s, Den(g, env, n.src[2]));
        WhereDenotes(env, ts[0], ts[1], ts[2], s, x, y, Den(g, env, n.src[2]));
      } else {
        BinaryDenotes(env, if n.op.Add? then ADD else if n.op.Mul? then MUL else CMPLT, ts[0], ts[1], s, x, y);
      }
    }
  }

  // ---- the translator ----

  class Translator {
    // Node -> term, and the number of terms built so far.
    var memo: map<nat, Term>
    var built: nat

    constructor ()
      ensures memo == map[] && built == 0
    {
      memo := map[];
      built := 0;
    }

    // Every entry denotes its node unless something lossy is below it, entries are closed under operands, and the
    // terms built are those of the entries, each once.
    ghost predicate Valid(g: seq<UOp>, env: Env)
      reads this
      requires Graph(g)
    {
      && (forall u :: u in memo ==> u < |g|)
      && (forall u :: u in memo ==> Entails(g, env, u, memo[u]) && Supported(g, u) && Reach(g, u) <= memo.Keys)
      && built == TotalCost(g, memo.Keys, |g|)
    }

    method Make(t: Term) returns (r: Term)
      modifies this`built
      ensures r == t && built == old(built) + 1
    {
      built := built + 1;
      return t;
    }

    // One single-axis reduce per axis, innermost first, then one reshape back
    // to the kept dimensions.
    method LowerReduce(kind: ReduceOp, axes: set<nat>, shape: seq<nat>, a: Term, ghost env: Env, ghost f: Index -> real, ghost exact: bool)
      returns (t: Term)
      requires (exact ==> Denotes(env, a, shape, f)) && forall x :: x in axes ==> x < |shape|
      modifies this`built
      ensures exact ==> Denotes(env, t, Kept(shape, axes, 0), KeepReduce(Combine(kind), Start(env, kind), shape, axes, f))
      ensures built == old(built) + CountAxes(axes, |shape|) + 1
    {
      t := a;
      PartlyStart(Combine(kind), Start(env, kind), shape, axes, f);
      for k := |shape| downto 0
        invariant exact ==> Reduced(env, kind, axes, shape, k, f, t)
        invariant built + CountAxes(axes, k) == old(built) + CountAxes(axes, |shape|)
      {
        if exact { ReducedStep(env, kind, axes, shape, k, f, t); }
        if k in axes { t := Make(TReduce(kind, k, t)); }
      }
      if exact { ReducedDone(env, kind, axes, shape, f, t); }
      t := Make(TReshape(t, Kept(shape, axes, 0)));
    }

    // The term of one node over the terms of its operands, if its parameters can
    // be found.
    method Build(g: seq<UOp>, u: nat, ts: seq<Term>, ghost env: Env, ghost exact: bool) returns (r: Result)
      requires Graph(g) && u < |g| && !g[u].op.Unmapped? && |ts| == |g[u].src|
      requires NodeOk(g, u) && (exact ==> Exact(g, env, u) && forall i :: 0 <= i < |ts| ==> Means(g, env, g[u].src[i], ts[i]))
      modifies this`built
      ensures r.Ok? <==> Decodable(g, u)
      ensures r.Ok? && exact ==> Means(g, env, u, r.term)
      ensures built == old(built) + if r.Ok? then Cost(g, u) else 0
    {
      var n := g[u];
      if n.op.Pad? || n.op.Shrink? {
        r := BuildWindow(g, u, ts[0], env, exact);
        return;
      }
      var t;
      if n.op.Buffer? {
        t := Make(TLeaf(n.op.k, n.shape));
      } else if n.op.Const? {
        t := Make(TConst(n.op.v));
      } else if n.op.IConst? {
        IConstDenotesIff(env, n.op.n);
        t := Make(TIConst(Wrap(INT32, n.op.n)));
      } else if n.op.Pass? {
        t := ts[0];
      } else if n.op.Cast? || n.op.Bitcast? {
        t := BuildCast(g, u, ts, env, exact);
      } else if n.op.Reduce? {
        t := LowerReduce(n.op.kind, n.op.axes, g[n.src[0]].shape, ts[0], env, Den(g, env, n.src[0]), exact);
      } else if Movement(n.op) {
        t := BuildMovement(g, u, ts, env, exact);
      } else {
        t := BuildElementwise(g, u, ts, env, exact);
      }
      return Ok(t);
    }

    // A pad or shrink of a with the bounds its parameters ask for.
    ghost predicate Windowed(g: seq<UOp>, u: nat, a: Term, t: Term)
      requires Graph(g) && u < |g|
    {
      assert NodeOk(g, u);
      match g[u].op
      case Pad(params) => t.TPad? && t.a == a && Decoded(true, g[g[u].src[0]].shape, params, t.bounds)
      case Shrink(params) => t.TShrink? && t.a == a && Decoded(false, g[g[u].src[0]].shape, params, t.bounds)
      case _ => false
    }

    // Pad and shrink, with their parameters decoded.
    method BuildWindow(g: seq<UOp>, u: nat, a: Term, ghost env: Env, ghost exact: bool) returns (r: Result)
      requires Graph(g) && u < |g| && NodeOk(g, u) && (g[u].op.Pad? || g[u].op.Shrink?)
      requires exact ==> Means(g, env, g[u].src[0], a)
      modifies this`built
      ensures r.Ok? <==> Decodable(g, u)
      ensures r.Ok? && exact ==> Means(g, env, u, r.term)
      ensures r.Ok? ==> Windowed(g, u, a, r.term)
      ensures built == old(built) + if r.Ok? then Cost(g, u) else 0
    {
      var n := g[u];
      var from := g[n.src[0]].shape;
      ghost var x, marg := Den(g, env, n.src[0]), PairsOf(n.op.params, |from|);
      var bounds := MovementBounds(n.op.Pad?, from, n.op.params);
      if bounds.None? { return NotImplemented; }
      var t;
      if n.op.Pad? {
        if exact { PadDenotes(env, a, from, marg, bounds.value, n.shape, x); }
        t := Make(TPad(a, bounds.value));
      } else {
        if exact { ShrinkDenotes(env, a, from, marg, bounds.value, n.shape, x); }
        t := Make(TShrink(a, bounds.value));
      }
      return Ok(t);
    }

    predicate Movement(op: Op) {
      op.Reshape? || op.Expand? || op.Permute? || op.Flip?
    }

    method BuildElementwise(g: seq<UOp>, u: nat, ts: seq<Term>, ghost env: Env, ghost exact: bool) returns (t: Term)
      requires Graph(g) && u < |g| && Elementwise(g[u].op) && |ts| == |g[u].src|
      requires NodeOk(g, u) && (exact ==> Exact(g, env, u) && forall i :: 0 <= i < |ts| ==> Means(g, env, g[u].src[i], ts[i]))
      modifies this`built
      ensures exact ==> Means(g, env, u, t)
      ensures built == old(built) + Cost(g, u)
    {
      var n := g[u];
      if exact { ElementwiseMeans(g, u, ts, env); }
      if n.op.Unary? {
        t := Make(TUnary(n.op.f, ts[0]));
      } else if n.op.Sub? {
        var minus := Make(TUnary(Neg, ts[1]));
        t := Make(TBinary(ADD, ts[0], minus));
      } else if n.op.Max? {
        t := BuildMax(ts[0], ts[1]);
      } else if n.op.CmpNe? {
        var eq := Make(TBinary(CMPEQ, ts[0], ts[1]));
        var one := Make(TConst(1.0));
        var minus := Make(TUnary(Neg, eq));
        t := Make(TBinary(ADD, one, minus));
      } else if n.op.Where? {
        t := Make(TWhere(ts[0], ts[1], ts[2]));
      } else {
        t := Make(TBinary(if n.op.Add? then ADD else if n.op.Mul? then MUL else CMPLT, ts[0], ts[1]));
      }
    }

    // A cast or a reinterpretation: one conversion.
    method BuildCast(g: seq<UOp>, u: nat, ts: seq<Term>, ghost env: Env, ghost exact: bool) returns (t: Term)
      requires Graph(g) && u < |g| && (g[u].op.Cast? || g[u].op.Bitcast?) && |ts| == |g[u].src|
      requires NodeOk(g, u) && (exact ==> Exact(g, env, u) && forall i :: 0 <= i < |ts| ==> Means(g, env, g[u].src[i], ts[i]))
      modifies this`built
      ensures exact ==> Means(g, env, u, t)
      ensures built == old(built) + Cost(g, u)
    {
      var n := g[u];
      if exact {
        if n.op.Cast? {
          CastDenotesIff(env, n.op.dt, ts[0], n.shape, Den(g, env, n.src[0]));
        } else {
          BitcastDenotes(env, n.op.from, n.op.dt, ts[0], n.shape, Den(g, env, n.src[0]));
        }
      }
      t := Make(TCast(n.op.dt.named, ts[0]));
    }

    method BuildMax(a: Term, b: Term) returns (t: Term)
      modifies this`built
      ensures t == MaxTerm(a, b) && built == old(built) + 7
    {
      var less := Make(TBinary(CMPLT, a, b));
      var one := Make(TConst(1.0));
      var minus := Make(TUnary(Neg, less));
      var notLess := Make(TBinary(ADD, one, minus));
      var left := Make(TBinary(MUL, less, b));
      var right := Make(TBinary(MUL, notLess, a));
      t := Make(TBinary(ADD, left, right));
    }

    method BuildMovement(g: seq<UOp>, u: nat, ts: seq<Term>, ghost env: Env, ghost exact: bool) returns (t: Term)
      requires Graph(g) && u < |g| && Movement(g[u].op) && |ts| == |g[u].src|
      requires NodeOk(g, u) && (exact ==> Exact(g, env, u) && forall i :: 0 <= i < |ts| ==> Means(g, env, g[u].src[i], ts[i]))
      modifies this`built
      ensures exact ==> Means(g, env, u, t)
      ensures built == old(built) + Cost(g, u)
    {
      var n := g[u];
      var from := g[n.src[0]].shape;
      ghost var x := Den(g, env, n.src[0]);
      if n.op.Reshape? {
        if exact { ReshapeDenotes(env, ts[0], from, n.shape, x); }
        t := Make(TReshape(ts[0], n.shape));
      } else if n.op.Expand? {
        if exact { ExpandDenotes(env, ts[0], from, n.shape, x); }
        t := Make(TExpand(ts[0], n.shape));
      } else if n.op.Permute? {
        if exact { PermuteDenotes(env, ts[0], from, n.op.perm, x); }
        t := Make(TPermute(ts[0], n.op.perm));
      } else {
        var mask := FlipMask(n.op.flips);
        if exact { FlipDenotes(env, ts[0], n.shape, n.op.flips, mask, x); }
        t := Make(TFlip(ts[0], mask));
      }
    }

    // The memo after a walk that tried to add the nodes in todo: nothing lost
    // or changed, and nothing beyond todo added.
    twostate predicate Grown(todo: set<nat>)
      reads this
    {
      && old(memo.Keys) <= memo.Keys <= old(memo.Keys) + todo
      && forall v :: v in old(memo) ==> memo[v] == old(memo)[v]
    }

    // Translates u, reusing every entry already made.  It fails exactly when an
    // operation without a lowering is reached; on success it has added u and
    // everything below it, and nothing else.
    method Emit(g: seq<UOp>, u: nat, ghost env: Env) returns (r: Result)
      requires Graph(g) && u < |g| && Valid(g, env)
      modifies this
      ensures Valid(g, env) && Grown(Reach(g, u))
      ensures r.Ok? <==> Supported(g, u)
      ensures r.Ok? ==> u in memo && r.term == memo[u] && Reach(g, u) <= memo.Keys
      decreases u, 1
    {
      assert NodeOk(g, u);
      if u in memo { return Ok(memo[u]); }
      if g[u].op.Unmapped? { return NotImplemented; }
      var ok, ts := EmitOperands(g, u, env);
      if !ok { return NotImplemented; }
      assert u !in memo.Keys by { BelowOnly(g, g[u].src, u); }
      ghost var exact := AllExact(g, env, Reach(g, u));
      if exact {
        forall i | 0 <= i < |ts| ensures Means(g, env, g[u].src[i], ts[i]) {
          EntriesAt(memo, g[u].src, ts, i);
          ReachAt(g, g[u].src, u, i);
        }
      }
      r := Build(g, u, ts, env, exact);
      if r.Ok? { Record(g, u, r.term, env); }
    }

    // Translates the operands of u from left to right, up to the first failure.
    method EmitOperands(g: seq<UOp>, u: nat, ghost env: Env) returns (ok: bool, ts: seq<Term>)
      requires Graph(g) && u < |g| && NodeOk(g, u) && Valid(g, env)
      modifies this
      ensures Valid(g, env) && Grown(ReachAll(g, g[u].src, u))
      ensures ok <==> AllSupported(g, g[u].src, u)
      ensures ok ==> Entries(memo, g[u].src, ts) && ReachAll(g, g[u].src, u) <= memo.Keys
      decreases u, 0
    {
      ts := [];
      var src := g[u].src;
      for i := 0 to |src|
        invariant Valid(g, env) && |ts| == i && Grown(ReachAll(g, src[..i], u))
        invariant ReachAll(g, src[..i], u) <= memo.Keys
        invariant AllSupported(g, src[..i], u) && Entries(memo, src[..i], ts)
      {
        ghost var before := memo;
        OneMore(g, src, i, u);
        var operand := Emit(g, src[i], env);
        if operand.NotImplemented? {
          return false, [];
        }
        EntriesGrow(before, memo, src[..i], ts);
        EntriesMore(memo, src, i, ts, operand.term);
        ts := ts + [operand.term];
      }
      assert src[..|src|] == src;
      return true, ts;
    }

    method Record(g: seq<UOp>, u: nat, t: Term, ghost env: Env)
      requires Graph(g) && u < |g| && u !in memo.Keys && Entails(g, env, u, t) && Supported(g, u) && NodeOk(g, u)
      requires forall v :: v in memo ==> v < |g| && Entails(g, env, v, memo[v]) && Supported(g, v) && Reach(g, v) <= memo.Keys
      requires ReachAll(g, g[u].src, u) <= memo.Keys && built == TotalCost(g, memo.Keys, |g|) + Cost(g, u)
      modifies this`memo
      ensures Valid(g, env) && memo == old(memo)[u := t]
    {
      TotalCostAdd(g, memo.Keys, u, |g|);
      assert memo[u := t].Keys == memo.Keys + {u};
      memo := memo[u := t];
    }
  }

  lemma {:induction false} ReachGrows(g: seq<UOp>, src: seq<nat>, i: nat, u: nat)
    requires Graph(g) && u <= |g| && (forall j :: 0 <= j < |src| ==> src[j] < u) && i <= |src|
    ensures ReachAll(g, src[..i], u) <= ReachAll(g, src, u)
    decreases |src|
  {
    if i < |src| {
      assert src[..|src| - 1][..i] == src[..i];
      ReachGrows(g, src[..|src| - 1], i, u);
    } else {
      assert src[..i] == src;
    }
  }

  lemma {:induction false} ReachAt(g: seq<UOp>, src: seq<nat>, u: nat, i: nat)
    requires Graph(g) && u <= |g| && (forall j :: 0 <= j < |src| ==> src[j] < u) && i < |src|
    ensures Reach(g, src[i]) <= ReachAll(g, src, u)
    decreases |src|
  {
    if i < |src| - 1 { ReachAt(g, src[..|src| - 1], u, i); }
  }

  lemma OneMore(g: seq<UOp>, src: seq<nat>, i: nat, u: nat)
    requires Graph(g) && u <= |g| && (forall j :: 0 <= j < |src| ==> src[j] < u) && i < |src|
    ensures ReachAll(g, src[..i + 1], u) == ReachAll(g, src[..i], u) + Reach(g, src[i])
    ensures ReachAll(g, src[..i + 1], u) <= ReachAll(g, src, u)
    ensures AllSupported(g, src[..i + 1], u) <==> AllSupported(g, src[..i], u) && Supported(g, src[i])
    ensures !Supported(g, src[i]) ==> !AllSupported(g, src, u)
  {
    assert src[..i + 1][..i] == src[..i];
    ReachGrows(g, src, i + 1, u);
    if !Supported(g, src[i]) { Unsupported(g, src, i, u); }
  }

  // Operands only reach earlier nodes.
  lemma {:induction false} BelowOnly(g: seq<UOp>, src: seq<nat>, u: nat)
    requires Graph(g) && u <= |g| && forall j :: 0 <= j < |src| ==> src[j] < u
    ensures forall v :: v in ReachAll(g, src, u) ==> v < u
    decreases u, |src|
  {
    if src != [] {
      var last := src[|src| - 1];
      BelowOnly(g, src[..|src| - 1], u);
      assert NodeOk(g, last);
      BelowOnly(g, g[last].src, last);
      assert ReachAll(g, src, u) == ReachAll(g, src[..|src| - 1], u) + Reach(g, last);
      assert Reach(g, last) == {last} + ReachAll(g, g[last].src, last);
    }
  }

  // The whole translation from an empty memo: the root's term denotes the root,
  // and exactly the reachable nodes are built, each once.
  method Translate(g: seq<UOp>, root: nat, ghost env: Env) returns (r: Result, terms: nat)
    requires Graph(g) && root < |g|
    ensures r.Ok? <==> Supported(g, root)
    ensures r.Ok? && AllExact(g, env, Reach(g, root)) ==> Means(g, env, root, r.term)
    ensures r.Ok? ==> terms == TotalCost(g, Reach(g, root), |g|)
  {
    var tr := new Translator();
    TotalCostEmpty(g, |g|);
    assert tr.memo.Keys == {};
    r := tr.Emit(g, root, env);
    terms := tr.built;
    assert r.Ok? ==> tr.memo.Keys == Reach(g, root);
  }
}
