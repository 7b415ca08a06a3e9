// Lowering a lazy operation graph into terms of a smaller operation set: a
// memoized walk that builds every shared node once and keeps its meaning.
module FromTinygrad {
  import opened Casts
  import opened Tensors

  // ---- the source graph ----

  datatype UnaryOp = Recip | Exp2 | Log2 | Sqrt | Neg

  datatype ReduceOp = AddReduce | MaxReduce

  datatype Maybe<T> = None | Some(value: T)

  // Where a pad or shrink keeps its (offset, size) pair per dimension: in an
  // attribute, in its last two constant operands, or in its argument.  A vector
  // constant has an entry per dimension, a scalar one stands for all of them.
  datatype Extents = Vector(entries: seq<nat>) | Scalar(entry: nat)

  datatype Params = Params(marg: Maybe<seq<(nat, nat)>>, consts: seq<Extents>, arg: Maybe<seq<(nat, nat)>>)

  function EntryAt(e: Extents, d: nat): nat {
    if e.Scalar? then e.entry else if d < |e.entries| then e.entries[d] else 0
  }

  function EntryCount(e: Extents, rank: nat): nat {
    if e.Scalar? then rank else |e.entries|
  }

  // The pairs, if there are any: offsets and sizes zipped to the shorter of them.
  function Pairs(p: Params, rank: nat): Maybe<seq<(nat, nat)>> {
    if p.marg.Some? then p.marg
    else if |p.consts| >= 2 then
      var offsets, sizes := p.consts[|p.consts| - 2], p.consts[|p.consts| - 1];
      var n := if EntryCount(offsets, rank) <= EntryCount(sizes, rank) then EntryCount(offsets, rank) else EntryCount(sizes, rank);
      Some(seq(n, d requires 0 <= d < n => (EntryAt(offsets, d), EntryAt(sizes, d))))
    else p.arg
  }

  datatype Op =
    | Buffer(k: nat) | Const(v: real) | IConst(n: int) | Pass | Cast(dt: DType) | Bitcast(from: Kind, dt: DType)
    | Unary(f: UnaryOp) | Sub | Max | CmpNe | Add | Mul | CmpLt | Where
    | Reduce(kind: ReduceOp, axes: set<nat>)
    | Reshape | Expand | Permute(perm: seq<nat>) | Pad(params: Params) | Shrink(params: Params) | Flip(flips: seq<bool>)
    | Unmapped

  // A node names its operands by position in the graph.
  datatype UOp = UOp(op: Op, src: seq<nat>, shape: seq<nat>)

  // What the graph leaves open: leaf data, the transcendental unary
  // operations, the word of a float and the value of a word that is not finite,
  // all other changes of format, and the value a maximum over nothing starts
  // from.
  datatype Env = Env(leaf: nat -> Index -> real, unary: UnaryOp -> real -> real,
                     word: real -> int, special: int -> real, reformat: (Kind, Kind, real) -> real, lowest: real)

  // The bits of a value of one type read as another.
  function Reread(env: Env, from: Kind, to: Kind, x: real): real {
    if from.Int? && to.Int? && from.width == to.width then CastTo(to, x)
    else if from.Float? && to.Float? then x
    else if from == INT32 && to.Float? then
      var b := Truncated(x) % 0x1_0000_0000;
      if Finite(b) then FloatOf(b) else env.special(b)
    else if from.Float? && to == INT32 then IntOf(env.word(x)) as real
    else env.reformat(from, to, x)
  }

  function UnaryValue(env: Env, f: UnaryOp, x: real): real {
    if f.Neg? then -x else env.unary(f)(x)
  }

  function Combine(kind: ReduceOp): (real, real) -> real {
    if kind.AddReduce? then (x, y) => x + y else (x, y) => if x < y then y else x
  }

  function Start(env: Env, kind: ReduceOp): real {
    if kind.AddReduce? then 0.0 else env.lowest
  }

  function Truth(b: bool): real {
    if b then 1.0 else 0.0
  }

  function Operands(op: Op): nat {
    match op
    case Buffer(_) | Const(_) | IConst(_) => 0
    case Sub | Max | CmpNe | Add | Mul | CmpLt => 2
    case Where => 3
    case _ => 1
  }

  // ---- index maps of the movement operations ----

  function ExpandIndex(from: seq<nat>, idx: Index): Index {
    seq(|from|, d requires 0 <= d < |from| => if d < |idx| && from[d] != 1 then idx[d] else 0)
  }

  // The input coordinate j is the output coordinate i with perm[i] = j.
  function Find(perm: seq<nat>, j: nat): nat {
    if perm == [] || perm[0] == j then 0 else 1 + Find(perm[1..], j)
  }

  lemma {:induction false} FindFinds(perm: seq<nat>, j: nat)
    requires j in perm
    ensures Find(perm, j) < |perm| && perm[Find(perm, j)] == j
  {
    if perm[0] != j { FindFinds(perm[1..], j); }
  }

  function PermuteIndex(perm: seq<nat>, idx: Index): Index {
    seq(|perm|, j requires 0 <= j < |perm| => var i := Find(perm, j); if i < |idx| then idx[i] else 0)
  }

  function PermuteShape(perm: seq<nat>, shape: seq<nat>): seq<nat> {
    seq(|perm|, i requires 0 <= i < |perm| => if perm[i] < |shape| then shape[perm[i]] else 0)
  }

  function FlipIndex(shape: seq<nat>, flips: seq<bool>, idx: Index): Index {
    seq(|shape|, d requires 0 <= d < |shape| =>
      if d < |idx| then if d < |flips| && flips[d] && idx[d] < shape[d] then shape[d] - 1 - idx[d] else idx[d] else 0)
  }

  // The source's reading: the input sits at (or is taken from) the offsets.
  ghost predicate PadHits(shape: seq<nat>, marg: seq<(nat, nat)>, idx: Index) {
    |idx| == |shape| == |marg| && forall d :: 0 <= d < |shape| ==> marg[d].0 <= idx[d] < marg[d].0 + shape[d]
  }

  function PadIndex(marg: seq<(nat, nat)>, idx: Index): Index {
    seq(|marg|, d requires 0 <= d < |marg| => if d < |idx| && marg[d].0 <= idx[d] then idx[d] - marg[d].0 else 0)
  }

  ghost predicate PadFits(shape: seq<nat>, marg: seq<(nat, nat)>, to: seq<nat>) {
    |marg| == |shape| == |to| && forall d :: 0 <= d < |shape| ==> marg[d].0 + shape[d] <= marg[d].1 == to[d]
  }

  ghost predicate ShrinkFits(shape: seq<nat>, marg: seq<(nat, nat)>, to: seq<nat>) {
    |marg| == |shape| == |to| && forall d :: 0 <= d < |shape| ==> marg[d].0 + marg[d].1 <= shape[d] && to[d] == marg[d].1
  }

  function PairsOf(params: Params, rank: nat): seq<(nat, nat)> {
    if Pairs(params, rank).Some? then Pairs(params, rank).value else []
  }

  function ShrinkIndex(marg: seq<(nat, nat)>, idx: Index): Index {
    seq(|marg|, d requires 0 <= d < |marg| => if d < |idx| then idx[d] + marg[d].0 else 0)
  }

  function Mapped(h: real -> real, f: Index -> real): Index -> real {
    idx => h(f(idx))
  }

  // ---- meaning of the source ----

  ghost predicate Graph(g: seq<UOp>) {
    forall u :: 0 <= u < |g| ==> NodeOk(g, u)
  }

  // Operands come earlier, and shapes follow each operation's rule.
  ghost predicate NodeOk(g: seq<UOp>, u: nat)
    requires u < |g|
  {
    var n := g[u];
    && (forall i :: 0 <= i < |n.src| ==> n.src[i] < u)
    && (!n.op.Unmapped? ==> |n.src| == Operands(n.op))
    && match n.op
       case Const(_) | IConst(_) => n.shape == []
       case Pass | Cast(_) | Bitcast(_, _) | Unary(_) | Sub | Max | CmpNe | Add | Mul | CmpLt | Where =>
         forall i :: 0 <= i < |n.src| ==> g[n.src[i]].shape == n.shape
       case Reduce(_, axes) =>
         var s := g[n.src[0]].shape; (forall a :: a in axes ==> a < |s|) && n.shape == Kept(s, axes, 0)
       case Reshape => Size(g[n.src[0]].shape) == Size(n.shape)
       case Expand =>
         var s := g[n.src[0]].shape; |s| == |n.shape| && forall d :: 0 <= d < |s| ==> s[d] == n.shape[d] || s[d] == 1
       case Permute(perm) =>
         var s := g[n.src[0]].shape;
         |perm| == |s| && n.shape == PermuteShape(perm, s) && forall j :: 0 <= j < |s| ==> j in perm
       case Pad(params) => var s := g[n.src[0]].shape; Pairs(params, |s|).Some? ==> PadFits(s, Pairs(params, |s|).value, n.shape)
       case Shrink(params) => var s := g[n.src[0]].shape; Pairs(params, |s|).Some? ==> ShrinkFits(s, Pairs(params, |s|).value, n.shape)
       case Flip(flips) => |flips| == |n.shape| && g[n.src[0]].shape == n.shape
       case _ => true
  }

  ghost function Den(g: seq<UOp>, env: Env, u: nat): Index -> real
    requires Graph(g) && u < |g|
    decreases u
  {
    assert NodeOk(g, u);
    var n := g[u];
    match n.op
    case Buffer(k) => env.leaf(k)
    case Const(v) => _ => v
    case IConst(k) => _ => k as real
    case Pass => Den(g, env, n.src[0])
    case Cast(dt) => Mapped(x => CastTo(dt.kind, x), Den(g, env, n.src[0]))
    case Bitcast(from, dt) => Mapped(x => Reread(env, from, dt.kind, x), Den(g, env, n.src[0]))
    case Unary(f) => var a := Den(g, env, n.src[0]); idx => UnaryValue(env, f, a(idx))
    case Sub => var a, b := Den(g, env, n.src[0]), Den(g, env, n.src[1]); idx => a(idx) - b(idx)
    case Max => var a, b := Den(g, env, n.src[0]), Den(g, env, n.src[1]); idx => if a(idx) < b(idx) then b(idx) else a(idx)
    case CmpNe => var a, b := Den(g, env, n.src[0]), Den(g, env, n.src[1]); idx => Truth(a(idx) != b(idx))
    case Add => var a, b := Den(g, env, n.src[0]), Den(g, env, n.src[1]); idx => a(idx) + b(idx)
    case Mul => var a, b := Den(g, env, n.src[0]), Den(g, env, n.src[1]); idx => a(idx) * b(idx)
    case CmpLt => var a, b := Den(g, env, n.src[0]), Den(g, env, n.src[1]); idx => Truth(a(idx) < b(idx))
    case Where =>
      var c, a, b := Den(g, env, n.src[0]), Den(g, env, n.src[1]), Den(g, env, n.src[2]);
      idx => if c(idx) != 0.0 then a(idx) else b(idx)
    case Reduce(kind, axes) =>
      KeepReduce(Combine(kind), Start(env, kind), g[n.src[0]].shape, axes, Den(g, env, n.src[0]))
    case Reshape => Reshaped(g[n.src[0]].shape, n.shape, Den(g, env, n.src[0]))
    case Expand => var a, s := Den(g, env, n.src[0]), g[n.src[0]].shape; idx => a(ExpandIndex(s, idx))
    case Permute(perm) => var a := Den(g, env, n.src[0]); idx => a(PermuteIndex(perm, idx))
    case Pad(params) =>
      var a, s := Den(g, env, n.src[0]), g[n.src[0]].shape;
      var marg := PairsOf(params, |s|);
      idx => if PadHits(s, marg, idx) then a(PadIndex(marg, idx)) else 0.0
    case Shrink(params) =>
      var a := Den(g, env, n.src[0]);
      var marg := PairsOf(params, |g[n.src[0]].shape|);
      idx => a(ShrinkIndex(marg, idx))
    case Flip(flips) => var a := Den(g, env, n.src[0]); idx => a(FlipIndex(n.shape, flips, idx))
    case Unmapped => _ => 0.0
  }

  // ---- the target terms ----

  datatype BinOp = ADD | MUL | CMPLT | CMPEQ

  // Pad and shrink take [begin0, end0, begin1, end1, ...]: widths for a pad,
  // a half-open slice for a shrink.  A reduce drops its axis.
  datatype Term =
    | TLeaf(k: nat, dims: seq<nat>) | TConst(v: real) | TIConst(n: int) | TCast(integral: bool, a: Term)
    | TUnary(f: UnaryOp, a: Term) | TBinary(op: BinOp, a: Term, b: Term) | TWhere(c: Term, a: Term, b: Term)
    | TReduce(kind: ReduceOp, axis: nat, a: Term)
    | TReshape(a: Term, dims: seq<nat>) | TExpand(a: Term, dims: seq<nat>) | TPermute(a: Term, perm: seq<nat>)
    | TPad(a: Term, bounds: seq<nat>) | TShrink(a: Term, bounds: seq<nat>) | TFlip(a: Term, mask: nat)

  function Begin(bounds: seq<nat>, d: nat): nat {
    if 2 * d < |bounds| then bounds[2 * d] else 0
  }

  function End(bounds: seq<nat>, d: nat): nat {
    if 2 * d + 1 < |bounds| then bounds[2 * d + 1] else 0
  }

  function Bit(mask: nat, d: nat): bool
    decreases d
  {
    if d == 0 then mask % 2 == 1 else Bit(mask / 2, d - 1)
  }

  function Widen(a: seq<nat>, b: seq<nat>): seq<nat> {
    if a == [] then b else a
  }

  function ShapeOf(t: Term): seq<nat> {
    match t
    case TLeaf(_, dims) => dims
    case TConst(_) | TIConst(_) => []
    case TCast(_, a) => ShapeOf(a)
    case TUnary(_, a) => ShapeOf(a)
    case TBinary(_, a, b) => Widen(ShapeOf(a), ShapeOf(b))
    case TWhere(c, a, b) => Widen(ShapeOf(c), Widen(ShapeOf(a), ShapeOf(b)))
    case TReduce(_, axis, a) => var s := ShapeOf(a); if axis < |s| then s[..axis] + s[axis + 1..] else s
    case TReshape(_, dims) => dims
    case TExpand(_, dims) => dims
    case TPermute(a, perm) => PermuteShape(perm, ShapeOf(a))
    case TPad(a, bounds) =>
      var s := ShapeOf(a); seq(|s|, d requires 0 <= d < |s| => Begin(bounds, d) + s[d] + End(bounds, d))
    case TShrink(a, bounds) =>
      var s := ShapeOf(a);
      seq(|s|, d requires 0 <= d < |s| => if Begin(bounds, d) <= End(bounds, d) then End(bounds, d) - Begin(bounds, d) else 0)
    case TFlip(a, _) => ShapeOf(a)
  }

  function Binary(op: BinOp, x: real, y: real): real {
    match op
    case ADD => x + y
    case MUL => x * y
    case CMPLT => Truth(x < y)
    case CMPEQ => Truth(x == y)
  }

  // A scalar operand is read at every index.
  ghost function Spread(shape: seq<nat>, f: Index -> real): Index -> real {
    idx => f(if shape == [] then [] else idx)
  }

  ghost predicate PadInside(shape: seq<nat>, bounds: seq<nat>, idx: Index) {
    |idx| == |shape| && forall d :: 0 <= d < |shape| ==> Begin(bounds, d) <= idx[d] < Begin(bounds, d) + shape[d]
  }

  function BackBy(rank: nat, bounds: seq<nat>, idx: Index): Index {
    seq(rank, d requires 0 <= d < rank => if d < |idx| && Begin(bounds, d) <= idx[d] then idx[d] - Begin(bounds, d) else 0)
  }

  function ForwardBy(rank: nat, bounds: seq<nat>, idx: Index): Index {
    seq(rank, d requires 0 <= d < rank => if d < |idx| then idx[d] + Begin(bounds, d) else 0)
  }

  function FlipBits(shape: seq<nat>, mask: nat, idx: Index): Index {
    seq(|shape|, d requires 0 <= d < |shape| =>
      if d < |idx| then if Bit(mask, d) && idx[d] < shape[d] then shape[d] - 1 - idx[d] else idx[d] else 0)
  }

  ghost function Value(env: Env, t: Term): Index -> real {
    match t
    case TLeaf(k, _) => env.leaf(k)
    case TConst(v) => _ => v
    case TIConst(k) => _ => k as real
    case TCast(integral, a) => Mapped(x => Convert(integral, x), Value(env, a))
    case TUnary(f, a) => var x := Value(env, a); idx => UnaryValue(env, f, x(idx))
    case TBinary(op, a, b) =>
      var x, y := Spread(ShapeOf(a), Value(env, a)), Spread(ShapeOf(b), Value(env, b));
      idx => Binary(op, x(idx), y(idx))
    case TWhere(c, a, b) =>
      var w, x, y := Spread(ShapeOf(c), Value(env, c)), Spread(ShapeOf(a), Value(env, a)), Spread(ShapeOf(b), Value(env, b));
      idx => if w(idx) != 0.0 then x(idx) else y(idx)
    case TReduce(kind, axis, a) =>
      var s := ShapeOf(a);
      ReduceAxis(Combine(kind), Start(env, kind), if axis < |s| then s[axis] else 0, axis, Value(env, a))
    case TReshape(a, dims) => Reshaped(ShapeOf(a), dims, Value(env, a))
    case TExpand(a, _) => var x, s := Value(env, a), ShapeOf(a); idx => x(ExpandIndex(s, idx))
    case TPermute(a, perm) => var x := Value(env, a); idx => x(PermuteIndex(perm, idx))
    case TPad(a, bounds) =>
      var x, s := Value(env, a), ShapeOf(a);
      idx => if PadInside(s, bounds, idx) then x(BackBy(|s|, bounds, idx)) else 0.0
    case TShrink(a, bounds) => var x, s := Value(env, a), ShapeOf(a); idx => x(ForwardBy(|s|, bounds, idx))
    case TFlip(a, mask) => var x, s := Value(env, a), ShapeOf(a); idx => x(FlipBits(s, mask, idx))
  }

  // t has the shape of the tensor (shape, f) and agrees with it everywhere.
  ghost predicate Denotes(env: Env, t: Term, shape: seq<nat>, f: Index -> real) {
    ShapeOf(t) == shape && Agree(shape, Value(env, t), f)
  }

  ghost predicate Means(g: seq<UOp>, env: Env, u: nat, t: Term)
    requires Graph(g) && u < |g|
  {
    Denotes(env, t, g[u].shape, Den(g, env, u))
  }

  // ---- what a reduce node means ----

  // Both reduce kinds may fold their start value in any number of times and
  // take their elements in any order; no start value need be a unit.
  lemma CombineReduces(env: Env, kind: ReduceOp)
    ensures Reducer(Combine(kind), Start(env, kind)) && Commutes(Combine(kind))
  {
  }

  // A reduce over at least one axis combines the elements its output index
  // stands for, each once, in any order.
  lemma ReduceNode(g: seq<UOp>, env: Env, u: nat, idx: Index, ps: seq<Index>)
    requires Graph(g) && u < |g| && g[u].op.Reduce? && g[u].op.axes != {} && InBox(idx, g[u].shape)
    requires NodeOk(g, u)
    requires Distinct(ps) && forall q :: q in ps <==> Projects(g[g[u].src[0]].shape, g[u].op.axes, 0, q, idx)
    ensures Den(g, env, u)(idx) == FoldList(Combine(g[u].op.kind), Start(env, g[u].op.kind), Values(Den(g, env, g[u].src[0]), ps))
  {
    var kind, axes, from := g[u].op.kind, g[u].op.axes, g[g[u].src[0]].shape;
    var op, start, f := Combine(kind), Start(env, kind), Den(g, env, g[u].src[0]);
    assert SomeReduced(axes, 0, |from|) by {
      var a :| a in axes;
      assert 0 <= a < 0 + |from|;
    }
    assert Den(g, env, u) == KeepReduce(op, start, from, axes, f);
    ReduceReal(env, kind, from, axes, f, idx, ps);
  }

  lemma ReduceReal(env: Env, kind: ReduceOp, from: seq<nat>, axes: set<nat>, f: Index -> real, idx: Index, ps: seq<Index>)
    requires SomeReduced(axes, 0, |from|) && InBox(idx, Kept(from, axes, 0))
    requires Distinct(ps) && forall q :: q in ps <==> Projects(from, axes, 0, q, idx)
    ensures KeepReduce(Combine(kind), Start(env, kind), from, axes, f)(idx) == FoldList(Combine(kind), Start(env, kind), Values(f, ps))
  {
    CombineReduces(env, kind);
    KeptOrder(from, axes, 0, idx);
    ReduceInAnyOrder(Combine(kind), Start(env, kind), from, axes, f, idx, ps);
  }
}
