// Each operation's lowering denotes the operation, for every shape and value.
module Lowering {
  import opened Tensors
  import opened FromTinygrad
  import opened Casts
  import opened Digits

  // ---- elementwise operations ----

  // t, read at every index of shape if it is a scalar, is f there.
  ghost predicate Spreads(env: Env, t: Term, shape: seq<nat>, f: Index -> real) {
    && (ShapeOf(t) == [] || ShapeOf(t) == shape)
    && Agree(shape, Spread(ShapeOf(t), Value(env, t)), f)
  }

  lemma DenotesSpreads(env: Env, t: Term, shape: seq<nat>, f: Index -> real)
    requires Denotes(env, t, shape, f)
    ensures Spreads(env, t, shape, f)
  {
    forall idx | InBox(idx, shape) ensures Spread(ShapeOf(t), Value(env, t))(idx) == f(idx) {
      assert shape == [] ==> idx == [];
    }
  }

  ghost function Map2(op: BinOp, f: Index -> real, h: Index -> real): Index -> real {
    idx => Binary(op, f(idx), h(idx))
  }

  lemma BinaryDenotes(env: Env, op: BinOp, a: Term, b: Term, shape: seq<nat>, f: Index -> real, h: Index -> real)
    requires Spreads(env, a, shape, f) && Spreads(env, b, shape, h)
    requires ShapeOf(a) == shape || ShapeOf(b) == shape
    ensures Denotes(env, TBinary(op, a, b), shape, Map2(op, f, h))
  {
  }

  lemma UnaryDenotes(env: Env, f: UnaryOp, a: Term, shape: seq<nat>, x: Index -> real)
    requires Denotes(env, a, shape, x)
    ensures Denotes(env, TUnary(f, a), shape, idx => UnaryValue(env, f, x(idx)))
  {
  }

  lemma ConstSpreads(env: Env, v: real, shape: seq<nat>)
    ensures Spreads(env, TConst(v), shape, _ => v)
  {
  }

  // A cast is lowered to the conversion its type's name asks for, which is right
  // exactly when every value of the tensor survives it.
  lemma CastDenotesIff(env: Env, dt: DType, a: Term, shape: seq<nat>, f: Index -> real)
    requires Denotes(env, a, shape, f)
    ensures Denotes(env, TCast(dt.named, a), shape, Mapped(x => CastTo(dt.kind, x), f)) <==>
            forall idx :: InBox(idx, shape) ==> Survives(dt, f(idx))
  {
    var t, h := Value(env, TCast(dt.named, a)), Mapped(x => CastTo(dt.kind, x), f);
    forall idx | InBox(idx, shape) ensures t(idx) == h(idx) <==> Survives(dt, f(idx)) { CastKeptIff(dt, f(idx)); }
  }

  // The same lowering for a reinterpretation: values of one format survive as
  // for a cast, and between 32-bit integers and floats only zero does.
  ghost predicate RereadSurvives(env: Env, from: Kind, dt: DType, x: real) {
    if SameFormat(from, dt.kind) then Survives(dt, x)
    else if from == INT32 && dt.kind.Float? then !dt.named && x == 0.0
    else from.Float? && dt.kind == INT32 && dt.named && x == 0.0 && env.word(x) == 0
  }

  predicate SameFormat(from: Kind, to: Kind) {
    (from.Float? && to.Float?) || (from.Int? && to.Int? && from.width == to.width)
  }

  // A 32-bit integer n reread as a float is what the conversion makes of it
  // only if it is zero.
  lemma IntBitsKeptIff(env: Env, n: int)
    requires InRange(INT32, n) && Finite(n % 0x1_0000_0000)
    ensures Reread(env, INT32, Float, n as real) == Convert(false, n as real) <==> n == 0
  {
    var b := n % 0x1_0000_0000;
    TruncatedInt(n);
    assert IntOf(b) == n;
    if n == 0 { ZeroWord(b); } else { OnlyZeroAgrees(b); }
  }

  // And a float in the range of 32-bit integers only if its word is zero.
  lemma FloatBitsKeptIff(env: Env, x: real)
    requires Finite(env.word(x)) && FloatOf(env.word(x)) == x && InRange(INT32, Truncated(x))
    ensures Reread(env, Float, INT32, x) == Convert(true, x) <==> env.word(x) == 0
  {
    WrapFixed(INT32, Truncated(x));
    if env.word(x) == 0 { ZeroWord(env.word(x)); } else { OnlyZeroAgrees(env.word(x)); }
  }

  lemma RereadKept(env: Env, from: Kind, dt: DType, x: real)
    requires RereadSurvives(env, from, dt, x)
    ensures Reread(env, from, dt.kind, x) == Convert(dt.named, x)
  {
    if SameFormat(from, dt.kind) {
      CastKeptIff(dt, x);
    } else {
      var b := if dt.kind.Float? then 0 else env.word(x);
      ZeroWord(b);
      if dt.kind.Float? { IntBitsKeptIff(env, b); } else { FloatBitsKeptIff(env, x); }
    }
  }

  lemma BitcastDenotes(env: Env, from: Kind, dt: DType, a: Term, shape: seq<nat>, f: Index -> real)
    requires Denotes(env, a, shape, f) && forall idx :: InBox(idx, shape) ==> RereadSurvives(env, from, dt, f(idx))
    ensures Denotes(env, TCast(dt.named, a), shape, Mapped(x => Reread(env, from, dt.kind, x), f))
  {
    forall idx | InBox(idx, shape) ensures Reread(env, from, dt.kind, f(idx)) == Convert(dt.named, f(idx)) {
      RereadKept(env, from, dt, f(idx));
    }
  }

  // The word of 1.0 is the integer 1065353216, and is converted to that.
  lemma BitcastInput(env: Env)
    ensures Reread(env, INT32, Float, 1065353216.0) == 1.0 && Convert(false, 1065353216.0) == 1065353216.0
  {
    OneWord();
    assert Truncated(1065353216.0) == 1065353216 == 0x3F80_0000;
  }

  // Integer constants are stored in 32 bits: exact exactly in that range.
  lemma IConstDenotesIff(env: Env, n: int)
    ensures Denotes(env, TIConst(Wrap(INT32, n)), [], _ => n as real) <==> InRange(INT32, n)
  {
    WrapFixed(INT32, n);
    assert InBox([], []);
    var v := Value(env, TIConst(Wrap(INT32, n)));
    assert v([]) == Wrap(INT32, n) as real;
  }

  // 1 - c.
  function NotTerm(c: Term): Term {
    TBinary(ADD, TConst(1.0), TUnary(Neg, c))
  }

  lemma NotDenotes(env: Env, c: Term, shape: seq<nat>, x: Index -> real)
    requires Denotes(env, c, shape, x)
    ensures Denotes(env, NotTerm(c), shape, idx => 1.0 - x(idx))
  {
    var minus := idx => UnaryValue(env, Neg, x(idx));
    UnaryDenotes(env, Neg, c, shape, x);
    DenotesSpreads(env, TUnary(Neg, c), shape, minus);
    ConstSpreads(env, 1.0, shape);
    BinaryDenotes(env, ADD, TConst(1.0), TUnary(Neg, c), shape, _ => 1.0, minus);
  }

  // a - b as a + (-b).
  function SubTerm(a: Term, b: Term): Term {
    TBinary(ADD, a, TUnary(Neg, b))
  }

  lemma SubDenotes(env: Env, a: Term, b: Term, shape: seq<nat>, x: Index -> real, y: Index -> real)
    requires Denotes(env, a, shape, x) && Denotes(env, b, shape, y)
    ensures Denotes(env, SubTerm(a, b), shape, idx => x(idx) - y(idx))
  {
    var minus := idx => UnaryValue(env, Neg, y(idx));
    UnaryDenotes(env, Neg, b, shape, y);
    DenotesSpreads(env, TUnary(Neg, b), shape, minus);
    DenotesSpreads(env, a, shape, x);
    BinaryDenotes(env, ADD, a, TUnary(Neg, b), shape, x, minus);
  }

  // a != b as 1 - (a == b).
  function NeTerm(a: Term, b: Term): Term {
    NotTerm(TBinary(CMPEQ, a, b))
  }

  lemma NeDenotes(env: Env, a: Term, b: Term, shape: seq<nat>, x: Index -> real, y: Index -> real)
    requires Denotes(env, a, shape, x) && Denotes(env, b, shape, y)
    ensures Denotes(env, NeTerm(a, b), shape, idx => Truth(x(idx) != y(idx)))
  {
    DenotesSpreads(env, a, shape, x);
    DenotesSpreads(env, b, shape, y);
    BinaryDenotes(env, CMPEQ, a, b, shape, x, y);
    NotDenotes(env, TBinary(CMPEQ, a, b), shape, Map2(CMPEQ, x, y));
  }

  // max(a, b) as (a < b) * b + (1 - (a < b)) * a.
  function MaxTerm(a: Term, b: Term): Term {
    var less := TBinary(CMPLT, a, b);
    TBinary(ADD, TBinary(MUL, less, b), TBinary(MUL, NotTerm(less), a))
  }

  // (a < b) * b and (1 - (a < b)) * a.
  lemma MaxParts(env: Env, a: Term, b: Term, shape: seq<nat>, x: Index -> real, y: Index -> real)
    requires Denotes(env, a, shape, x) && Denotes(env, b, shape, y)
    ensures var less, l := TBinary(CMPLT, a, b), Map2(CMPLT, x, y);
      && Denotes(env, TBinary(MUL, less, b), shape, Map2(MUL, l, y))
      && Denotes(env, TBinary(MUL, NotTerm(less), a), shape, Map2(MUL, idx => 1.0 - l(idx), x))
  {
    var less, l := TBinary(CMPLT, a, b), Map2(CMPLT, x, y);
    var n := idx => 1.0 - l(idx);
    DenotesSpreads(env, a, shape, x);
    DenotesSpreads(env, b, shape, y);
    BinaryDenotes(env, CMPLT, a, b, shape, x, y);
    DenotesSpreads(env, less, shape, l);
    NotDenotes(env, less, shape, l);
    DenotesSpreads(env, NotTerm(less), shape, n);
    BinaryDenotes(env, MUL, less, b, shape, l, y);
    BinaryDenotes(env, MUL, NotTerm(less), a, shape, n, x);
  }

  lemma MaxDenotes(env: Env, a: Term, b: Term, shape: seq<nat>, x: Index -> real, y: Index -> real)
    requires Denotes(env, a, shape, x) && Denotes(env, b, shape, y)
    ensures Denotes(env, MaxTerm(a, b), shape, idx => if x(idx) < y(idx) then y(idx) else x(idx))
  {
    var less, l := TBinary(CMPLT, a, b), Map2(CMPLT, x, y);
    var p, q := Map2(MUL, l, y), Map2(MUL, idx => 1.0 - l(idx), x);
    MaxParts(env, a, b, shape, x, y);
    DenotesSpreads(env, TBinary(MUL, less, b), shape, p);
    DenotesSpreads(env, TBinary(MUL, NotTerm(less), a), shape, q);
    BinaryDenotes(env, ADD, TBinary(MUL, less, b), TBinary(MUL, NotTerm(less), a), shape, p, q);
    forall idx: Index ensures Map2(ADD, p, q)(idx) == if x(idx) < y(idx) then y(idx) else x(idx) {
      assert p(idx) == Truth(x(idx) < y(idx)) * y(idx);
      assert q(idx) == (1.0 - Truth(x(idx) < y(idx))) * x(idx);
      Select(x(idx), y(idx));
    }
  }

  lemma Select(x: real, y: real)
    ensures Truth(x < y) * y + (1.0 - Truth(x < y)) * x == if x < y then y else x
  {
  }

  lemma WhereDenotes(env: Env, c: Term, a: Term, b: Term, shape: seq<nat>, w: Index -> real, x: Index -> real, y: Index -> real)
    requires Denotes(env, c, shape, w) && Denotes(env, a, shape, x) && Denotes(env, b, shape, y)
    ensures Denotes(env, TWhere(c, a, b), shape, idx => if w(idx) != 0.0 then x(idx) else y(idx))
  {
    DenotesSpreads(env, c, shape, w);
    DenotesSpreads(env, a, shape, x);
    DenotesSpreads(env, b, shape, y);
  }

  // ---- movement ----

  lemma ReshapeDenotes(env: Env, a: Term, from: seq<nat>, to: seq<nat>, x: Index -> real)
    requires Denotes(env, a, from, x) && Size(from) == Size(to)
    ensures Denotes(env, TReshape(a, to), to, Reshaped(from, to, x))
  {
    forall idx | InBox(idx, to) ensures Value(env, TReshape(a, to))(idx) == Reshaped(from, to, x)(idx) {
      FlattenFits(to, idx);
      UnflattenInBox(from, Flatten(to, idx));
    }
  }

  lemma ExpandDenotes(env: Env, a: Term, from: seq<nat>, to: seq<nat>, x: Index -> real)
    requires Denotes(env, a, from, x) && |from| == |to|
    requires forall d :: 0 <= d < |from| ==> from[d] == to[d] || from[d] == 1
    ensures Denotes(env, TExpand(a, to), to, idx => x(ExpandIndex(from, idx)))
  {
    forall idx | InBox(idx, to) ensures InBox(ExpandIndex(from, idx), from) { }
  }

  lemma PermuteDenotes(env: Env, a: Term, shape: seq<nat>, perm: seq<nat>, x: Index -> real)
    requires Denotes(env, a, shape, x) && |perm| == |shape| && forall j :: 0 <= j < |shape| ==> j in perm
    ensures Denotes(env, TPermute(a, perm), PermuteShape(perm, shape), idx => x(PermuteIndex(perm, idx)))
  {
    forall idx | InBox(idx, PermuteShape(perm, shape)) ensures InBox(PermuteIndex(perm, idx), shape) {
      forall j | 0 <= j < |shape| ensures PermuteIndex(perm, idx)[j] < shape[j] {
        FindFinds(perm, j);
        assert idx[Find(perm, j)] < PermuteShape(perm, shape)[Find(perm, j)];
      }
    }
  }

  // begin = offset, end = size - offset - extent of the input.
  ghost predicate PadBounds(shape: seq<nat>, marg: seq<(nat, nat)>, bounds: seq<nat>) {
    |marg| == |shape| && forall d :: 0 <= d < |shape| ==>
      Begin(bounds, d) == marg[d].0 && Begin(bounds, d) + shape[d] + End(bounds, d) == marg[d].1
  }

  // begin = offset, end = offset + size.
  ghost predicate ShrinkBounds(shape: seq<nat>, marg: seq<(nat, nat)>, bounds: seq<nat>) {
    |marg| == |shape| && forall d :: 0 <= d < |shape| ==>
      Begin(bounds, d) == marg[d].0 && End(bounds, d) == marg[d].0 + marg[d].1
  }

  // bounds holds begin0, end0, begin1, end1, ... as the parameters ask.
  ghost predicate Decoded(pad: bool, shape: seq<nat>, params: Params, bounds: seq<nat>) {
    && |bounds| == 2 * |shape|
    && forall d :: 0 <= d < |shape| ==> DecodedAt(pad, shape[d], params, d, bounds[2 * d], bounds[2 * d + 1])
  }

  // The offset is begin.  The size is that of the padded tensor, or of the slice
  // from begin to end.  Both come from the attribute if there is one, else from
  // the last two constants, else from the argument.
  ghost predicate DecodedAt(pad: bool, extent: nat, params: Params, d: nat, begin: nat, end: nat) {
    var size, n := if pad then begin + extent + end else end - begin, |params.consts|;
    if params.marg.Some? then d < |params.marg.value| && params.marg.value[d].0 == begin && params.marg.value[d].1 == size
    else if n >= 2 then Reads(params.consts[n - 2], d, begin) && Reads(params.consts[n - 1], d, size)
    else params.arg.Some? && d < |params.arg.value| && params.arg.value[d].0 == begin && params.arg.value[d].1 == size
  }

  // A vector has x as its entry d, a scalar is x.
  ghost predicate Reads(e: Extents, d: nat, x: int) {
    match e
    case Vector(v) => d < |v| && v[d] == x
    case Scalar(k) => k == x
  }

  // Decodes the (offset, size) pairs, wherever they are kept, into
  // [begin0, end0, begin1, end1, ...]; reports nothing if there are none.
  method MovementBounds(pad: bool, shape: seq<nat>, params: Params) returns (bounds: Maybe<seq<nat>>)
    requires Pairs(params, |shape|).Some? ==>
               var marg := Pairs(params, |shape|).value;
               |marg| == |shape| && (pad ==> forall d :: 0 <= d < |shape| ==> marg[d].0 + shape[d] <= marg[d].1)
    ensures bounds.Some? <==> params.marg.Some? || |params.consts| >= 2 || params.arg.Some?
    ensures bounds.Some? ==> Decoded(pad, shape, params, bounds.value)
    ensures bounds.Some? <==> Pairs(params, |shape|).Some?
    ensures bounds.Some? ==>
              var marg := Pairs(params, |shape|).value;
              if pad then PadBounds(shape, marg, bounds.value) else ShrinkBounds(shape, marg, bounds.value)
  {
    if params.marg.Some? {
      var flat := Interleave(pad, shape, params.marg.value);
      return Some(flat);
    }
    if |params.consts| >= 2 {
      var offsets := Spell(params.consts[|params.consts| - 2], |shape|);
      var sizes := Spell(params.consts[|params.consts| - 1], |shape|);
      var pairs := Zip(offsets, sizes);
      assert pairs == Pairs(params, |shape|).value;
      var flat := Interleave(pad, shape, pairs);
      forall d | 0 <= d < |shape| ensures DecodedAt(pad, shape[d], params, d, flat[2 * d], flat[2 * d + 1]) {
        assert pairs[d] == (offsets[d], sizes[d]);
        assert Begin(flat, d) == offsets[d];
      }
      return Some(flat);
    }
    if params.arg.Some? {
      var flat := Interleave(pad, shape, params.arg.value);
      return Some(flat);
    }
    return None;
  }

  // A constant operand as one entry per dimension.
  method Spell(e: Extents, rank: nat) returns (v: seq<nat>)
    ensures |v| == EntryCount(e, rank) && forall d :: 0 <= d < |v| ==> v[d] == EntryAt(e, d) && Reads(e, d, v[d])
  {
    if e.Vector? { return e.entries; }
    v := [];
    for d := 0 to rank
      invariant |v| == d && forall c :: 0 <= c < d ==> v[c] == e.entry
    {
      v := v + [e.entry];
    }
  }

  method Zip(a: seq<nat>, b: seq<nat>) returns (pairs: seq<(nat, nat)>)
    ensures |pairs| == if |a| <= |b| then |a| else |b|
    ensures forall d :: 0 <= d < |pairs| ==> pairs[d] == (a[d], b[d])
  {
    pairs := [];
    while |pairs| < |a| && |pairs| < |b|
      invariant |pairs| <= |a| && |pairs| <= |b|
      invariant forall d :: 0 <= d < |pairs| ==> pairs[d] == (a[d], b[d])
    {
      pairs := pairs + [(a[|pairs|], b[|pairs|])];
    }
  }

  // One begin and one end per dimension.
  method Interleave(pad: bool, shape: seq<nat>, marg: seq<(nat, nat)>) returns (bounds: seq<nat>)
    requires |marg| == |shape|
    requires pad ==> forall d :: 0 <= d < |shape| ==> marg[d].0 + shape[d] <= marg[d].1
    ensures if pad then PadBounds(shape, marg, bounds) else ShrinkBounds(shape, marg, bounds)
    ensures |bounds| == 2 * |shape|
  {
    bounds := [];
    for d := 0 to |marg|
      invariant |bounds| == 2 * d
      invariant forall e :: 0 <= e < d ==>
                  bounds[2 * e] == marg[e].0 &&
                  bounds[2 * e + 1] == if pad then marg[e].1 - marg[e].0 - shape[e] else marg[e].0 + marg[e].1
    {
      var offset, size := marg[d].0, marg[d].1;
      var end := if pad then size - offset - shape[d] else offset + size;
      bounds := bounds + [offset, end];
    }
  }

  lemma PadDenotes(env: Env, a: Term, shape: seq<nat>, marg: seq<(nat, nat)>, bounds: seq<nat>, to: seq<nat>, x: Index -> real)
    requires Denotes(env, a, shape, x) && PadBounds(shape, marg, bounds)
    requires |to| == |shape| && forall d :: 0 <= d < |shape| ==> to[d] == marg[d].1
    ensures Denotes(env, TPad(a, bounds), to, idx => if PadHits(shape, marg, idx) then x(PadIndex(marg, idx)) else 0.0)
  {
    var t := TPad(a, bounds);
    assert ShapeOf(t) == to;
    forall idx | InBox(idx, to)
      ensures Value(env, t)(idx) == if PadHits(shape, marg, idx) then x(PadIndex(marg, idx)) else 0.0
    {
      assert PadHits(shape, marg, idx) <==> PadInside(shape, bounds, idx);
      assert BackBy(|shape|, bounds, idx) == PadIndex(marg, idx);
    }
  }

  lemma ShrinkDenotes(env: Env, a: Term, shape: seq<nat>, marg: seq<(nat, nat)>, bounds: seq<nat>, to: seq<nat>, x: Index -> real)
    requires Denotes(env, a, shape, x) && ShrinkBounds(shape, marg, bounds)
    requires |to| == |shape| && forall d :: 0 <= d < |shape| ==> marg[d].0 + marg[d].1 <= shape[d] && to[d] == marg[d].1
    ensures Denotes(env, TShrink(a, bounds), to, idx => x(ShrinkIndex(marg, idx)))
  {
    var t := TShrink(a, bounds);
    assert ShapeOf(t) == to;
    forall idx | InBox(idx, to) ensures Value(env, t)(idx) == x(ShrinkIndex(marg, idx)) {
      assert ForwardBy(|shape|, bounds, idx) == ShrinkIndex(marg, idx);
      assert InBox(ShrinkIndex(marg, idx), shape);
    }
  }

  // ---- flip masks ----

  lemma {:induction false} BitAdd(mask: nat, i: nat, d: nat)
    requires mask < Pow2(i)
    ensures Bit(mask + Pow2(i), d) <==> Bit(mask, d) || d == i
    ensures i <= d ==> !Bit(mask, d)
    ensures mask + Pow2(i) < Pow2(i + 1)
    decreases i, d
  {
    if i == 0 {
      ZeroBit(d);
      if d > 0 { ZeroBit(d - 1); }
    } else {
      assert (mask + Pow2(i)) / 2 == mask / 2 + Pow2(i - 1) && (mask + Pow2(i)) % 2 == mask % 2;
      if d > 0 { BitAdd(mask / 2, i - 1, d - 1); }
    }
  }

  lemma {:induction false} ZeroBit(d: nat)
    ensures !Bit(0, d)
  {
    if d > 0 { ZeroBit(d - 1); }
  }

  // Sets bit i for each flipped dimension i; no other bit is set.
  method FlipMask(flips: seq<bool>) returns (mask: nat)
    ensures forall d: nat :: Bit(mask, d) <==> d < |flips| && flips[d]
  {
    mask := 0;
    var bit := 1;
    forall d: nat ensures !Bit(0, d) { ZeroBit(d); }
    for i := 0 to |flips|
      invariant bit == Pow2(i) && mask < bit
      invariant forall d: nat :: Bit(mask, d) <==> d < i && flips[d]
    {
      ghost var next := if flips[i] then mask + bit else mask;
      forall d: nat ensures Bit(next, d) <==> d < i + 1 && flips[d] { BitAdd(mask, i, d); }
      BitAdd(mask, i, 0);
      if flips[i] { mask := mask + bit; }
      bit := 2 * bit;
    }
  }

  lemma FlipDenotes(env: Env, a: Term, shape: seq<nat>, flips: seq<bool>, mask: nat, x: Index -> real)
    requires Denotes(env, a, shape, x) && |flips| == |shape|
    requires forall d: nat :: Bit(mask, d) <==> d < |flips| && flips[d]
    ensures Denotes(env, TFlip(a, mask), shape, idx => x(FlipIndex(shape, flips, idx)))
  {
    forall idx | InBox(idx, shape) ensures Value(env, TFlip(a, mask))(idx) == x(FlipIndex(shape, flips, idx)) {
      assert FlipBits(shape, mask, idx) == FlipIndex(shape, flips, idx);
      assert InBox(FlipIndex(shape, flips, idx), shape);
    }
  }
}
