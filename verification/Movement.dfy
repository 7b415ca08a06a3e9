// What the movement and reduce nodes of a graph mean, element by element: which
// operand element stands at which index, and which shape results.
module Movement {
  import opened Casts
  import opened Tensors
  import opened FromTinygrad

  // ---- pad and shrink ----

  // The (offset, size) pairs in params: those of the attribute, else the last
  // two constants read per dimension, else the argument.
  ghost predicate Asks(params: Params, pairs: seq<(nat, nat)>) {
    var n := |params.consts|;
    if params.marg.Some? then params.marg.value == pairs
    else if n >= 2 then
      var offsets, sizes := params.consts[n - 2], params.consts[n - 1];
      forall d :: 0 <= d < |pairs| ==>
        && (offsets.Vector? ==> d < |offsets.entries| && offsets.entries[d] == pairs[d].0)
        && (offsets.Scalar? ==> offsets.entry == pairs[d].0)
        && (sizes.Vector? ==> d < |sizes.entries| && sizes.entries[d] == pairs[d].1)
        && (sizes.Scalar? ==> sizes.entry == pairs[d].1)
    else params.arg.Some? && params.arg.value == pairs
  }

  lemma AsksPairs(params: Params, pairs: seq<(nat, nat)>)
    requires Asks(params, pairs) && Pairs(params, |pairs|).Some? && |Pairs(params, |pairs|).value| == |pairs|
    ensures Pairs(params, |pairs|).value == pairs
  {
    var found := Pairs(params, |pairs|).value;
    forall d | 0 <= d < |pairs| ensures found[d] == pairs[d] { }
  }

  // The padded tensor has the requested size; at every index it is either the
  // operand's element that many places back, or zero.
  lemma PadNode(g: seq<UOp>, env: Env, u: nat, pairs: seq<(nat, nat)>, idx: Index)
    requires Graph(g) && u < |g| && g[u].op.Pad? && NodeOk(g, u)
    requires |idx| == |pairs| == |g[g[u].src[0]].shape| && Asks(g[u].op.params, pairs)
    ensures var shape := g[g[u].src[0]].shape;
      && |g[u].shape| == |shape|
      && (forall d :: 0 <= d < |shape| ==> g[u].shape[d] == pairs[d].1)
      && (forall jdx :: InBox(jdx, shape) && (forall d :: 0 <= d < |shape| ==> idx[d] == pairs[d].0 + jdx[d]) ==>
            Den(g, env, u)(idx) == Den(g, env, g[u].src[0])(jdx))
      && ((exists d :: 0 <= d < |shape| && !(pairs[d].0 <= idx[d] < pairs[d].0 + shape[d])) ==> Den(g, env, u)(idx) == 0.0)
  {
    var shape := g[g[u].src[0]].shape;
    AsksPairs(g[u].op.params, pairs);
    assert PairsOf(g[u].op.params, |shape|) == pairs;
    assert Den(g, env, u)(idx) == if PadHits(shape, pairs, idx) then Den(g, env, g[u].src[0])(PadIndex(pairs, idx)) else 0.0;
    forall jdx | InBox(jdx, shape) && (forall d :: 0 <= d < |shape| ==> idx[d] == pairs[d].0 + jdx[d])
      ensures Den(g, env, u)(idx) == Den(g, env, g[u].src[0])(jdx)
    {
      assert PadHits(shape, pairs, idx);
      assert PadIndex(pairs, idx) == jdx;
    }
  }

  // The slice has the requested size and starts at the offset.
  lemma ShrinkNode(g: seq<UOp>, env: Env, u: nat, pairs: seq<(nat, nat)>, idx: Index, jdx: Index)
    requires Graph(g) && u < |g| && g[u].op.Shrink? && NodeOk(g, u)
    requires |idx| == |jdx| == |pairs| == |g[g[u].src[0]].shape| && Asks(g[u].op.params, pairs)
    requires forall d :: 0 <= d < |idx| ==> jdx[d] == pairs[d].0 + idx[d]
    ensures |g[u].shape| == |pairs| && forall d :: 0 <= d < |pairs| ==> g[u].shape[d] == pairs[d].1
    ensures Den(g, env, u)(idx) == Den(g, env, g[u].src[0])(jdx)
  {
    AsksPairs(g[u].op.params, pairs);
    assert ShrinkIndex(pairs, idx) == jdx;
  }

  // ---- the other movement operations ----

  // Dimension i of the result is dimension perm[i] of the operand, extents and coordinates alike.
  lemma PermuteNode(g: seq<UOp>, env: Env, u: nat, idx: Index, jdx: Index)
    requires Graph(g) && u < |g| && g[u].op.Permute? && NodeOk(g, u)
    requires var perm := g[u].op.perm;
      |idx| == |jdx| == |perm| && forall i, j :: 0 <= i < |perm| && 0 <= j < |perm| && perm[i] == j ==> jdx[j] == idx[i]
    ensures var perm, shape := g[u].op.perm, g[g[u].src[0]].shape;
      |g[u].shape| == |perm| == |shape| && forall i, j :: 0 <= i < |perm| && 0 <= j < |perm| && perm[i] == j ==> g[u].shape[i] == shape[j]
    ensures Den(g, env, u)(idx) == Den(g, env, g[u].src[0])(jdx)
  {
    var perm := g[u].op.perm;
    forall j | 0 <= j < |perm| ensures PermuteIndex(perm, idx)[j] == jdx[j] { FindFinds(perm, j); }
    assert PermuteIndex(perm, idx) == jdx;
  }

  // A dimension of extent 1 is read at 0, however far it is expanded.
  lemma ExpandNode(g: seq<UOp>, env: Env, u: nat, idx: Index, jdx: Index)
    requires Graph(g) && u < |g| && g[u].op.Expand? && NodeOk(g, u)
    requires var shape := g[g[u].src[0]].shape;
      |idx| == |jdx| == |shape| && forall d :: 0 <= d < |shape| ==> if shape[d] == 1 then jdx[d] == 0 else jdx[d] == idx[d]
    ensures Den(g, env, u)(idx) == Den(g, env, g[u].src[0])(jdx)
  {
    assert ExpandIndex(g[g[u].src[0]].shape, idx) == jdx;
  }

  // A flipped dimension is read from its far end.
  lemma FlipNode(g: seq<UOp>, env: Env, u: nat, idx: Index, jdx: Index)
    requires Graph(g) && u < |g| && g[u].op.Flip? && NodeOk(g, u) && InBox(idx, g[u].shape) && |jdx| == |idx|
    requires forall d :: 0 <= d < |idx| ==> if g[u].op.flips[d] then jdx[d] + idx[d] + 1 == g[u].shape[d] else jdx[d] == idx[d]
    ensures Den(g, env, u)(idx) == Den(g, env, g[u].src[0])(jdx)
  {
    assert FlipIndex(g[u].shape, g[u].op.flips, idx) == jdx;
  }

  // A reshape keeps every element's row-major position.
  lemma ReshapeNode(g: seq<UOp>, env: Env, u: nat, idx: Index, jdx: Index)
    requires Graph(g) && u < |g| && g[u].op.Reshape? && NodeOk(g, u) && InBox(idx, g[u].shape)
    requires InBox(jdx, g[g[u].src[0]].shape) && Flatten(g[g[u].src[0]].shape, jdx) == Flatten(g[u].shape, idx)
    ensures Den(g, env, u)(idx) == Den(g, env, g[u].src[0])(jdx)
  {
    UnflattenFlatten(g[g[u].src[0]].shape, jdx);
  }

  // ---- reduces ----

  // Reduced dimensions are kept with extent 1, the others as they are.
  lemma {:induction false} KeptShape(shape: seq<nat>, axes: set<nat>, k: nat)
    ensures |Kept(shape, axes, k)| == |shape|
    ensures forall d :: 0 <= d < |shape| ==> Kept(shape, axes, k)[d] == if k + d in axes then 1 else shape[d]
  {
    if shape != [] {
      KeptShape(shape[1..], axes, k + 1);
      forall d | 0 <= d < |shape| ensures Kept(shape, axes, k)[d] == if k + d in axes then 1 else shape[d] {
        if d > 0 { assert Kept(shape, axes, k)[d] == Kept(shape[1..], axes, k + 1)[d - 1] && k + d == k + 1 + (d - 1); }
      }
    }
  }

  // Folding the maximum gives an upper bound that is attained.
  lemma {:induction false} MaxFold(env: Env, s: seq<real>)
    ensures var m := FoldList(Combine(MaxReduce), Start(env, MaxReduce), s);
      && (forall x :: x in s ==> x <= m) && env.lowest <= m
      && (m == env.lowest || m in s)
  {
    if s != [] {
      MaxFold(env, s[1..]);
      assert s == [s[0]] + s[1..];
    }
  }

  lemma {:induction false} SumFold(env: Env, s: seq<real>)
    ensures FoldList(Combine(AddReduce), Start(env, AddReduce), s) == Total(s)
  {
    if s != [] { SumFold(env, s[1..]); }
  }

  function Total(s: seq<real>): real {
    if s == [] then 0.0 else s[0] + Total(s[1..])
  }

  // A maximum reduce at idx is at least every element it stands for, and is one
  // of them or the value it started from; a sum reduce is their sum.
  lemma ReduceMeans(g: seq<UOp>, env: Env, u: nat, idx: Index, ps: seq<Index>)
    requires Graph(g) && u < |g| && g[u].op.Reduce? && g[u].op.axes != {} && InBox(idx, g[u].shape) && NodeOk(g, u)
    requires Distinct(ps)
    requires forall q :: q in ps <==> Projects(g[g[u].src[0]].shape, g[u].op.axes, 0, q, idx)
    ensures var f, r := Den(g, env, g[u].src[0]), Den(g, env, u)(idx);
      && (g[u].op.kind.AddReduce? ==> r == Total(Values(f, ps)))
      && (g[u].op.kind.MaxReduce? ==> (forall q :: q in ps ==> f(q) <= r) && env.lowest <= r && (r == env.lowest || exists q :: q in ps && f(q) == r))
  {
    var f := Den(g, env, g[u].src[0]);
    ReduceNode(g, env, u, idx, ps);
    SumFold(env, Values(f, ps));
    MaxFold(env, Values(f, ps));
    forall q | q in ps ensures f(q) in Values(f, ps) {
      var i :| 0 <= i < |ps| && ps[i] == q;
      assert Values(f, ps)[i] == f(q);
    }
  }
}
