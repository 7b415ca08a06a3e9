// Multi-indices, row-major order and reduction over axes, for tensors of any rank.
module Tensors {
  import opened Digits

  type Index = seq<nat>

  ghost predicate InBox(idx: Index, shape: seq<nat>) {
    |idx| == |shape| && forall i :: 0 <= i < |idx| ==> idx[i] < shape[i]
  }

  // Two tensors that agree on every index of their shape.
  ghost predicate Agree<V(!new)>(shape: seq<nat>, f: Index -> V, g: Index -> V) {
    forall idx :: InBox(idx, shape) ==> f(idx) == g(idx)
  }

  // ---- row-major order ----

  function Size(shape: seq<nat>): nat {
    if shape == [] then 1 else shape[0] * Size(shape[1..])
  }

  function Flatten(shape: seq<nat>, idx: Index): nat
    requires |idx| == |shape|
  {
    if shape == [] then 0 else idx[0] * Size(shape[1..]) + Flatten(shape[1..], idx[1..])
  }

  function Unflatten(shape: seq<nat>, k: nat): (idx: Index)
    ensures |idx| == |shape|
  {
    if shape == [] then []
    else
      var n := Size(shape[1..]);
      if n == 0 then seq(|shape|, _ => 0) else [k / n] + Unflatten(shape[1..], k % n)
  }

  lemma {:induction false} FlattenFits(shape: seq<nat>, idx: Index)
    requires InBox(idx, shape)
    ensures Flatten(shape, idx) < Size(shape)
  {
    if shape != [] {
      FlattenFits(shape[1..], idx[1..]);
      OffsetBelow(idx[0], shape[0], Size(shape[1..]), Flatten(shape[1..], idx[1..]));
    }
  }

  lemma {:induction false} UnflattenInBox(shape: seq<nat>, k: nat)
    requires k < Size(shape)
    ensures InBox(Unflatten(shape, k), shape) && Flatten(shape, Unflatten(shape, k)) == k
  {
    if shape != [] {
      var n := Size(shape[1..]);
      QuotientBelow(k, shape[0], n);
      UnflattenInBox(shape[1..], k % n);
      assert Unflatten(shape, k)[1..] == Unflatten(shape[1..], k % n);
    }
  }

  lemma {:induction false} UnflattenFlatten(shape: seq<nat>, idx: Index)
    requires InBox(idx, shape)
    ensures Unflatten(shape, Flatten(shape, idx)) == idx
  {
    if shape != [] {
      var n, r := Size(shape[1..]), Flatten(shape[1..], idx[1..]);
      FlattenFits(shape[1..], idx[1..]);
      Digit(idx[0], n, r);
      UnflattenFlatten(shape[1..], idx[1..]);
    }
  }

  // Row-major order: the first coordinate that differs decides which index comes first.
  lemma {:induction false} FlattenOrder(shape: seq<nat>, idx: Index, jdx: Index, k: nat)
    requires InBox(idx, shape) && InBox(jdx, shape) && k < |shape|
    requires idx[..k] == jdx[..k] && idx[k] < jdx[k]
    ensures Flatten(shape, idx) < Flatten(shape, jdx)
  {
    if k == 0 {
      FlattenFits(shape[1..], idx[1..]);
      OffsetBelow(idx[0], jdx[0], Size(shape[1..]), Flatten(shape[1..], idx[1..]));
    } else {
      assert idx[0] == idx[..k][0] == jdx[0];
      assert idx[1..][..k - 1] == idx[..k][1..] == jdx[1..][..k - 1];
      FlattenOrder(shape[1..], idx[1..], jdx[1..], k - 1);
    }
  }

  // ---- folding along axes ----

  ghost function Fold<V>(op: (V, V) -> V, unit: V, n: nat, f: nat -> V): V {
    if n == 0 then unit else op(Fold(op, unit, n - 1, f), f(n - 1))
  }

  lemma {:induction false} FoldSame<V>(op: (V, V) -> V, unit: V, n: nat, f: nat -> V, g: nat -> V)
    requires forall j: nat :: j < n ==> f(j) == g(j)
    ensures Fold(op, unit, n, f) == Fold(op, unit, n, g)
  {
    if n > 0 { FoldSame(op, unit, n - 1, f, g); }
  }

  function Insert(idx: Index, axis: nat, j: nat): Index {
    if axis <= |idx| then idx[..axis] + [j] + idx[axis..] else idx
  }

  // Reducing one axis away: the index loses that coordinate.
  ghost function ReduceAxis<V>(op: (V, V) -> V, unit: V, n: nat, axis: nat, f: Index -> V): Index -> V {
    idx => Fold(op, unit, n, (j: nat) => f(Insert(idx, axis, j)))
  }

  // The dimensions from position k on that are not reduced.
  function Dropped(shape: seq<nat>, axes: set<nat>, k: nat): seq<nat> {
    if shape == [] then []
    else if k in axes then Dropped(shape[1..], axes, k + 1)
    else [shape[0]] + Dropped(shape[1..], axes, k + 1)
  }

  // The same dimensions with every reduced one kept as 1.
  function Kept(shape: seq<nat>, axes: set<nat>, k: nat): seq<nat> {
    if shape == [] then [] else [if k in axes then 1 else shape[0]] + Kept(shape[1..], axes, k + 1)
  }

  // All reduced axes at once, as a loop nest: `pre` holds the coordinates
  // before position k, `post` the unreduced ones from k on.
  ghost function Nest<V>(op: (V, V) -> V, unit: V, shape: seq<nat>, axes: set<nat>, k: nat, f: Index -> V, pre: Index, post: Index): V
    decreases |shape|
  {
    if shape == [] then f(pre)
    else if k in axes then
      Fold(op, unit, shape[0], (j: nat) => Nest(op, unit, shape[1..], axes, k + 1, f, pre + [j], post))
    else if post == [] then unit
    else Nest(op, unit, shape[1..], axes, k + 1, f, pre + [post[0]], post[1..])
  }

  // A tensor of which the axes below k are untouched and those from k on reduced.
  ghost function Partly<V>(op: (V, V) -> V, unit: V, shape: seq<nat>, axes: set<nat>, k: nat, f: Index -> V): Index -> V
    requires k <= |shape|
  {
    idx => if k <= |idx| then Nest(op, unit, shape[k..], axes, k, f, idx[..k], idx[k..]) else unit
  }

  function PartShape(shape: seq<nat>, axes: set<nat>, k: nat): seq<nat>
    requires k <= |shape|
  {
    shape[..k] + Dropped(shape[k..], axes, k)
  }

  // Nothing reduced yet.
  lemma PartlyStart<V(!new)>(op: (V, V) -> V, unit: V, shape: seq<nat>, axes: set<nat>, f: Index -> V)
    ensures PartShape(shape, axes, |shape|) == shape
    ensures Agree(shape, Partly(op, unit, shape, axes, |shape|, f), f)
  {
    forall idx | InBox(idx, shape) ensures Partly(op, unit, shape, axes, |shape|, f)(idx) == f(idx) {
      assert idx[..|shape|] == idx;
    }
  }

  // An axis that is not reduced changes nothing.
  lemma PartlySkip<V(!new)>(op: (V, V) -> V, unit: V, shape: seq<nat>, axes: set<nat>, k: nat, f: Index -> V)
    requires k < |shape| && k !in axes
    ensures PartShape(shape, axes, k) == PartShape(shape, axes, k + 1)
    ensures Agree(PartShape(shape, axes, k), Partly(op, unit, shape, axes, k, f), Partly(op, unit, shape, axes, k + 1, f))
  {
    assert shape[k..][1..] == shape[k + 1..];
    assert shape[..k] + [shape[k]] == shape[..k + 1];
    forall idx | InBox(idx, PartShape(shape, axes, k))
      ensures Partly(op, unit, shape, axes, k, f)(idx) == Partly(op, unit, shape, axes, k + 1, f)(idx)
    {
      assert idx[..k] + [idx[k..][0]] == idx[..k + 1] && idx[k..][1..] == idx[k + 1..];
    }
  }

  // Reducing axis k of the tensor reduced from k + 1 on.
  lemma PartlyReduce<V(!new)>(op: (V, V) -> V, unit: V, shape: seq<nat>, axes: set<nat>, k: nat, f: Index -> V, g: Index -> V)
    requires k < |shape| && k in axes
    requires Agree(PartShape(shape, axes, k + 1), g, Partly(op, unit, shape, axes, k + 1, f))
    ensures PartShape(shape, axes, k + 1) == Insert(PartShape(shape, axes, k), k, shape[k])
    ensures Agree(PartShape(shape, axes, k), ReduceAxis(op, unit, shape[k], k, g), Partly(op, unit, shape, axes, k, f))
  {
    assert shape[k..][1..] == shape[k + 1..];
    var small, big := PartShape(shape, axes, k), PartShape(shape, axes, k + 1);
    assert small[..k] == shape[..k] && small[k..] == Dropped(shape[k + 1..], axes, k + 1);
    assert big == Insert(small, k, shape[k]);
    forall idx | InBox(idx, small)
      ensures ReduceAxis(op, unit, shape[k], k, g)(idx) == Partly(op, unit, shape, axes, k, f)(idx)
    {
      var pre, post := idx[..k], idx[k..];
      forall j: nat | j < shape[k]
        ensures g(Insert(idx, k, j)) == Nest(op, unit, shape[k + 1..], axes, k + 1, f, pre + [j], post)
      {
        var wide := Insert(idx, k, j);
        assert InBox(wide, big);
        assert wide[..k + 1] == pre + [j] && wide[k + 1..] == post;
      }
      FoldSame(op, unit, shape[k], (j: nat) => g(Insert(idx, k, j)), (j: nat) => Nest(op, unit, shape[k + 1..], axes, k + 1, f, pre + [j], post));
    }
  }

  // ---- the keep-dims reduce and its lowering ----

  // Reducing all axes of the set at once, every reduced coordinate kept as 0:
  // one loop per reduced axis, the other coordinates read from idx.
  ghost function KeepNest<V>(op: (V, V) -> V, unit: V, shape: seq<nat>, axes: set<nat>, k: nat, f: Index -> V, pre: Index, idx: Index): V
    requires |idx| == |shape|
    decreases |shape|
  {
    if shape == [] then f(pre)
    else if k in axes then
      Fold(op, unit, shape[0], (j: nat) => KeepNest(op, unit, shape[1..], axes, k + 1, f, pre + [j], idx[1..]))
    else KeepNest(op, unit, shape[1..], axes, k + 1, f, pre + [idx[0]], idx[1..])
  }

  ghost function KeepReduce<V>(op: (V, V) -> V, unit: V, shape: seq<nat>, axes: set<nat>, f: Index -> V): Index -> V {
    idx => if |idx| == |shape| then KeepNest(op, unit, shape, axes, 0, f, [], idx) else unit
  }

  lemma {:induction false} KeepNestIsNest<V(!new)>(op: (V, V) -> V, unit: V, shape: seq<nat>, axes: set<nat>, k: nat, f: Index -> V, pre: Index, idx: Index)
    requires |idx| == |shape|
    ensures KeepNest(op, unit, shape, axes, k, f, pre, idx) == Nest(op, unit, shape, axes, k, f, pre, Dropped(idx, axes, k))
    decreases |shape|
  {
    if shape != [] {
      if k in axes {
        forall j: nat ensures KeepNest(op, unit, shape[1..], axes, k + 1, f, pre + [j], idx[1..])
                           == Nest(op, unit, shape[1..], axes, k + 1, f, pre + [j], Dropped(idx, axes, k)) {
          KeepNestIsNest(op, unit, shape[1..], axes, k + 1, f, pre + [j], idx[1..]);
        }
        FoldSame(op, unit, shape[0],
                 (j: nat) => KeepNest(op, unit, shape[1..], axes, k + 1, f, pre + [j], idx[1..]),
                 (j: nat) => Nest(op, unit, shape[1..], axes, k + 1, f, pre + [j], Dropped(idx, axes, k)));
      } else {
        KeepNestIsNest(op, unit, shape[1..], axes, k + 1, f, pre + [idx[0]], idx[1..]);
        assert Dropped(idx, axes, k)[1..] == Dropped(idx[1..], axes, k + 1);
      }
    }
  }

  // Dimensions of extent 1 do not move anything in row-major order.
  lemma {:induction false} KeptOrder(shape: seq<nat>, axes: set<nat>, k: nat, idx: Index)
    requires InBox(idx, Kept(shape, axes, k))
    ensures |idx| == |shape| && InBox(Dropped(idx, axes, k), Dropped(shape, axes, k))
    ensures Size(Kept(shape, axes, k)) == Size(Dropped(shape, axes, k))
    ensures Flatten(Kept(shape, axes, k), idx) == Flatten(Dropped(shape, axes, k), Dropped(idx, axes, k))
    decreases |shape|
  {
    if shape != [] {
      assert Kept(shape, axes, k)[1..] == Kept(shape[1..], axes, k + 1);
      KeptOrder(shape[1..], axes, k + 1, idx[1..]);
      if k !in axes {
        assert Dropped(shape, axes, k)[1..] == Dropped(shape[1..], axes, k + 1);
        assert Dropped(idx, axes, k)[1..] == Dropped(idx[1..], axes, k + 1);
      }
    }
  }

  ghost function Reshaped<V>(from: seq<nat>, to: seq<nat>, f: Index -> V): Index -> V {
    idx => if |idx| == |to| then f(Unflatten(from, Flatten(to, idx))) else f([])
  }

  // Once every axis is gone, one reshape brings the kept dimensions back.
  lemma LoweredReduce<V(!new)>(op: (V, V) -> V, unit: V, shape: seq<nat>, axes: set<nat>, f: Index -> V, g: Index -> V)
    requires Agree(Dropped(shape, axes, 0), g, Partly(op, unit, shape, axes, 0, f))
    ensures Agree(Kept(shape, axes, 0), Reshaped(Dropped(shape, axes, 0), Kept(shape, axes, 0), g), KeepReduce(op, unit, shape, axes, f))
  {
    var small, big := Dropped(shape, axes, 0), Kept(shape, axes, 0);
    forall idx | InBox(idx, big) ensures Reshaped(small, big, g)(idx) == KeepReduce(op, unit, shape, axes, f)(idx) {
      KeptOrder(shape, axes, 0, idx);
      var post := Dropped(idx, axes, 0);
      UnflattenFlatten(small, post);
      KeepNestIsNest(op, unit, shape, axes, 0, f, [], idx);
      assert shape[0..] == shape && post[..0] == [] && post[0..] == post;
    }
  }

  // ---- which elements a keep-dims reduce combines ----

  ghost function FoldList<V>(op: (V, V) -> V, unit: V, s: seq<V>): V {
    if s == [] then unit else op(s[0], FoldList(op, unit, s[1..]))
  }

  // An associative operation with a start value that may be folded in once or
  // many times, on either side.  A unit is one, and so is any start for max.
  ghost predicate Reducer<V(!new)>(op: (V, V) -> V, unit: V) {
    && (forall x, y, z :: Regroups(op, x, y, z))
    && (forall x :: Swaps(op, unit, x))
    && op(unit, unit) == unit
  }

  ghost predicate Regroups<V>(op: (V, V) -> V, x: V, y: V, z: V) {
    op(op(x, y), z) == op(x, op(y, z))
  }

  ghost predicate Swaps<V>(op: (V, V) -> V, x: V, y: V) {
    op(x, y) == op(y, x)
  }

  lemma {:induction false} UnitAbsorbed<V(!new)>(op: (V, V) -> V, unit: V, s: seq<V>)
    requires Reducer(op, unit)
    ensures op(unit, FoldList(op, unit, s)) == FoldList(op, unit, s)
    ensures op(FoldList(op, unit, s), unit) == FoldList(op, unit, s)
  {
    if s != [] {
      var rest := FoldList(op, unit, s[1..]);
      UnitAbsorbed(op, unit, s[1..]);
      assert Regroups(op, s[0], rest, unit) && Swaps(op, unit, op(s[0], rest));
    } else {
      assert Swaps(op, unit, unit);
    }
  }

  // The source positions below pre that project onto idx, in row-major order.
  ghost function Fibre(shape: seq<nat>, axes: set<nat>, k: nat, pre: Index, idx: Index): seq<Index>
    requires |idx| == |shape|
    decreases |shape|, 1
  {
    if shape == [] then [pre]
    else if k in axes then Fibres(shape, axes, k, pre, idx, shape[0])
    else Fibre(shape[1..], axes, k + 1, pre + [idx[0]], idx[1..])
  }

  ghost function Fibres(shape: seq<nat>, axes: set<nat>, k: nat, pre: Index, idx: Index, n: nat): seq<Index>
    requires |idx| == |shape| && shape != []
    decreases |shape|, 0, n
  {
    if n == 0 then []
    else Fibres(shape, axes, k, pre, idx, n - 1) + Fibre(shape[1..], axes, k + 1, pre + [n - 1], idx[1..])
  }

  ghost function Values<V>(f: Index -> V, ps: seq<Index>): seq<V> {
    seq(|ps|, i requires 0 <= i < |ps| => f(ps[i]))
  }

  lemma {:induction false} FoldListConcat<V(!new)>(op: (V, V) -> V, unit: V, s: seq<V>, t: seq<V>)
    requires Reducer(op, unit)
    ensures FoldList(op, unit, s + t) == op(FoldList(op, unit, s), FoldList(op, unit, t))
  {
    if s == [] {
      assert s + t == t;
      UnitAbsorbed(op, unit, t);
    } else {
      assert (s + t)[1..] == s[1..] + t;
      FoldListConcat(op, unit, s[1..], t);
      assert Regroups(op, s[0], FoldList(op, unit, s[1..]), FoldList(op, unit, t));
    }
  }

  // Some axis from position k on is reduced.
  ghost predicate SomeReduced(axes: set<nat>, k: nat, rank: nat) {
    exists a :: a in axes && k <= a < k + rank
  }

  // The loop nest, once the start value is folded in, is the fold over exactly
  // the fibre; as soon as one axis is reduced, it is folded in already.
  lemma {:induction false} NestIsFibre<V(!new)>(op: (V, V) -> V, unit: V, shape: seq<nat>, axes: set<nat>, k: nat, f: Index -> V, pre: Index, idx: Index)
    requires Reducer(op, unit) && |idx| == |shape|
    ensures op(unit, KeepNest(op, unit, shape, axes, k, f, pre, idx)) == FoldList(op, unit, Values(f, Fibre(shape, axes, k, pre, idx)))
    ensures SomeReduced(axes, k, |shape|) ==>
              KeepNest(op, unit, shape, axes, k, f, pre, idx) == FoldList(op, unit, Values(f, Fibre(shape, axes, k, pre, idx)))
    decreases |shape|, 1
  {
    if shape == [] {
      assert Values(f, [pre]) == [f(pre)];
      assert FoldList(op, unit, [f(pre)]) == op(f(pre), FoldList(op, unit, []));
      assert Swaps(op, unit, f(pre));
    } else if k in axes {
      NestIsFibres(op, unit, shape, axes, k, f, pre, idx, shape[0]);
      UnitAbsorbed(op, unit, Values(f, Fibres(shape, axes, k, pre, idx, shape[0])));
    } else {
      NestIsFibre(op, unit, shape[1..], axes, k + 1, f, pre + [idx[0]], idx[1..]);
      assert SomeReduced(axes, k, |shape|) ==> SomeReduced(axes, k + 1, |shape| - 1) by {
        if SomeReduced(axes, k, |shape|) {
          var a :| a in axes && k <= a < k + |shape|;
          assert k + 1 <= a < k + 1 + (|shape| - 1);
        }
      }
    }
  }

  lemma {:induction false} NestIsFibres<V(!new)>(op: (V, V) -> V, unit: V, shape: seq<nat>, axes: set<nat>, k: nat, f: Index -> V, pre: Index, idx: Index, n: nat)
    requires Reducer(op, unit) && |idx| == |shape| && shape != []
    ensures Fold(op, unit, n, (j: nat) => KeepNest(op, unit, shape[1..], axes, k + 1, f, pre + [j], idx[1..]))
         == FoldList(op, unit, Values(f, Fibres(shape, axes, k, pre, idx, n)))
    decreases |shape|, 0, n
  {
    if n > 0 {
      NestIsFibres(op, unit, shape, axes, k, f, pre, idx, n - 1);
      NestIsFibre(op, unit, shape[1..], axes, k + 1, f, pre + [n - 1], idx[1..]);
      var some, last := Fibres(shape, axes, k, pre, idx, n - 1), Fibre(shape[1..], axes, k + 1, pre + [n - 1], idx[1..]);
      FoldJoin(op, unit, f, some, last, KeepNest(op, unit, shape[1..], axes, k + 1, f, pre + [n - 1], idx[1..]));
    }
  }

  // Between a fold and one more value the start value makes no difference.
  lemma FoldJoin<V(!new)>(op: (V, V) -> V, unit: V, f: Index -> V, ps: seq<Index>, qs: seq<Index>, x: V)
    requires Reducer(op, unit) && op(unit, x) == FoldList(op, unit, Values(f, qs))
    ensures FoldList(op, unit, Values(f, ps + qs)) == op(FoldList(op, unit, Values(f, ps)), x)
  {
    var s, t := Values(f, ps), Values(f, qs);
    assert Values(f, ps + qs) == s + t;
    FoldListConcat(op, unit, s, t);
    UnitAbsorbed(op, unit, s);
    assert Regroups(op, FoldList(op, unit, s), unit, x);
  }

  // p is a source position that agrees with idx outside the reduced axes.
  ghost predicate Projects(shape: seq<nat>, axes: set<nat>, k: nat, p: Index, idx: Index) {
    && |idx| == |shape|
    && InBox(p, shape)
    && forall i :: 0 <= i < |shape| && k + i !in axes ==> p[i] == idx[i]
  }

  // The fibre lists the positions that project onto idx, each once.
  lemma {:induction false} FibreExact(shape: seq<nat>, axes: set<nat>, k: nat, pre: Index, idx: Index, q: Index)
    requires InBox(idx, Kept(shape, axes, k)) && |idx| == |shape|
    ensures q in Fibre(shape, axes, k, pre, idx) <==>
            |q| == |pre| + |shape| && q[..|pre|] == pre && Projects(shape, axes, k, q[|pre|..], idx)
    decreases |shape|, 1
  {
    if shape == [] {
      assert |q| == |pre| ==> q[..|pre|] == q;
    } else {
      assert Kept(shape, axes, k)[1..] == Kept(shape[1..], axes, k + 1);
      if k in axes {
        FibresExact(shape, axes, k, pre, idx, shape[0], q);
      } else {
        FibreExact(shape[1..], axes, k + 1, pre + [idx[0]], idx[1..], q);
        SplitProjects(shape, axes, k, pre, idx, idx[0], q);
      }
    }
  }

  lemma SplitProjects(shape: seq<nat>, axes: set<nat>, k: nat, pre: Index, idx: Index, j: nat, q: Index)
    requires shape != [] && |idx| == |shape| && j < shape[0] && (k !in axes ==> j == idx[0])
    ensures (|q| == |pre| + |shape| && q[..|pre| + 1] == pre + [j] && Projects(shape[1..], axes, k + 1, q[|pre| + 1..], idx[1..]))
       <==> (|q| == |pre| + |shape| && q[..|pre|] == pre && q[|pre|] == j && Projects(shape, axes, k, q[|pre|..], idx))
  {
    if |q| == |pre| + |shape| {
      ProjectsCons(shape, axes, k, q[|pre|..], idx);
      assert q[|pre|..][1..] == q[|pre| + 1..];
      assert q[..|pre| + 1] == q[..|pre|] + [q[|pre|]];
    }
  }

  lemma ProjectsCons(shape: seq<nat>, axes: set<nat>, k: nat, p: Index, idx: Index)
    requires shape != [] && |idx| == |shape| == |p|
    ensures Projects(shape, axes, k, p, idx) <==>
            p[0] < shape[0] && (k !in axes ==> p[0] == idx[0]) && Projects(shape[1..], axes, k + 1, p[1..], idx[1..])
  {
    if p[0] < shape[0] && (k !in axes ==> p[0] == idx[0]) && Projects(shape[1..], axes, k + 1, p[1..], idx[1..]) {
      forall i | 0 <= i < |shape| ensures p[i] < shape[i] && (k + i !in axes ==> p[i] == idx[i]) {
        if i > 0 { assert p[i] == p[1..][i - 1] && k + i == k + 1 + (i - 1); }
      }
    }
    if Projects(shape, axes, k, p, idx) {
      forall i | 0 <= i < |shape| - 1
        ensures p[1..][i] < shape[1..][i] && (k + 1 + i !in axes ==> p[1..][i] == idx[1..][i])
      {
        assert p[1..][i] == p[i + 1] && k + (i + 1) == k + 1 + i;
      }
    }
  }

  lemma {:induction false} FibresExact(shape: seq<nat>, axes: set<nat>, k: nat, pre: Index, idx: Index, n: nat, q: Index)
    requires InBox(idx, Kept(shape, axes, k)) && |idx| == |shape| && shape != [] && k in axes && n <= shape[0]
    ensures q in Fibres(shape, axes, k, pre, idx, n) <==>
            |q| == |pre| + |shape| && q[..|pre|] == pre && q[|pre|] < n && Projects(shape, axes, k, q[|pre|..], idx)
    decreases |shape|, 0, n
  {
    assert Kept(shape, axes, k)[1..] == Kept(shape[1..], axes, k + 1);
    if n > 0 {
      FibresExact(shape, axes, k, pre, idx, n - 1, q);
      FibreExact(shape[1..], axes, k + 1, pre + [n - 1], idx[1..], q);
      SplitProjects(shape, axes, k, pre, idx, n - 1, q);
    }
  }

  lemma {:induction false} FibreDistinct(shape: seq<nat>, axes: set<nat>, k: nat, pre: Index, idx: Index)
    requires InBox(idx, Kept(shape, axes, k)) && |idx| == |shape|
    ensures forall i, j :: 0 <= i < j < |Fibre(shape, axes, k, pre, idx)| ==>
              Fibre(shape, axes, k, pre, idx)[i] != Fibre(shape, axes, k, pre, idx)[j]
    decreases |shape|, 1
  {
    if shape != [] {
      assert Kept(shape, axes, k)[1..] == Kept(shape[1..], axes, k + 1);
      if k in axes {
        FibresDistinct(shape, axes, k, pre, idx, shape[0]);
      } else {
        FibreDistinct(shape[1..], axes, k + 1, pre + [idx[0]], idx[1..]);
      }
    }
  }

  lemma {:induction false} FibresDistinct(shape: seq<nat>, axes: set<nat>, k: nat, pre: Index, idx: Index, n: nat)
    requires InBox(idx, Kept(shape, axes, k)) && |idx| == |shape| && shape != [] && k in axes && n <= shape[0]
    ensures forall i, j :: 0 <= i < j < |Fibres(shape, axes, k, pre, idx, n)| ==>
              Fibres(shape, axes, k, pre, idx, n)[i] != Fibres(shape, axes, k, pre, idx, n)[j]
    decreases |shape|, 0, n
  {
    assert Kept(shape, axes, k)[1..] == Kept(shape[1..], axes, k + 1);
    if n > 0 {
      FibresDistinct(shape, axes, k, pre, idx, n - 1);
      FibreDistinct(shape[1..], axes, k + 1, pre + [n - 1], idx[1..]);
      var some, last := Fibres(shape, axes, k, pre, idx, n - 1), Fibre(shape[1..], axes, k + 1, pre + [n - 1], idx[1..]);
      forall i, j | 0 <= i < |some| && 0 <= j < |last| ensures some[i] != last[j] {
        assert some[i] in some && last[j] in last;
        FibresExact(shape, axes, k, pre, idx, n - 1, some[i]);
        FibreExact(shape[1..], axes, k + 1, pre + [n - 1], idx[1..], last[j]);
        assert some[i][|pre|] < n - 1 && last[j][..|pre| + 1][|pre|] == n - 1;
      }
    }
  }

  // ---- order does not matter ----

  ghost predicate Commutes<V(!new)>(op: (V, V) -> V) {
    forall x, y :: Swaps(op, x, y)
  }

  lemma Exchange<V(!new)>(op: (V, V) -> V, unit: V, x: V, y: V, z: V)
    requires Reducer(op, unit) && Commutes(op)
    ensures op(x, op(y, z)) == op(y, op(x, z))
  {
    assert Regroups(op, x, y, z) && Regroups(op, y, x, z) && Swaps(op, x, y);
  }

  lemma {:induction false} FoldMove<V(!new)>(op: (V, V) -> V, unit: V, s: seq<V>, x: V, t: seq<V>)
    requires Reducer(op, unit) && Commutes(op)
    ensures FoldList(op, unit, s + [x] + t) == op(x, FoldList(op, unit, s + t))
    decreases |s|
  {
    if s == [] {
      assert s + [x] + t == [x] + t && s + t == t;
      assert ([x] + t)[1..] == t;
    } else {
      assert (s + [x] + t)[1..] == s[1..] + [x] + t && (s + t)[1..] == s[1..] + t;
      FoldMove(op, unit, s[1..], x, t);
      Exchange(op, unit, s[0], x, FoldList(op, unit, s[1..] + t));
    }
  }

  lemma MultisetWithout(ps: seq<Index>, qs: seq<Index>, i: nat)
    requires multiset(ps) == multiset(qs) && ps != [] && i < |qs| && qs[i] == ps[0]
    ensures multiset(ps[1..]) == multiset(qs[..i] + qs[i + 1..])
  {
    assert ps == [ps[0]] + ps[1..];
    assert multiset(ps) == multiset{ps[0]} + multiset(ps[1..]);
    assert qs == qs[..i] + [qs[i]] + qs[i + 1..];
    assert multiset(qs) == multiset(qs[..i]) + multiset{qs[i]} + multiset(qs[i + 1..]);
    assert multiset(qs[..i] + qs[i + 1..]) == multiset(qs) - multiset{qs[i]};
    assert multiset(ps[1..]) == multiset(ps) - multiset{ps[0]};
  }

  lemma ValuesSplit<V(!new)>(f: Index -> V, qs: seq<Index>, i: nat)
    requires i < |qs|
    ensures Values(f, qs) == Values(f, qs[..i]) + [f(qs[i])] + Values(f, qs[i + 1..])
    ensures Values(f, qs[..i] + qs[i + 1..]) == Values(f, qs[..i]) + Values(f, qs[i + 1..])
  {
  }

  lemma {:induction false} FoldPermuted<V(!new)>(op: (V, V) -> V, unit: V, f: Index -> V, ps: seq<Index>, qs: seq<Index>)
    requires Reducer(op, unit) && Commutes(op) && multiset(ps) == multiset(qs)
    ensures FoldList(op, unit, Values(f, ps)) == FoldList(op, unit, Values(f, qs))
    decreases |ps|
  {
    if ps == [] {
      assert |multiset(qs)| == 0;
    } else {
      assert ps[0] in multiset(qs);
      var i :| 0 <= i < |qs| && qs[i] == ps[0];
      MultisetWithout(ps, qs, i);
      FoldPermuted(op, unit, f, ps[1..], qs[..i] + qs[i + 1..]);
      assert Values(f, ps)[1..] == Values(f, ps[1..]);
      ValuesSplit(f, qs, i);
      FoldMove(op, unit, Values(f, qs[..i]), f(ps[0]), Values(f, qs[i + 1..]));
    }
  }

  ghost predicate Distinct(ps: seq<Index>) {
    forall i, j :: 0 <= i < j < |ps| ==> ps[i] != ps[j]
  }

  lemma {:induction false} DistinctOnce(ps: seq<Index>, q: Index)
    requires Distinct(ps)
    ensures multiset(ps)[q] == if q in ps then 1 else 0
  {
    if ps != [] {
      var n := |ps| - 1;
      assert ps == ps[..n] + [ps[n]];
      DistinctOnce(ps[..n], q);
    }
  }

  // A keep-dims reduce at idx combines the start value and the elements whose
  // position agrees with idx off the reduced axes, each once, in any order.
  lemma ReduceInAnyOrder<V(!new)>(op: (V, V) -> V, unit: V, shape: seq<nat>, axes: set<nat>, f: Index -> V, idx: Index, ps: seq<Index>)
    requires Reducer(op, unit) && Commutes(op)
    requires InBox(idx, Kept(shape, axes, 0)) && |idx| == |shape|
    requires Distinct(ps) && forall q :: q in ps <==> Projects(shape, axes, 0, q, idx)
    ensures op(unit, KeepReduce(op, unit, shape, axes, f)(idx)) == FoldList(op, unit, Values(f, ps))
    ensures SomeReduced(axes, 0, |shape|) ==>
              KeepReduce(op, unit, shape, axes, f)(idx) == FoldList(op, unit, Values(f, ps))
  {
    var qs := Fibre(shape, axes, 0, [], idx);
    FibreDistinct(shape, axes, 0, [], idx);
    forall q: Index ensures multiset(ps)[q] == multiset(qs)[q] {
      FibreExact(shape, axes, 0, [], idx, q);
      assert q[..0] == [] && q[0..] == q;
      DistinctOnce(ps, q);
      DistinctOnce(qs, q);
    }
    assert multiset(ps) == multiset(qs);
    NestIsFibre(op, unit, shape, axes, 0, f, [], idx);
    FoldPermuted(op, unit, f, ps, qs);
  }
}
