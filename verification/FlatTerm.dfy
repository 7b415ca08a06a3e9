// Terms packed into one contiguous pre-order array of nodes.
module FlatTerm {
  import opened FirstOrder

  datatype FlatNode = FlatNode(sym: nat, size: nat, weight: int, arity: nat)

  predicate IsVar(sym: nat) {
    VAR_BIT <= sym
  }

  function VarId(sym: nat): nat
    requires IsVar(sym)
  {
    sym - VAR_BIT
  }

  // The node that stands for the root of t.
  function Node(kb: Kbo, t: Term): FlatNode {
    match t
    case Var(id) => FlatNode(VAR_BIT + id, 1, kb.varWeight, 0)
    case App(l, args) => FlatNode(l, Size(t), Weight(kb, t), Len(args))
  }

  // The encoding of a term and of a list of terms: nodes in pre-order.
  function Enc(kb: Kbo, t: Term): (e: seq<FlatNode>)
    ensures |e| == Size(t)
  {
    match t
    case Var(_) => [Node(kb, t)]
    case App(_, args) => [Node(kb, t)] + EncL(kb, args)
  }

  function EncL(kb: Kbo, ts: TermList): (e: seq<FlatNode>)
    ensures |e| == SizeL(ts)
  {
    match ts
    case Nil => []
    case Cons(h, tail) => Enc(kb, h) + EncL(kb, tail)
  }

  lemma {:induction false} EncAppend(kb: Kbo, ss: TermList, ts: TermList)
    ensures EncL(kb, Append(ss, ts)) == EncL(kb, ss) + EncL(kb, ts)
  {
    match ss
    case Nil => assert [] + EncL(kb, ts) == EncL(kb, ts);
    case Cons(h, tail) =>
      EncAppend(kb, tail, ts);
      ConcatAssoc(Enc(kb, h), EncL(kb, tail), EncL(kb, ts));
  }

  lemma ConcatAssoc<T>(a: seq<T>, b: seq<T>, c: seq<T>)
    ensures (a + b) + c == a + (b + c)
  {
  }

  // The terms still to come after the first node of a run: its children and
  // then its siblings.
  function Unfold(ts: TermList): TermList
    requires ts.Cons?
  {
    match ts.head
    case Var(_) => ts.tail
    case App(_, args) => Append(args, ts.tail)
  }

  lemma UnfoldMeasures(ts: TermList)
    requires ts.Cons?
    ensures SizeL(ts) == 1 + SizeL(Unfold(ts))
    ensures Len(Unfold(ts)) == Len(ts.tail) + if ts.head.App? then Len(ts.head.args) else 0
  {
    if ts.head.App? { AppendMeasures(ts.head.args, ts.tail); }
  }

  lemma UnfoldEnc(kb: Kbo, ts: TermList)
    requires ts.Cons?
    ensures EncL(kb, ts) == [Node(kb, ts.head)] + EncL(kb, Unfold(ts))
  {
    if ts.head.App? {
      EncAppend(kb, ts.head.args, ts.tail);
      ConcatAssoc([Node(kb, ts.head)], EncL(kb, ts.head.args), EncL(kb, ts.tail));
    }
  }

  lemma UnfoldWF(kb: Kbo, ts: TermList)
    requires ts.Cons? && WFL(kb, ts)
    ensures WFL(kb, Unfold(ts))
  {
    assert WF(kb, ts.head);
    if ts.head.App? { AppendWF(kb, ts.head.args, ts.tail); }
  }

  // The run ts sits in a from position i on: children right after their parent,
  // each term ending where the next one starts.
  ghost predicate Holds(kb: Kbo, a: seq<FlatNode>, i: nat, ts: TermList)
    decreases ts
  {
    match ts
    case Nil => i <= |a|
    case Cons(h, tail) =>
      && i < |a|
      && a[i] == Node(kb, h)
      && (h.App? ==> Holds(kb, a, i + 1, h.args))
      && Holds(kb, a, i + Size(h), tail)
  }

  // Skipping the first terms of a run by their size lands on the next ones.
  lemma {:induction false} HoldsSplit(kb: Kbo, a: seq<FlatNode>, i: nat, ss: TermList, ts: TermList)
    ensures Holds(kb, a, i, Append(ss, ts)) <==> Holds(kb, a, i, ss) && Holds(kb, a, i + SizeL(ss), ts)
    decreases ss
  {
    match ss
    case Nil => if Holds(kb, a, i, ts) { HoldsBounds(kb, a, i, ts); }
    case Cons(h, tail) => HoldsSplit(kb, a, i + Size(h), tail, ts);
  }

  lemma {:induction false} HoldsBounds(kb: Kbo, a: seq<FlatNode>, i: nat, ts: TermList)
    requires Holds(kb, a, i, ts)
    ensures i + SizeL(ts) <= |a|
    decreases ts
  {
    if ts.Cons? { HoldsBounds(kb, a, i + Size(ts.head), ts.tail); }
  }

  // Moving on by one node: into the children of a constructor, past a variable.
  lemma HoldsUnfold(kb: Kbo, a: seq<FlatNode>, i: nat, ts: TermList)
    requires ts.Cons?
    ensures Holds(kb, a, i, ts) <==> i < |a| && a[i] == Node(kb, ts.head) && Holds(kb, a, i + 1, Unfold(ts))
  {
    if ts.head.App? { HoldsSplit(kb, a, i + 1, ts.head.args, ts.tail); }
  }

  // The same thing said with slices.
  lemma {:induction false} HoldsIsSlice(kb: Kbo, a: seq<FlatNode>, i: nat, ts: TermList)
    ensures Holds(kb, a, i, ts) <==> i + SizeL(ts) <= |a| && a[i..i + SizeL(ts)] == EncL(kb, ts)
    decreases SizeL(ts)
  {
    if ts.Cons? {
      UnfoldMeasures(ts);
      UnfoldEnc(kb, ts);
      HoldsUnfold(kb, a, i, ts);
      HoldsIsSlice(kb, a, i + 1, Unfold(ts));
      if i + SizeL(ts) <= |a| {
        var b := a[i..i + SizeL(ts)];
        assert b == [a[i]] + a[i + 1..i + SizeL(ts)];
        assert b[0] == a[i] && b[1..] == a[i + 1..i + SizeL(ts)];
      }
    }
  }

  // A buffer filled by one term.
  lemma HoldsEnc(kb: Kbo, t: Term)
    ensures Holds(kb, Enc(kb, t), 0, Cons(t, Nil))
  {
    HoldsIsSlice(kb, Enc(kb, t), 0, Cons(t, Nil));
    assert EncL(kb, Cons(t, Nil)) == Enc(kb, t);
  }

  // Everything a walker knows when it stands on the first node of a run.
  lemma AtHead(kb: Kbo, a: seq<FlatNode>, i: nat, ts: TermList)
    requires kb.Valid() && ts.Cons? && WFL(kb, ts) && Holds(kb, a, i, ts)
    ensures i < |a| && a[i] == Node(kb, ts.head)
    ensures a[i].size == Size(ts.head) && a[i].weight == Weight(kb, ts.head)
    ensures SizeL(ts) == Size(ts.head) + SizeL(ts.tail) == 1 + SizeL(Unfold(ts))
    ensures Holds(kb, a, i, Cons(ts.head, Nil)) && Holds(kb, a, i + Size(ts.head), ts.tail)
    ensures Holds(kb, a, i + 1, Unfold(ts)) && WFL(kb, Unfold(ts)) && WF(kb, ts.head) && WFL(kb, ts.tail)
    ensures Len(Unfold(ts)) == Len(ts.tail) + a[i].arity
    ensures IsVar(a[i].sym) <==> ts.head.Var?
    ensures ts.head.Var? ==> VarId(a[i].sym) == ts.head.id < MAX_VARS
    ensures ts.head.App? ==> a[i].sym == ts.head.lab < |kb.arities| && a[i].arity == Len(ts.head.args) == kb.arities[ts.head.lab]
  {
    HoldsUnfold(kb, a, i, ts);
    HoldsSplit(kb, a, i, Cons(ts.head, Nil), ts.tail);
    UnfoldMeasures(ts);
    UnfoldWF(kb, ts);
    RootSymbol(kb, ts.head);
  }

  // Skipping the first term of a run.
  lemma Skip(kb: Kbo, a: seq<FlatNode>, i: nat, ts: TermList, j: nat)
    requires ts.Cons? && Holds(kb, a, i, ts) && j == i + Size(ts.head)
    ensures Holds(kb, a, j, ts.tail)
  {
  }

  // The terms still to come after the first k nodes of a run.
  function Drop(ts: TermList, k: nat): TermList
    requires k <= SizeL(ts)
    decreases k
  {
    if k == 0 then ts else UnfoldMeasures(ts); Drop(Unfold(ts), k - 1)
  }

  lemma {:induction false} DropEnc(kb: Kbo, ts: TermList, k: nat)
    requires k <= SizeL(ts)
    ensures EncL(kb, Drop(ts, k)) == EncL(kb, ts)[k..]
    ensures SizeL(Drop(ts, k)) == SizeL(ts) - k
    ensures WFL(kb, ts) ==> WFL(kb, Drop(ts, k))
    decreases k
  {
    if k > 0 {
      UnfoldMeasures(ts);
      UnfoldEnc(kb, ts);
      if WFL(kb, ts) { UnfoldWF(kb, ts); }
      DropEnc(kb, Unfold(ts), k - 1);
    }
  }

  lemma {:induction false} DropNext(ts: TermList, k: nat)
    requires k < SizeL(ts)
    ensures Drop(ts, k).Cons? && Drop(ts, k + 1) == Unfold(Drop(ts, k))
    decreases k
  {
    if k > 0 {
      UnfoldMeasures(ts);
      DropNext(Unfold(ts), k - 1);
    }
  }

  // A node symbol names one term root: labels and variables never collide.
  lemma RootSymbol(kb: Kbo, t: Term)
    requires kb.Valid() && WF(kb, t)
    ensures IsVar(Node(kb, t).sym) <==> t.Var?
    ensures t.Var? ==> VarId(Node(kb, t).sym) == t.id < MAX_VARS
    ensures t.App? ==> Node(kb, t).sym == t.lab < VAR_BIT
  {
  }

  // The n symbols from ao on in a are those from bo on in b.
  predicate SameSyms(a: seq<FlatNode>, ao: nat, b: seq<FlatNode>, bo: nat, n: nat)
    requires ao + n <= |a| && bo + n <= |b|
    decreases n
  {
    n == 0 || (a[ao].sym == b[bo].sym && SameSyms(a, ao + 1, b, bo + 1, n - 1))
  }

  // Two runs of equally many well-formed terms that agree in symbols as far as
  // the shorter one reaches are the same run: the flat form is a prefix code,
  // and symbols alone determine sizes, weights and arities.
  lemma {:induction false} PrefixCode(kb: Kbo, a: seq<FlatNode>, i: nat, ss: TermList, b: seq<FlatNode>, j: nat, ts: TermList, n: nat)
    requires kb.Valid() && WFL(kb, ss) && WFL(kb, ts) && Len(ss) == Len(ts)
    requires Holds(kb, a, i, ss) && Holds(kb, b, j, ts)
    requires n == if SizeL(ss) <= SizeL(ts) then SizeL(ss) else SizeL(ts)
    requires i + n <= |a| && j + n <= |b| && SameSyms(a, i, b, j, n)
    ensures ss == ts
    decreases n
  {
    if ss.Cons? {
      AtHead(kb, a, i, ss);
      AtHead(kb, b, j, ts);
      PrefixCode(kb, a, i + 1, Unfold(ss), b, j + 1, Unfold(ts), n - 1);
      if ss.head.App? { AppendCancel(ss.head.args, ss.tail, ts.head.args, ts.tail); }
    }
  }

  lemma {:induction false} SameSymsRefl(kb: Kbo, a: seq<FlatNode>, i: nat, b: seq<FlatNode>, j: nat, ts: TermList)
    requires Holds(kb, a, i, ts) && Holds(kb, b, j, ts)
    ensures i + SizeL(ts) <= |a| && j + SizeL(ts) <= |b| && SameSyms(a, i, b, j, SizeL(ts))
    decreases SizeL(ts)
  {
    if ts.Cons? {
      UnfoldMeasures(ts);
      HoldsUnfold(kb, a, i, ts);
      HoldsUnfold(kb, b, j, ts);
      SameSymsRefl(kb, a, i + 1, b, j + 1, Unfold(ts));
    }
  }

  lemma {:induction false} AppendCancel(ss: TermList, rest: TermList, ts: TermList, rest': TermList)
    requires Len(ss) == Len(ts) && Append(ss, rest) == Append(ts, rest')
    ensures ss == ts && rest == rest'
  {
    if ss.Cons? { AppendCancel(ss.tail, rest, ts.tail, rest'); }
  }

  // ---- reading the terms back ----

  datatype Parse = Fail | Parsed(ts: TermList, next: nat)

  // Reads n terms from position i on, by symbols and child counts alone.
  function Decode(a: seq<FlatNode>, i: nat, n: nat): (r: Parse)
    requires i <= |a|
    ensures r.Parsed? ==> i <= r.next <= |a| && Len(r.ts) == n
    decreases |a| - i, n
  {
    if n == 0 then Parsed(Nil, i)
    else if i == |a| then Fail
    else
      var args := if IsVar(a[i].sym) then Parsed(Nil, i + 1) else Decode(a, i + 1, a[i].arity);
      if args.Fail? then Fail
      else
        var rest := Decode(a, args.next, n - 1);
        if rest.Fail? then Fail
        else
          var t := if IsVar(a[i].sym) then Var(VarId(a[i].sym)) else App(a[i].sym, args.ts);
          Parsed(Cons(t, rest.ts), rest.next)
  }

  lemma {:induction false} DecodeHolds(kb: Kbo, a: seq<FlatNode>, i: nat, ts: TermList)
    requires kb.Valid() && WFL(kb, ts) && Holds(kb, a, i, ts)
    ensures i + SizeL(ts) <= |a| && Decode(a, i, Len(ts)) == Parsed(ts, i + SizeL(ts))
    decreases ts
  {
    HoldsBounds(kb, a, i, ts);
    if ts.Cons? {
      RootSymbol(kb, ts.head);
      if ts.head.App? { DecodeHolds(kb, a, i + 1, ts.head.args); }
      DecodeHolds(kb, a, i + Size(ts.head), ts.tail);
    }
  }

  // Round trip: what fc_encode wrote reads back as the term it was given.
  lemma DecodeEnc(kb: Kbo, t: Term)
    requires kb.Valid() && WF(kb, t)
    ensures Decode(Enc(kb, t), 0, 1) == Parsed(Cons(t, Nil), Size(t))
  {
    HoldsEnc(kb, t);
    DecodeHolds(kb, Enc(kb, t), 0, Cons(t, Nil));
  }

  // ---- encoding into an arena (fc_encode_rec) ----

  // No term is written past this many nodes (FC_MAX_NODES).
  const MAX_NODES: nat := 8192

  // Where the cursor ends up after n more nodes.
  function Cursor(pos: nat, n: nat): nat {
    if pos + n <= MAX_NODES then pos + n else if pos <= MAX_NODES then MAX_NODES else pos
  }

  // x, written from pos on, is e, or as much of it as fits below the cap: then
  // the symbols are right, but the sizes and weights of cut terms are not.
  ghost predicate Written(pos: nat, x: seq<FlatNode>, e: seq<FlatNode>) {
    && pos + |x| == Cursor(pos, |e|)
    && (pos + |e| <= MAX_NODES ==> x == e)
    && forall k :: 0 <= k < |x| && k < |e| ==> x[k].sym == e[k].sym && x[k].arity == e[k].arity
  }

  lemma WrittenConcat(pos: nat, x: seq<FlatNode>, e: seq<FlatNode>, x': seq<FlatNode>, e': seq<FlatNode>)
    requires Written(pos, x, e) && Written(pos + |x|, x', e')
    ensures Written(pos, x + x', e + e')
  {
    forall k | 0 <= k < |x + x'| && k < |e + e'| ensures (x + x')[k].sym == (e + e')[k].sym && (x + x')[k].arity == (e + e')[k].arity {
      if |x| <= k { assert (x + x')[k] == x'[k - |x|] && (e + e')[k] == e'[k - |e|]; }
    }
  }

  // Writes t in pre-order from pos on: the root's size and weight are patched
  // in after the children have been written.
  method EncodeRec(kb: Kbo, t: Term, out: array<FlatNode>, pos: nat) returns (pos': nat, size: nat)
    requires pos <= out.Length && (pos + Size(t) <= out.Length || MAX_NODES < out.Length)
    modifies out
    ensures pos <= pos' <= out.Length && Written(pos, out[pos..pos'], Enc(kb, t))
    ensures pos + Size(t) <= MAX_NODES ==> size == Size(t)
    ensures out[..pos] == old(out[..pos]) && out[pos'..] == old(out[pos'..])
    decreases t
  {
    if pos >= MAX_NODES { return pos, 0; }
    var self := pos;
    match t
    case Var(id) =>
      out[self] := FlatNode(VAR_BIT + id, 1, kb.varWeight, 0);
      return pos + 1, 1;
    case App(l, args) =>
      var sz, w, n;
      pos', sz, w, n := EncodeChildren(kb, args, out, pos + 1);
      out[self] := FlatNode(l, 1 + sz, kb.LabelWeight(l) + w, n);
      size := 1 + sz;
      assert out[pos..pos'] == [out[pos]] + out[pos + 1..pos'];
      RootWritten(kb, pos, out[pos], out[pos + 1..pos'], t);
  }

  // The children one after the other, their sizes and weights added up.
  method EncodeChildren(kb: Kbo, args: TermList, out: array<FlatNode>, pos: nat)
    returns (pos': nat, sz: nat, w: int, n: nat)
    requires pos <= out.Length && (pos + SizeL(args) <= out.Length || MAX_NODES < out.Length)
    requires pos <= MAX_NODES
    modifies out
    ensures pos <= pos' <= out.Length && Written(pos, out[pos..pos'], EncL(kb, args))
    ensures n == Len(args) && (pos + SizeL(args) <= MAX_NODES ==> sz == SizeL(args) && w == WeightL(kb, args))
    ensures out[..pos] == old(out[..pos]) && out[pos'..] == old(out[pos'..])
    decreases args
  {
    pos', sz, w, n := pos, 0, 0, 0;
    var rest := args;
    ghost var done := Nil;
    while rest.Cons?
      invariant rest == args || rest < args
      invariant args == Append(done, rest) && SizeL(done) + SizeL(rest) == SizeL(args) && n == Len(done)
      invariant pos + SizeL(done) <= MAX_NODES ==> sz == SizeL(done) && w == WeightL(kb, done)
      invariant pos <= pos' <= out.Length && Written(pos, out[pos..pos'], EncL(kb, done))
      invariant out[..pos] == old(out[..pos]) && out[pos'..] == old(out[pos'..])
      decreases rest
    {
      var childRoot := pos';
      var csz;
      ghost var before := out[..];
      pos', csz := EncodeRec(kb, rest.head, out, pos');
      ChildWeight(kb, childRoot, out[..], pos', rest.head);
      sz, w, n := sz + csz, w + out[childRoot].weight, n + 1;
      ExtendDone(kb, args, done, rest);
      Grow(old(out[..]), before, out[..], pos, pos, childRoot, pos');
      WrittenConcat(pos, before[pos..childRoot], EncL(kb, done), out[childRoot..pos'], Enc(kb, rest.head));
      done, rest := Append(done, Cons(rest.head, Nil)), rest.tail;
    }
    AppendNil(done);
  }

  // The node before its children, with the size and weight they add up to.
  lemma RootWritten(kb: Kbo, pos: nat, root: FlatNode, x: seq<FlatNode>, t: Term)
    requires t.App? && pos < MAX_NODES && Written(pos + 1, x, EncL(kb, t.args))
    requires root.sym == t.lab && root.arity == Len(t.args)
    requires pos + Size(t) <= MAX_NODES ==> root == Node(kb, t)
    ensures Written(pos, [root] + x, Enc(kb, t))
  {
    var e := EncL(kb, t.args);
    forall k | 0 <= k < |[root] + x| && k < |Enc(kb, t)|
      ensures ([root] + x)[k].sym == Enc(kb, t)[k].sym && ([root] + x)[k].arity == Enc(kb, t)[k].arity
    {
      if k > 0 { assert ([root] + x)[k] == x[k - 1] && Enc(kb, t)[k] == e[k - 1]; }
    }
  }

  lemma ChildWeight(kb: Kbo, i: nat, a: seq<FlatNode>, j: nat, t: Term)
    requires i <= j <= |a| && i < |a| && Written(i, a[i..j], Enc(kb, t))
    ensures i + Size(t) <= MAX_NODES ==> a[i].weight == Weight(kb, t)
  {
    if i + Size(t) <= MAX_NODES { assert a[i] == a[i..j][0] == Enc(kb, t)[0]; }
  }

  // Writing [i, j) leaves a region [lo, i) to its left in place, and everything
  // outside [pos, j) as it first was.
  lemma Grow<T>(was: seq<T>, before: seq<T>, after: seq<T>, pos: nat, lo: nat, i: nat, j: nat)
    requires |was| == |before| == |after| && pos <= lo <= i <= j <= |after|
    requires before[..pos] == was[..pos] && before[i..] == was[i..]
    requires after[..i] == before[..i] && after[j..] == before[j..]
    ensures after[lo..j] == before[lo..i] + after[i..j]
    ensures after[..pos] == was[..pos] && after[j..] == was[j..]
  {
    assert after[lo..i] == after[..i][lo..] == before[..i][lo..] == before[lo..i];
    assert after[..pos] == after[..i][..pos] == before[..i][..pos] == before[..pos];
    assert before[j..] == before[i..][j - i..] == was[i..][j - i..] == was[j..];
  }

  lemma ExtendDone(kb: Kbo, args: TermList, done: TermList, rest: TermList)
    requires rest.Cons? && args == Append(done, rest)
    ensures var done' := Append(done, Cons(rest.head, Nil));
      && args == Append(done', rest.tail)
      && Len(done') == Len(done) + 1
      && SizeL(done') == SizeL(done) + Size(rest.head)
      && WeightL(kb, done') == WeightL(kb, done) + Weight(kb, rest.head)
      && EncL(kb, done') == EncL(kb, done) + Enc(kb, rest.head)
  {
    var child := Cons(rest.head, Nil);
    AppendAssoc(done, child, rest.tail);
    AppendMeasures(done, child);
    AppendWeight(kb, done, child);
    EncAppend(kb, done, child);
    assert EncL(kb, child) == Enc(kb, rest.head);
  }

  // A whole term at the start of its buffer (fc_encode): complete exactly when
  // it has no more nodes than the cap.
  method Encode(kb: Kbo, t: Term, node: array<FlatNode>) returns (len: nat)
    requires Size(t) <= node.Length || MAX_NODES < node.Length
    modifies node
    ensures len <= node.Length && (node[..len] == Enc(kb, t) <==> Size(t) <= MAX_NODES)
    ensures len == if Size(t) <= MAX_NODES then Size(t) else MAX_NODES
    ensures Written(0, node[..len], Enc(kb, t)) && node[len..] == old(node[len..])
  {
    var size;
    len, size := EncodeRec(kb, t, node, 0);
    assert node[..len] == node[0..len];
  }
}
