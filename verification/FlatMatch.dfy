// Matching a flat pattern against a flat subject, and building the substituted
// right side by copying slices.
module FlatMatch {
  import opened FirstOrder
  import opened FlatTerm
  import R = Rewriting

  // ---- comparing slices by symbol (fc_slice_eq) ----

  // Comparing symbols only is enough: slices of equal length with equal symbols
  // hold the same term.
  lemma SymbolsDecide(kb: Kbo, a: seq<FlatNode>, i: nat, s: Term, b: seq<FlatNode>, j: nat, t: Term)
    requires kb.Valid() && WF(kb, s) && WF(kb, t) && Size(s) == Size(t)
    requires Holds(kb, a, i, Cons(s, Nil)) && Holds(kb, b, j, Cons(t, Nil))
    ensures i + Size(s) <= |a| && j + Size(t) <= |b|
    ensures s == t <==> SameSyms(a, i, b, j, Size(s))
  {
    var ss, ts := Cons(s, Nil), Cons(t, Nil);
    HoldsBounds(kb, a, i, ss);
    HoldsBounds(kb, b, j, ts);
    if s == t { SameSymsRefl(kb, a, i, b, j, ss); }
    if SameSyms(a, i, b, j, Size(s)) { PrefixCode(kb, a, i, ss, b, j, ts, Size(s)); }
  }

  method SliceEq(kb: Kbo, a: seq<FlatNode>, ao: nat, b: seq<FlatNode>, bo: nat, n: nat, ghost s: Term, ghost t: Term)
    returns (same: bool)
    requires kb.Valid() && WF(kb, s) && WF(kb, t) && Size(s) == Size(t) == n
    requires Holds(kb, a, ao, Cons(s, Nil)) && Holds(kb, b, bo, Cons(t, Nil))
    ensures same <==> s == t
  {
    SymbolsDecide(kb, a, ao, s, b, bo, t);
    var i := 0;
    while i < n
      invariant 0 <= i <= n
      invariant SameSyms(a, ao, b, bo, n) == SameSyms(a, ao + i, b, bo + i, n - i)
    {
      if a[ao + i].sym != b[bo + i].sym { return false; }
      i := i + 1;
    }
    return true;
  }

  // ---- matching (fc_match) ----

  // A variable's binding: the slice of the subject it stands for; length 0 is unbound.
  datatype FcBind = FcBind(off: nat, len: nat)

  // The table bind, read against the nodes a, is the substitution s, and every
  // bound slice lies within [lo, hi).
  ghost predicate Bound(kb: Kbo, a: seq<FlatNode>, lo: nat, hi: nat, bind: seq<FcBind>, s: Subst) {
    && |bind| == MAX_VARS
    && (forall v :: v in s ==> v < MAX_VARS)
    && forall v :: 0 <= v < MAX_VARS ==>
         if v in s then
           && bind[v].len == Size(s[v])
           && lo <= bind[v].off && bind[v].off + bind[v].len <= hi
           && WF(kb, s[v])
           && Holds(kb, a, bind[v].off, Cons(s[v], Nil))
         else bind[v].len == 0
  }

  // What the head of the pattern decides, and what is left to match after it.
  lemma MatchHead(ps: TermList, ts: TermList, s: Subst)
    requires ps.Cons? && ts.Cons?
    ensures ps.head.Var? && ps.head.id < MAX_VARS && (ps.head.id in s ==> s[ps.head.id] == ts.head) ==>
              R.MatchL(ps, ts, s) == R.MatchL(ps.tail, ts.tail, s[ps.head.id := ts.head])
    ensures ps.head.Var? && ps.head.id in s && s[ps.head.id] != ts.head ==> R.MatchL(ps, ts, s) == R.None
    ensures ps.head.App? && (ts.head.App? ==> ps.head.lab != ts.head.lab) ==> R.MatchL(ps, ts, s) == R.None
    ensures ps.head.App? && ts.head.App? && ps.head.lab == ts.head.lab && Len(ps.head.args) == Len(ts.head.args) ==>
              R.MatchL(ps, ts, s) == R.MatchL(Unfold(ps), Unfold(ts), s)
  {
    if ps.head.Var? {
      if ps.head.id in s && s[ps.head.id] == ts.head { assert s[ps.head.id := ts.head] == s; }
    } else if ts.head.App? && ps.head.lab == ts.head.lab && Len(ps.head.args) == Len(ts.head.args) {
      MatchAppend(ps.head.args, ps.tail, ts.head.args, ts.tail, s);
    }
  }

  lemma {:induction false} MatchAppend(ps: TermList, ps': TermList, ts: TermList, ts': TermList, s: Subst)
    requires Len(ps) == Len(ts)
    ensures R.MatchL(Append(ps, ps'), Append(ts, ts'), s)
         == var m := R.MatchL(ps, ts, s); if m.Some? then R.MatchL(ps', ts', m.value) else R.None
  {
    if ps.Cons? {
      var m := R.Match(ps.head, ts.head, s);
      if m.Some? { MatchAppend(ps.tail, ps', ts.tail, ts', m.value); }
    }
  }

  lemma BoundExtended(kb: Kbo, a: seq<FlatNode>, lo: nat, hi: nat, bind: seq<FcBind>, s: Subst, id: nat, off: nat, t: Term)
    requires Bound(kb, a, lo, hi, bind, s) && id < MAX_VARS && bind[id].len == 0
    requires WF(kb, t) && Holds(kb, a, off, Cons(t, Nil)) && lo <= off && off + Size(t) <= hi
    ensures id !in s
    ensures Bound(kb, a, lo, hi, bind[id := FcBind(off, Size(t))], s[id := t])
  {
  }

  // A variable met for the first time takes the slice; met again, it must have
  // taken an equal one.
  method BindOrCheck(kb: Kbo, subj: seq<FlatNode>, si: nat, slen: nat, id: nat, bind: array<FcBind>,
                     ghost s: Subst, ghost t: Term, ghost lo: nat, ghost hi: nat) returns (same: bool)
    requires kb.Valid() && WF(kb, t) && Holds(kb, subj, si, Cons(t, Nil)) && id < MAX_VARS
    requires slen == Size(t) && lo <= si && si + slen <= hi
    requires Bound(kb, subj, lo, hi, bind[..], s)
    modifies bind
    ensures same <==> (id in s ==> s[id] == t)
    ensures same ==> Bound(kb, subj, lo, hi, bind[..], s[id := t])
  {
    if bind[id].len == 0 {
      BoundExtended(kb, subj, lo, hi, bind[..], s, id, si, t);
      bind[id] := FcBind(si, slen);
      return true;
    }
    if bind[id].len != slen { return false; }
    same := SliceEq(kb, subj, bind[id].off, subj, si, slen, s[id], t);
    if same { assert s[id := t] == s; }
  }

  // The patterns ps at pi and the subjects ts at si are what is left to match of
  // pat and of the subject nodes [lo, hi).
  ghost predicate Lockstep(kb: Kbo, pat: seq<FlatNode>, pi: nat, ps: TermList,
                           subj: seq<FlatNode>, si: nat, ts: TermList, lo: nat, hi: nat) {
    && WFL(kb, ps) && WFL(kb, ts) && Len(ps) == Len(ts)
    && Holds(kb, pat, pi, ps) && pi + SizeL(ps) == |pat|
    && Holds(kb, subj, si, ts) && lo <= si && si + SizeL(ts) == hi
  }

  lemma Advance(kb: Kbo, pat: seq<FlatNode>, pi: nat, ps: TermList, subj: seq<FlatNode>, si: nat, ts: TermList, lo: nat, hi: nat)
    requires kb.Valid() && Lockstep(kb, pat, pi, ps, subj, si, ts, lo, hi) && pi < |pat|
    ensures ps.Cons? && ts.Cons? && si < |subj| && WF(kb, ts.head)
    ensures Holds(kb, subj, si, Cons(ts.head, Nil)) && subj[si].size == Size(ts.head) && si + subj[si].size <= hi
    ensures IsVar(pat[pi].sym) <==> ps.head.Var?
    ensures ps.head.Var? ==> VarId(pat[pi].sym) == ps.head.id < MAX_VARS
    ensures ps.head.Var? ==> Lockstep(kb, pat, pi + 1, Unfold(ps), subj, si + subj[si].size, ts.tail, lo, hi)
    ensures ps.head.App? ==>
              (!IsVar(subj[si].sym) && subj[si].sym == pat[pi].sym <==> ts.head.App? && ps.head.lab == ts.head.lab)
    ensures ps.head.App? && ts.head.App? && ps.head.lab == ts.head.lab ==>
              && Len(ps.head.args) == Len(ts.head.args)
              && Lockstep(kb, pat, pi + 1, Unfold(ps), subj, si + 1, Unfold(ts), lo, hi)
  {
    AtHead(kb, pat, pi, ps);
    AtHead(kb, subj, si, ts);
  }

  // Walks pattern and subject in lockstep; a pattern variable skips the whole
  // subject subtree by its cached size.
  method Match(kb: Kbo, pat: seq<FlatNode>, subj: seq<FlatNode>, sp: nat, bind: array<FcBind>,
               ghost p: Term, ghost t: Term) returns (ok: bool)
    requires kb.Valid() && WF(kb, p) && WF(kb, t)
    requires pat == Enc(kb, p) && Holds(kb, subj, sp, Cons(t, Nil))
    requires Bound(kb, subj, sp, sp + Size(t), bind[..], map[])
    modifies bind
    ensures ok <==> R.Match(p, t, map[]).Some?
    ensures ok ==> Bound(kb, subj, sp, sp + Size(t), bind[..], R.Match(p, t, map[]).value)
  {
    var pi: nat, si: nat := 0, sp;
    ghost var ps, ts, s: Subst, end := Cons(p, Nil), Cons(t, Nil), map[], sp + Size(t);
    HoldsEnc(kb, p);
    ghost var goal := R.Match(p, t, map[]);
    assert R.MatchL(ps, ts, s) == goal;
    while pi < |pat|
      invariant Lockstep(kb, pat, pi, ps, subj, si, ts, sp, end)
      invariant R.MatchL(ps, ts, s) == goal
      invariant Bound(kb, subj, sp, end, bind[..], s)
    {
      ok, si, ts, s := MatchNode(kb, pat, pi, subj, si, bind, ps, ts, s, sp, end);
      if !ok { return; }
      ps := Unfold(ps);
      pi := pi + 1;
    }
    return true;
  }

  // One pattern node against the subject node it meets.
  method MatchNode(kb: Kbo, pat: seq<FlatNode>, pi: nat, subj: seq<FlatNode>, si: nat, bind: array<FcBind>,
                   ghost ps: TermList, ghost ts: TermList, ghost s: Subst, ghost lo: nat, ghost hi: nat)
    returns (ok: bool, si': nat, ghost ts': TermList, ghost s': Subst)
    requires kb.Valid() && pi < |pat| && Lockstep(kb, pat, pi, ps, subj, si, ts, lo, hi)
    requires Bound(kb, subj, lo, hi, bind[..], s)
    modifies bind
    ensures ps.Cons?
    ensures R.MatchL(ps, ts, s) == if ok then R.MatchL(Unfold(ps), ts', s') else R.None
    ensures ok ==> Lockstep(kb, pat, pi + 1, Unfold(ps), subj, si', ts', lo, hi)
    ensures ok ==> Bound(kb, subj, lo, hi, bind[..], s')
  {
    Advance(kb, pat, pi, ps, subj, si, ts, lo, hi);
    MatchHead(ps, ts, s);
    si', ts', s' := si, ts, s;
    var psym := pat[pi].sym;
    if IsVar(psym) {
      var id := VarId(psym);
      var slen := subj[si].size;
      if id >= MAX_VARS { return false, si', ts', s'; }
      ok := BindOrCheck(kb, subj, si, slen, id, bind, s, ts.head, lo, hi);
      si', ts', s' := si + slen, ts.tail, s[id := ts.head];
    } else {
      if IsVar(subj[si].sym) { return false, si', ts', s'; }
      if subj[si].sym != psym { return false, si', ts', s'; }
      ok, si', ts' := true, si + 1, Unfold(ts);
    }
  }

  // ---- substituting by slice copies (fc_emit_subst) ----

  // x has the shape of e: the right symbols and arities, and complete variable
  // leaves.  Sizes and weights of constructors may still be anything.
  ghost predicate Skeleton(x: seq<FlatNode>, e: seq<FlatNode>) {
    |x| == |e| && forall k :: 0 <= k < |e| ==> SkelNode(x[k], e[k])
  }

  ghost predicate SkelNode(x: FlatNode, e: FlatNode) {
    x.sym == e.sym && x.arity == e.arity && (IsVar(e.sym) ==> x == e)
  }

  lemma SkeletonConcat(x: seq<FlatNode>, e: seq<FlatNode>, x': seq<FlatNode>, e': seq<FlatNode>)
    requires Skeleton(x, e) && Skeleton(x', e')
    ensures Skeleton(x + x', e + e')
  {
  }

  // Copies subj[off..off + len) to out from op on.
  method CopySlice(subj: seq<FlatNode>, off: nat, len: nat, out: array<FlatNode>, op: nat) returns (op': nat)
    requires off + len <= |subj| && op + len <= out.Length
    modifies out
    ensures op' == op + len && out[op..op'] == subj[off..off + len]
    ensures out[..op] == old(out[..op]) && out[op'..] == old(out[op'..])
  {
    var k := 0;
    while k < len
      invariant k <= len
      invariant out[op..op + k] == subj[off..off + k]
      invariant out[..op] == old(out[..op]) && out[op + k..] == old(out[op + k..])
    {
      out[op + k] := subj[off + k];
      k := k + 1;
    }
    op' := op + len;
  }

  method EmitSubst(kb: Kbo, rhs: seq<FlatNode>, subj: seq<FlatNode>, bind: array<FcBind>, out: array<FlatNode>, op: nat,
                   ghost r: Term, ghost s: Subst, ghost lo: nat, ghost hi: nat) returns (op': nat)
    requires kb.Valid() && WF(kb, r) && R.Vars(r) <= s.Keys
    requires rhs == Enc(kb, r) && Bound(kb, subj, lo, hi, bind[..], s)
    requires op + Size(Apply(r, s)) <= out.Length
    modifies out
    ensures op' == op + Size(Apply(r, s))
    ensures Skeleton(out[op..op'], Enc(kb, Apply(r, s)))
    ensures out[..op] == old(out[..op]) && out[op'..] == old(out[op'..])
  {
    op' := op;
    ghost var ps, was, x := Cons(r, Nil), out[..], [];
    ghost var e := Enc(kb, Apply(r, s));
    TemplateStart(kb, rhs, r, s);
    var ri: nat := 0;
    while ri < |rhs|
      invariant ri + SizeL(ps) == |rhs| && Holds(kb, rhs, ri, ps)
      invariant WFL(kb, ps) && R.VarsL(ps) <= s.Keys
      invariant Emitted(kb, x, e, ps, s) && Grown(was, out[..], op, op', x) && bind[..] == old(bind[..])
    {
      TemplateNext(kb, rhs, ri, ps, s);
      EmittedRoom(kb, x, e, ps, s);
      ghost var before, i := out[..], op';
      op' := EmitNode(kb, rhs[ri], subj, bind, out, op', ps.head, s, lo, hi);
      x := EmitNext(kb, was, before, out[..], op, i, op', x, e, ps, s);
      ps := Unfold(ps);
      ri := ri + 1;
    }
    EmittedWhole(kb, x, e, ps, s);
    GrownSlices(was, out[..], op, op', x);
  }

  // x has been written from lo on, up to j, and nothing else.
  ghost predicate Grown<T>(was: seq<T>, now: seq<T>, lo: nat, j: nat, x: seq<T>) {
    && |was| == |now| && lo + |x| == j <= |now|
    && (forall k :: 0 <= k < |now| && !(lo <= k < j) ==> now[k] == was[k])
    && (forall k :: 0 <= k < |x| ==> now[lo + k] == x[k])
  }

  lemma GrownSlices<T>(was: seq<T>, now: seq<T>, lo: nat, j: nat, x: seq<T>)
    requires |was| == |now| && lo <= j <= |now|
    ensures Grown(was, now, lo, j, x) <==> now[..lo] == was[..lo] && now[lo..j] == x && now[j..] == was[j..]
  {
    if now[..lo] == was[..lo] && now[lo..j] == x && now[j..] == was[j..] {
      assert now == now[..lo] + now[lo..j] + now[j..];
      assert was == was[..lo] + was[lo..j] + was[j..];
    }
  }

  lemma EmitNext(kb: Kbo, was: seq<FlatNode>, before: seq<FlatNode>, now: seq<FlatNode>, lo: nat, i: nat, j: nat,
                 x: seq<FlatNode>, e: seq<FlatNode>, ps: TermList, s: Subst) returns (x': seq<FlatNode>)
    requires ps.Cons? && Emitted(kb, x, e, ps, s) && Grown(was, before, lo, i, x)
    requires |now| == |before| && i <= j <= |now| && now[..i] == before[..i] && now[j..] == before[j..]
    requires Skeleton(now[i..j], Piece(kb, ps.head, s))
    ensures Emitted(kb, x', e, Unfold(ps), s) && Grown(was, now, lo, j, x')
  {
    x' := x + now[i..j];
    GrownSlices(was, before, lo, i, x);
    GrownSlices(was, now, lo, j, x');
    Grow(was, before, now, lo, lo, i, j);
    EmitProgress(kb, x, now[i..j], e, ps, s);
  }

  lemma TemplateStart(kb: Kbo, rhs: seq<FlatNode>, r: Term, s: Subst)
    requires WF(kb, r) && R.Vars(r) <= s.Keys && rhs == Enc(kb, r)
    ensures var ps := Cons(r, Nil);
      && SizeL(ps) == |rhs| && Holds(kb, rhs, 0, ps) && WFL(kb, ps) && R.VarsL(ps) <= s.Keys
      && Emitted(kb, [], Enc(kb, Apply(r, s)), ps, s)
  {
    HoldsEnc(kb, r);
    assert ApplyL(Cons(r, Nil), s) == Cons(Apply(r, s), Nil);
    assert EncL(kb, Cons(Apply(r, s), Nil)) == Enc(kb, Apply(r, s));
  }

  // The template node at ri, and what the template still holds after it.
  lemma TemplateNext(kb: Kbo, rhs: seq<FlatNode>, ri: nat, ps: TermList, s: Subst)
    requires kb.Valid() && WFL(kb, ps) && Holds(kb, rhs, ri, ps) && R.VarsL(ps) <= s.Keys
    requires ri < |rhs| && ri + SizeL(ps) == |rhs|
    ensures ps.Cons? && rhs[ri] == Node(kb, ps.head) && WF(kb, ps.head) && R.Vars(ps.head) <= s.Keys
    ensures ri + 1 + SizeL(Unfold(ps)) == |rhs| && Holds(kb, rhs, ri + 1, Unfold(ps))
    ensures WFL(kb, Unfold(ps)) && R.VarsL(Unfold(ps)) <= s.Keys
  {
    AtHead(kb, rhs, ri, ps);
    UnfoldApply(kb, ps, s);
  }

  // x has the shape of all of e but the part that the template ps still yields.
  ghost predicate Emitted(kb: Kbo, x: seq<FlatNode>, e: seq<FlatNode>, ps: TermList, s: Subst) {
    |x| <= |e| && Skeleton(x, e[..|x|]) && e[|x|..] == EncL(kb, ApplyL(ps, s))
  }

  lemma EmittedWhole(kb: Kbo, x: seq<FlatNode>, e: seq<FlatNode>, ps: TermList, s: Subst)
    requires Emitted(kb, x, e, ps, s) && SizeL(ps) == 0
    ensures |x| == |e| && Skeleton(x, e)
  {
    assert ps == Nil;
    assert e[..|x|] == e;
  }

  lemma EmittedRoom(kb: Kbo, x: seq<FlatNode>, e: seq<FlatNode>, ps: TermList, s: Subst)
    requires ps.Cons? && Emitted(kb, x, e, ps, s)
    ensures |x| + |Piece(kb, ps.head, s)| <= |e|
  {
    UnfoldApply(kb, ps, s);
  }

  // One template node: a variable's slice, or a constructor whose size and
  // weight stay unset.
  method EmitNode(kb: Kbo, node: FlatNode, subj: seq<FlatNode>, bind: array<FcBind>, out: array<FlatNode>, op: nat,
                  ghost t: Term, ghost s: Subst, ghost lo: nat, ghost hi: nat) returns (op': nat)
    requires kb.Valid() && WF(kb, t) && R.Vars(t) <= s.Keys
    requires node == Node(kb, t) && Bound(kb, subj, lo, hi, bind[..], s)
    requires op + |Piece(kb, t, s)| <= out.Length
    modifies out
    ensures op' == op + |Piece(kb, t, s)| && Skeleton(out[op..op'], Piece(kb, t, s))
    ensures out[..op] == old(out[..op]) && out[op'..] == old(out[op'..])
  {
    RootSymbol(kb, t);
    if IsVar(node.sym) {
      var b := bind[VarId(node.sym)];
      assert t.id in R.Vars(t);
      HoldsIsSlice(kb, subj, b.off, Cons(s[t.id], Nil));
      assert EncL(kb, Cons(s[t.id], Nil)) == Enc(kb, s[t.id]);
      op' := CopySlice(subj, b.off, b.len, out, op);
    } else {
      ApplyLen(t.args, s);
      out[op] := out[op].(sym := node.sym, arity := node.arity);
      op' := op + 1;
    }
  }

  // The nodes that one template node stands for after substitution.
  ghost function Piece(kb: Kbo, t: Term, s: Subst): seq<FlatNode> {
    if t.Var? then Enc(kb, Apply(t, s)) else [Node(kb, Apply(t, s))]
  }

  lemma UnfoldApply(kb: Kbo, ps: TermList, s: Subst)
    requires ps.Cons?
    ensures EncL(kb, ApplyL(ps, s)) == Piece(kb, ps.head, s) + EncL(kb, ApplyL(Unfold(ps), s))
    ensures R.VarsL(Unfold(ps)) <= R.VarsL(ps)
    ensures ps.head.App? ==> Node(kb, Apply(ps.head, s)).arity == Node(kb, ps.head).arity
  {
    if ps.head.App? {
      ApplyAppend(ps.head.args, ps.tail, s);
      VarsAppend(ps.head.args, ps.tail);
      ApplyLen(ps.head.args, s);
      UnfoldEnc(kb, ApplyL(ps, s));
    }
  }

  lemma {:induction false} ApplyLen(ts: TermList, s: Subst)
    ensures Len(ApplyL(ts, s)) == Len(ts)
  {
    if ts.Cons? { ApplyLen(ts.tail, s); }
  }

  lemma {:induction false} VarsAppend(ss: TermList, ts: TermList)
    ensures R.VarsL(Append(ss, ts)) == R.VarsL(ss) + R.VarsL(ts)
  {
    if ss.Cons? { VarsAppend(ss.tail, ts); }
  }

  lemma EmitProgress(kb: Kbo, x: seq<FlatNode>, y: seq<FlatNode>, e: seq<FlatNode>, ps: TermList, s: Subst)
    requires ps.Cons? && Emitted(kb, x, e, ps, s) && Skeleton(y, Piece(kb, ps.head, s))
    ensures Emitted(kb, x + y, e, Unfold(ps), s)
  {
    UnfoldApply(kb, ps, s);
    var d, piece, rest := |x|, Piece(kb, ps.head, s), EncL(kb, ApplyL(Unfold(ps), s));
    assert e == e[..d] + (piece + rest);
    assert e[..d + |piece|] == e[..d] + piece;
    assert e[d + |piece|..] == rest;
    SkeletonConcat(x, e[..d], y, piece);
  }
}
