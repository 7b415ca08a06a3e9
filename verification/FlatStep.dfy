// One rewrite step on the flat form, and iterating it between two arenas.
module FlatStep {
  import opened FirstOrder
  import opened FlatTerm
  import opened FlatMatch
  import R = Rewriting

  // ---- repairing sizes and weights (fc_fixup) ----

  function SelfWeight(kb: Kbo, sym: nat): nat {
    if IsVar(sym) then kb.varWeight else kb.LabelWeight(sym)
  }

  // Right to left, so that the children of a constructor are already final when
  // it is reached; variable leaves are skipped.  Whatever the sizes and weights
  // of the constructors were, the region ends up as the encoding of ts.
  method Fixup(kb: Kbo, a: array<FlatNode>, base: nat, end: nat, ghost ts: TermList)
    requires kb.Valid() && WFL(kb, ts) && base + SizeL(ts) == end <= a.Length
    requires Skeleton(a[base..end], EncL(kb, ts))
    modifies a
    ensures a[base..end] == EncL(kb, ts)
    ensures a[..base] == old(a[..base]) && a[end..] == old(a[end..])
  {
    ghost var e, was := EncL(kb, ts), a[..];
    assert forall k :: base <= k < end ==> was[base..end][k - base] == was[k];
    var ip := end;
    while ip > base
      invariant base <= ip <= end
      invariant forall k :: base <= k < ip ==> a[k] == was[k]
      invariant forall k :: ip <= k < end ==> a[k] == e[k - base]
      invariant a[..base] == was[..base] && a[end..] == was[end..]
    {
      ip := ip - 1;
      ghost var t := FixupAt(kb, a[..], base, ts, ip - base);
      if !IsVar(a[ip].sym) {
        var sz, w := SumChildren(kb, a, ip, t);
        a[ip] := a[ip].(size := sz, weight := w);
      }
    }
    assert a[base..end] == e;
  }

  // What the pass finds at position base + d when everything to the right is
  // final: a finished variable, or a constructor over its finished children.
  lemma FixupAt(kb: Kbo, a: seq<FlatNode>, base: nat, ts: TermList, d: nat) returns (t: Term)
    requires kb.Valid() && WFL(kb, ts) && d < SizeL(ts) && base + SizeL(ts) <= |a|
    requires SkelNode(a[base + d], EncL(kb, ts)[d])
    requires forall k :: base + d < k < base + SizeL(ts) ==> a[k] == EncL(kb, ts)[k - base]
    ensures WF(kb, t) && EncL(kb, ts)[d] == Node(kb, t)
    ensures IsVar(a[base + d].sym) <==> t.Var?
    ensures t.Var? ==> a[base + d] == Node(kb, t)
    ensures t.App? ==>
              && a[base + d].sym == t.lab && a[base + d].arity == Len(t.args)
              && Holds(kb, a, base + d + 1, t.args)
  {
    DropAt(kb, ts, d);
    HoldsFromSuffix(kb, a, base, ts, d);
    t := Drop(ts, d).head;
    RootSymbol(kb, t);
    if t.App? { HoldsSplit(kb, a, base + d + 1, t.args, Drop(ts, d).tail); }
  }

  // The total size and weight of a constructor over its finished children, each
  // reached by hopping over the previous one.
  method SumChildren(kb: Kbo, a: array<FlatNode>, ip: nat, ghost t: Term) returns (sz: nat, w: int)
    requires kb.Valid() && WF(kb, t) && t.App? && ip < a.Length && ip + 1 <= a.Length
    requires a[ip].sym == t.lab && a[ip].arity == Len(t.args) && !IsVar(t.lab)
    requires Holds(kb, a[..], ip + 1, t.args)
    ensures sz == Size(t) && w == Weight(kb, t)
  {
    sz, w := 1, SelfWeight(kb, a[ip].sym);
    var c: nat := ip + 1;
    ghost var rest := t.args;
    var k := 0;
    while k < a[ip].arity
      invariant k + Len(rest) == a[ip].arity
      invariant sz + SizeL(rest) == Size(t) && w + WeightL(kb, rest) == Weight(kb, t)
      invariant WFL(kb, rest) && Holds(kb, a[..], c, rest)
    {
      AtHead(kb, a[..], c, rest);
      assert a[c] == a[..][c];
      Skip(kb, a[..], c, rest, c + a[c].size);
      sz, w, c := sz + a[c].size, w + a[c].weight, c + a[c].size;
      rest := rest.tail;
      k := k + 1;
    }
  }

  // The d-th node of an encoding is the root of the d-th suffix.
  lemma DropAt(kb: Kbo, ts: TermList, d: nat)
    requires d < SizeL(ts)
    ensures Drop(ts, d).Cons? && EncL(kb, ts)[d] == Node(kb, Drop(ts, d).head)
    ensures WFL(kb, ts) ==> WF(kb, Drop(ts, d).head) && WFL(kb, Drop(ts, d))
  {
    DropNext(ts, d);
    DropEnc(kb, ts, d);
    UnfoldEnc(kb, Drop(ts, d));
    assert EncL(kb, ts)[d] == EncL(kb, ts)[d..][0];
  }

  // Nodes that agree with an encoding from position d + 1 on hold its suffix there.
  lemma HoldsFromSuffix(kb: Kbo, a: seq<FlatNode>, base: nat, ts: TermList, d: nat)
    requires d < SizeL(ts) && base + SizeL(ts) <= |a|
    requires forall k :: base + d < k < base + SizeL(ts) ==> a[k] == EncL(kb, ts)[k - base]
    ensures Drop(ts, d).Cons? && Holds(kb, a, base + d + 1, Unfold(Drop(ts, d)))
  {
    DropNext(ts, d);
    DropEnc(kb, ts, d + 1);
    var q := Unfold(Drop(ts, d));
    HoldsIsSlice(kb, a, base + d + 1, q);
    assert a[base + d + 1..base + SizeL(ts)] == EncL(kb, ts)[d + 1..];
  }

  // ---- the scan position and the tree step ----

  // No rule matches the root of any of the first k pre-order positions.
  ghost predicate NoRedexBefore(rules: seq<R.Rule>, ts: TermList, k: nat)
    requires k <= SizeL(ts)
  {
    forall j :: 0 <= j < k ==> DropCons(ts, j) && R.TryTop(rules, Drop(ts, j).head).None?
  }

  ghost predicate DropCons(ts: TermList, j: nat) {
    j < SizeL(ts) && (DropNext(ts, j); Drop(ts, j).Cons?)
  }

  lemma {:induction false} StepAppend(rules: seq<R.Rule>, ss: TermList, ts: TermList)
    ensures R.StepL(rules, Append(ss, ts)) ==
            var m, n := R.StepL(rules, ss), R.StepL(rules, ts);
            if m.Some? then R.Some(Append(m.value, ts)) else if n.Some? then R.Some(Append(ss, n.value)) else R.None
    ensures R.StepL(rules, ss).Some? ==> Len(R.StepL(rules, ss).value) == Len(ss)
  {
    if ss.Cons? { StepAppend(rules, ss.tail, ts); }
  }

  // When the first root does not fire, stepping the run is stepping what
  // follows that root; the root keeps its symbol and arity.
  lemma StepUnfold(kb: Kbo, rules: seq<R.Rule>, ts: TermList)
    requires kb.Valid() && WFL(kb, ts) && ts.Cons? && R.TryTop(rules, ts.head).None?
    ensures R.StepL(rules, ts).Some? <==> R.StepL(rules, Unfold(ts)).Some?
    ensures R.StepL(rules, ts).Some? ==>
              var ts' := R.StepL(rules, ts).value;
              && ts'.Cons?
              && Unfold(ts') == R.StepL(rules, Unfold(ts)).value
              && SkelNode(Node(kb, ts.head), Node(kb, ts'.head))
  {
    RootSymbol(kb, ts.head);
    if ts.head.App? { StepAppend(rules, ts.head.args, ts.tail); }
  }

  lemma NoRedexUnfold(rules: seq<R.Rule>, ts: TermList, k: nat)
    requires 0 < k <= SizeL(ts) && NoRedexBefore(rules, ts, k)
    ensures ts.Cons? && R.TryTop(rules, ts.head).None?
    ensures SizeL(ts) == 1 + SizeL(Unfold(ts)) && NoRedexBefore(rules, Unfold(ts), k - 1)
  {
    UnfoldMeasures(ts);
    assert DropCons(ts, 0);
    forall j | 0 <= j < k - 1 ensures DropCons(Unfold(ts), j) && R.TryTop(rules, Drop(Unfold(ts), j).head).None? {
      assert DropCons(ts, j + 1);
    }
  }

  lemma {:induction false} NoRedexAnywhere(kb: Kbo, rules: seq<R.Rule>, ts: TermList)
    requires kb.Valid() && WFL(kb, ts) && NoRedexBefore(rules, ts, SizeL(ts))
    ensures R.StepL(rules, ts).None?
    decreases SizeL(ts)
  {
    if ts.Cons? {
      NoRedexUnfold(rules, ts, SizeL(ts));
      UnfoldWF(kb, ts);
      NoRedexAnywhere(kb, rules, Unfold(ts));
      StepUnfold(kb, rules, ts);
    }
  }

  // The first firing position in pre-order is the one the tree step takes, and
  // the step's result reads: the k nodes before it up to sizes and weights,
  // then the replacement, then the untouched rest.
  lemma {:induction false} FirstRedex(kb: Kbo, rules: seq<R.Rule>, ts: TermList, k: nat)
    requires kb.Valid() && WFL(kb, ts) && k < SizeL(ts) && NoRedexBefore(rules, ts, k)
    requires DropCons(ts, k) && R.TryTop(rules, Drop(ts, k).head).Some?
    ensures R.StepL(rules, ts).Some?
    ensures var e, u := EncL(kb, R.StepL(rules, ts).value), R.TryTop(rules, Drop(ts, k).head).value;
      && k <= |e|
      && e[k..] == Enc(kb, u) + EncL(kb, Drop(ts, k).tail)
      && Skeleton(EncL(kb, ts)[..k], e[..k])
    decreases k
  {
    if k > 0 {
      NoRedexUnfold(rules, ts, k);
      UnfoldWF(kb, ts);
      FirstRedex(kb, rules, Unfold(ts), k - 1);
      StepUnfold(kb, rules, ts);
      var ts' := R.StepL(rules, ts).value;
      UnfoldEnc(kb, ts);
      UnfoldEnc(kb, ts');
      var x, e := EncL(kb, Unfold(ts)), EncL(kb, Unfold(ts'));
      assert EncL(kb, ts)[..k] == [Node(kb, ts.head)] + x[..k - 1];
      assert EncL(kb, ts')[..k] == [Node(kb, ts'.head)] + e[..k - 1];
      assert EncL(kb, ts')[k..] == e[k - 1..];
      SkeletonConcat([Node(kb, ts.head)], [Node(kb, ts'.head)], x[..k - 1], e[..k - 1]);
    }
  }

  // ---- one step (fc_step) ----

  // A rule as two flat arrays.
  datatype FcRule = FcRule(lhs: seq<FlatNode>, rhs: seq<FlatNode>)

  ghost predicate RulesEncoded(kb: Kbo, flat: seq<FcRule>, rules: seq<R.Rule>) {
    && |flat| == |rules|
    && forall r :: 0 <= r < |rules| ==> flat[r] == FcRule(Enc(kb, rules[r].lhs), Enc(kb, rules[r].rhs))
  }

  // The nodes encode a pattern of which t is an instance.
  ghost predicate FitsAt(kb: Kbo, lhs: seq<FlatNode>, t: Term) {
    exists l: Term :: WF(kb, l) && Enc(kb, l) == lhs && R.Instance(l, t)
  }

  // The two arrays encode the sides of a rule that sends t to u.
  ghost predicate Gives(kb: Kbo, rule: FcRule, t: Term, u: Term) {
    exists l: Term, r: Term ::
      WF(kb, l) && WF(kb, r) && Enc(kb, l) == rule.lhs && Enc(kb, r) == rule.rhs && R.Sends(R.Rule(l, r), t, u)
  }

  // The nodes of t stand in subj from position q on.
  ghost predicate StandsAt(kb: Kbo, subj: seq<FlatNode>, q: nat, t: Term) {
    q + Size(t) <= |subj| && subj[q..q + Size(t)] == Enc(kb, t)
  }

  // No rule fits a subterm that starts at one of the first n positions.
  ghost predicate Quiet(kb: Kbo, subj: seq<FlatNode>, flat: seq<FcRule>, n: nat) {
    forall q: nat, t: Term, j :: q < n && WF(kb, t) && StandsAt(kb, subj, q, t) && 0 <= j < |flat| ==> !FitsAt(kb, flat[j].lhs, t)
  }

  // The rule written at index r sends d to u, and none written before it fits d.
  ghost predicate Chosen(kb: Kbo, flat: seq<FcRule>, r: nat, d: Term, u: Term) {
    && r < |flat| && Gives(kb, flat[r], d, u)
    && forall j :: 0 <= j < r ==> !FitsAt(kb, flat[j].lhs, d)
  }

  // res is subj with the subterm d at position p replaced by u: nodes before p
  // keep their symbols and arities, those after d stay.
  ghost predicate Replaced(kb: Kbo, subj: seq<FlatNode>, res: seq<FlatNode>, p: nat, d: Term, u: Term) {
    && StandsAt(kb, subj, p, d) && StandsAt(kb, res, p, u)
    && Skeleton(subj[..p], res[..p])
    && res[p + Size(u)..] == subj[p + Size(d)..]
  }

  // The rule written at index r fired at p, the first position where one fits:
  // it is the first that fits the subterm d there, and d is replaced.
  ghost predicate FiredAt(kb: Kbo, subj: seq<FlatNode>, flat: seq<FcRule>, res: seq<FlatNode>, p: nat, r: nat) {
    && p < |subj| && Quiet(kb, subj, flat, p)
    && forall d {:trigger StandsAt(kb, subj, p, d)} :: WF(kb, d) && StandsAt(kb, subj, p, d) ==>
         exists u :: Chosen(kb, flat, r, d, u) && Replaced(kb, subj, res, p, d, u)
  }

  ghost predicate Fired(kb: Kbo, subj: seq<FlatNode>, flat: seq<FcRule>, res: seq<FlatNode>) {
    exists p: nat, r: nat :: FiredAt(kb, subj, flat, res, p, r)
  }

  lemma EncInjective(kb: Kbo, s: Term, t: Term)
    requires kb.Valid() && WF(kb, s) && WF(kb, t) && Enc(kb, s) == Enc(kb, t)
    ensures s == t
  {
    DecodeEnc(kb, s);
    DecodeEnc(kb, t);
  }

  lemma FitsIff(kb: Kbo, lhs: seq<FlatNode>, l: Term, t: Term)
    requires kb.Valid() && WF(kb, l) && lhs == Enc(kb, l)
    ensures FitsAt(kb, lhs, t) <==> R.Instance(l, t)
  {
    forall l': Term | WF(kb, l') && Enc(kb, l') == lhs ensures l' == l { EncInjective(kb, l, l'); }
  }

  // When a term stands at every position before n and none of them fires, no rule fits there.
  lemma QuietBefore(kb: Kbo, rules: seq<R.Rule>, flat: seq<FcRule>, subj: seq<FlatNode>, ts: TermList, n: nat)
    requires kb.Valid() && R.WFRules(kb, rules) && RulesEncoded(kb, flat, rules) && WFL(kb, ts) && subj == EncL(kb, ts)
    requires n <= SizeL(ts) && NoRedexBefore(rules, ts, n)
    ensures Quiet(kb, subj, flat, n)
  {
    forall q: nat, t: Term, j | q < n && WF(kb, t) && StandsAt(kb, subj, q, t) && 0 <= j < |flat| ensures !FitsAt(kb, flat[j].lhs, t) {
      assert DropCons(ts, q);
      StandsOnce(kb, subj, ts, q, t);
      R.TryTopNone(kb, rules, t);
      FitsIff(kb, flat[j].lhs, rules[j].lhs, t);
    }
  }

  // Exactly one term stands at each position of an encoding.
  lemma SomethingStands(kb: Kbo, t: Term, q: nat)
    requires kb.Valid() && WF(kb, t) && q < Size(t)
    ensures exists d :: WF(kb, d) && StandsAt(kb, Enc(kb, t), q, d)
    ensures forall d, d' :: WF(kb, d) && WF(kb, d') && StandsAt(kb, Enc(kb, t), q, d) && StandsAt(kb, Enc(kb, t), q, d') ==> d == d'
  {
    var ts, e := Cons(t, Nil), Enc(kb, t);
    assert EncL(kb, ts) == e;
    DropNext(ts, q);
    assert DropCons(ts, q) && WFL(kb, ts);
    var d := Drop(ts, q);
    DropAt(kb, ts, q);
    DropEnc(kb, ts, q);
    HoldsIsSlice(kb, e, q, d);
    HoldsSplit(kb, e, q, Cons(d.head, Nil), d.tail);
    HeldStands(kb, e, q, d.head);
    assert WF(kb, d.head) && StandsAt(kb, e, q, d.head);
    forall d | WF(kb, d) && StandsAt(kb, e, q, d) ensures d == Drop(ts, q).head { StandsOnce(kb, e, ts, q, d); }
  }

  lemma StandsOnce(kb: Kbo, subj: seq<FlatNode>, ts: TermList, q: nat, t: Term)
    requires kb.Valid() && WFL(kb, ts) && subj == EncL(kb, ts) && DropCons(ts, q)
    requires WF(kb, t) && StandsAt(kb, subj, q, t)
    ensures t == Drop(ts, q).head
  {
    DropEnc(kb, ts, q);
    var e, d := Drop(ts, q).head, Drop(ts, q);
    HeldStands(kb, subj, q, t);
    HoldsIsSlice(kb, subj, q, d);
    HoldsSplit(kb, subj, q, Cons(e, Nil), d.tail);
    DecodeHolds(kb, subj, q, Cons(t, Nil));
    DecodeHolds(kb, subj, q, Cons(e, Nil));
  }

  // Tries the rules at position p, lowest index first, after a look at the top
  // symbol; ok reports a match, and then r and bind describe it.
  method TryRules(kb: Kbo, subj: seq<FlatNode>, p: nat, flat: seq<FcRule>, ghost rules: seq<R.Rule>, ghost t: Term)
    returns (ok: bool, r: nat, bind: array<FcBind>, ghost s: Subst)
    requires kb.Valid() && R.WFRules(kb, rules) && RulesEncoded(kb, flat, rules)
    requires WF(kb, t) && p < |subj| && Holds(kb, subj, p, Cons(t, Nil))
    ensures fresh(bind) && bind.Length == MAX_VARS
    ensures ok <==> R.TryTop(rules, t).Some?
    ensures ok ==> r < |rules| && Bound(kb, subj, p, p + Size(t), bind[..], s)
    ensures ok ==> R.Match(rules[r].lhs, t, map[]) == R.Some(s)
    ensures ok ==> R.TryTop(rules, t).value == Apply(rules[r].rhs, s)
    ensures ok ==> Chosen(kb, flat, r, t, Apply(rules[r].rhs, s))
    ensures !ok ==> forall j :: 0 <= j < |flat| ==> !FitsAt(kb, flat[j].lhs, t)
  {
    AtHead(kb, subj, p, Cons(t, Nil));
    bind := new FcBind[MAX_VARS](_ => FcBind(0, 0));
    r, ok, s := 0, false, map[];
    while r < |flat|
      invariant r <= |flat| && fresh(bind) && bind.Length == MAX_VARS
      invariant R.TryTop(rules, t) == R.TryTop(rules[r..], t)
      invariant forall j :: 0 <= j < r ==> !FitsAt(kb, flat[j].lhs, t)
    {
      var lhs := flat[r].lhs;
      ghost var l := rules[r].lhs;
      RootSymbol(kb, l);
      assert rules[r..][1..] == rules[r + 1..];
      FitsIff(kb, lhs, l, t);
      R.MatchSends(kb, rules[r], t);
      if IsVar(lhs[0].sym) || lhs[0].sym == subj[p].sym {
        bind := new FcBind[MAX_VARS](_ => FcBind(0, 0));
        ok := Match(kb, lhs, subj, p, bind, l, t);
        if ok {
          s := R.Match(l, t, map[]).value;
          assert R.Sends(R.Rule(l, rules[r].rhs), t, Apply(rules[r].rhs, s));
          return;
        }
      }
      r := r + 1;
    }
  }

  // Prefix, substituted right side, suffix: u up to sizes and weights.
  method Splice(kb: Kbo, subj: seq<FlatNode>, p: nat, rhs: seq<FlatNode>, bind: array<FcBind>, out: array<FlatNode>,
                ghost r: Term, ghost s: Subst, ghost rest: TermList, ghost hi: nat, ghost u: Term)
    returns (op: nat)
    requires kb.Valid() && WF(kb, r) && R.Vars(r) <= s.Keys && rhs == Enc(kb, r)
    requires p < |subj| && Bound(kb, subj, p, hi, bind[..], s)
    requires Spliced(kb, subj, p, Apply(r, s), rest, u) && Size(u) <= out.Length
    modifies out
    ensures op == Size(u) && Skeleton(out[..op], Enc(kb, u))
  {
    var skip := subj[p].size;
    SplicedLength(kb, subj, p, Apply(r, s), rest, u);
    op := CopySlice(subj, 0, p, out, 0);
    op := EmitSubst(kb, rhs, subj, bind, out, op, r, s, p, hi);
    ghost var y, mid := out[p..op], op;
    Join(out[..], p, op);
    op := CopySlice(subj, p + skip, |subj| - p - skip, out, op);
    Join(out[..], mid, op);
    SplicedParts(kb, subj, p, y, Apply(r, s), rest, u);
  }

  lemma Join<T>(a: seq<T>, i: nat, j: nat)
    requires i <= j <= |a|
    ensures a[..j] == a[..i] + a[i..j]
  {
  }

  lemma SplicedLength(kb: Kbo, subj: seq<FlatNode>, p: nat, v: Term, rest: TermList, u: Term)
    requires p < |subj| && Spliced(kb, subj, p, v, rest, u)
    ensures Size(u) == p + Size(v) + (|subj| - p - subj[p].size)
  {
    assert |Enc(kb, u)[p..]| == Size(v) + SizeL(rest);
  }

  // Three pieces of the right shape, one after the other.
  lemma SplicedParts(kb: Kbo, subj: seq<FlatNode>, p: nat, y: seq<FlatNode>, v: Term, rest: TermList, u: Term)
    requires p < |subj| && Spliced(kb, subj, p, v, rest, u) && Skeleton(y, Enc(kb, v))
    ensures Skeleton(subj[..p] + y + subj[p + subj[p].size..], Enc(kb, u))
  {
    var e, piece, tail := Enc(kb, u), Enc(kb, v), subj[p + subj[p].size..];
    assert e == e[..p] + piece + EncL(kb, rest);
    SkeletonConcat(subj[..p], e[..p], y, piece);
    SkeletonConcat(subj[..p] + y, e[..p] + piece, tail, EncL(kb, rest));
  }

  // u is subj with the subtree at p replaced by v: the nodes before p may
  // differ in size and weight, those after it, the run rest, are the same.
  ghost predicate Spliced(kb: Kbo, subj: seq<FlatNode>, p: nat, v: Term, rest: TermList, u: Term)
    requires p < |subj|
  {
    && p + subj[p].size <= |subj| && subj[p + subj[p].size..] == EncL(kb, rest)
    && p <= Size(u) && Skeleton(subj[..p], Enc(kb, u)[..p])
    && Enc(kb, u)[p..] == Enc(kb, v) + EncL(kb, rest)
  }

  // The spliced nodes with their sizes and weights repaired: exactly u.
  method Replace(kb: Kbo, subj: seq<FlatNode>, p: nat, rhs: seq<FlatNode>, bind: array<FcBind>, out: array<FlatNode>,
                 ghost r: Term, ghost s: Subst, ghost rest: TermList, ghost hi: nat, ghost u: Term)
    returns (outlen: nat)
    requires kb.Valid() && WF(kb, r) && R.Vars(r) <= s.Keys && rhs == Enc(kb, r) && WF(kb, u)
    requires p < |subj| && Bound(kb, subj, p, hi, bind[..], s)
    requires Spliced(kb, subj, p, Apply(r, s), rest, u) && Size(u) <= out.Length
    modifies out
    ensures outlen == Size(u) && out[..outlen] == Enc(kb, u)
  {
    outlen := Splice(kb, subj, p, rhs, bind, out, r, s, rest, hi, u);
    assert out[0..outlen] == out[..outlen] && EncL(kb, Cons(u, Nil)) == Enc(kb, u);
    Fixup(kb, out, 0, outlen, Cons(u, Nil));
    assert out[0..outlen] == out[..outlen];
  }

  // What the scan knows at position p, and carries on to the next one.
  lemma ScanHead(kb: Kbo, rules: seq<R.Rule>, subj: seq<FlatNode>, ts: TermList, p: nat)
    requires kb.Valid() && p < SizeL(ts) && NoRedexBefore(rules, ts, p)
    requires WFL(kb, Drop(ts, p)) && Holds(kb, subj, p, Drop(ts, p))
    ensures DropCons(ts, p) && p < |subj| && WF(kb, Drop(ts, p).head) && Holds(kb, subj, p, Cons(Drop(ts, p).head, Nil))
    ensures WFL(kb, Drop(ts, p + 1)) && Holds(kb, subj, p + 1, Drop(ts, p + 1))
    ensures R.TryTop(rules, Drop(ts, p).head).None? ==> NoRedexBefore(rules, ts, p + 1)
  {
    DropNext(ts, p);
    AtHead(kb, subj, p, Drop(ts, p));
    assert DropCons(ts, p);
  }

  // The leftmost-outermost redex, found by one left-to-right scan.
  method Step(kb: Kbo, subj: seq<FlatNode>, flat: seq<FcRule>, out: array<FlatNode>, ghost rules: seq<R.Rule>, ghost t: Term)
    returns (fired: bool, outlen: nat)
    requires kb.Valid() && R.WFRules(kb, rules) && RulesEncoded(kb, flat, rules)
    requires WF(kb, t) && subj == Enc(kb, t)
    requires R.Step(rules, t).Some? ==> Size(R.Step(rules, t).value) <= out.Length
    modifies out
    ensures fired <==> R.Step(rules, t).Some?
    ensures fired ==> outlen == Size(R.Step(rules, t).value) && out[..outlen] == Enc(kb, R.Step(rules, t).value)
    ensures fired ==> Fired(kb, subj, flat, out[..outlen])
    ensures !fired ==> Quiet(kb, subj, flat, |subj|)
    ensures !fired ==> unchanged(out)
  {
    ghost var ts := Cons(t, Nil);
    HoldsEnc(kb, t);
    assert R.StepL(rules, ts).Some? <==> R.Step(rules, t).Some?;
    var p: nat := 0;
    while p < |subj|
      invariant p <= |subj| == SizeL(ts) && NoRedexBefore(rules, ts, p)
      invariant WFL(kb, Drop(ts, p)) && Holds(kb, subj, p, Drop(ts, p))
      invariant unchanged(out)
    {
      ghost var d := Drop(ts, p);
      ScanHead(kb, rules, subj, ts, p);
      var ok, r, bind;
      ghost var s;
      ok, r, bind, s := TryRules(kb, subj, p, flat, rules, d.head);
      if ok {
        FiredFacts(kb, rules, t, subj, p, r, s);
        ghost var u := R.Step(rules, t).value;
        FiredHere(kb, rules, flat, subj, ts, p, r, Apply(rules[r].rhs, s), u);
        outlen := Replace(kb, subj, p, flat[r].rhs, bind, out, rules[r].rhs, s, d.tail, p + Size(d.head), u);
        return true, outlen;
      }
      p := p + 1;
    }
    NoRedexAnywhere(kb, rules, ts);
    QuietBefore(kb, rules, flat, subj, ts, |subj|);
    return false, 0;
  }

  lemma HeldStands(kb: Kbo, subj: seq<FlatNode>, p: nat, d: Term)
    ensures StandsAt(kb, subj, p, d) <==> Holds(kb, subj, p, Cons(d, Nil))
  {
    HoldsIsSlice(kb, subj, p, Cons(d, Nil));
    assert EncL(kb, Cons(d, Nil)) == Enc(kb, d);
  }

  lemma Middle<T>(e: seq<T>, p: nat, x: seq<T>, y: seq<T>)
    requires p <= |e| && e[p..] == x + y
    ensures p + |x| <= |e| && e[p..p + |x|] == x && e[p + |x|..] == y
  {
    assert e[p..p + |x|] == e[p..][..|x|];
    assert e[p + |x|..] == e[p..][|x|..];
  }

  // A splice replaces what stands at p.
  lemma SplicedReplaced(kb: Kbo, subj: seq<FlatNode>, p: nat, d: Term, rest: TermList, v: Term, u: Term)
    requires p < |subj| && Holds(kb, subj, p, Cons(d, Nil)) && Spliced(kb, subj, p, v, rest, u)
    ensures Replaced(kb, subj, Enc(kb, u), p, d, v)
  {
    assert subj[p] == Node(kb, d);
    HeldStands(kb, subj, p, d);
    Middle(Enc(kb, u), p, Enc(kb, v), EncL(kb, rest));
  }

  lemma FiredHere(kb: Kbo, rules: seq<R.Rule>, flat: seq<FcRule>, subj: seq<FlatNode>, ts: TermList, p: nat, r: nat, v: Term, u: Term)
    requires kb.Valid() && R.WFRules(kb, rules) && RulesEncoded(kb, flat, rules) && WFL(kb, ts) && subj == EncL(kb, ts)
    requires p < SizeL(ts) && NoRedexBefore(rules, ts, p) && DropCons(ts, p) && WF(kb, Drop(ts, p).head) && p < |subj|
    requires Holds(kb, subj, p, Cons(Drop(ts, p).head, Nil)) && Spliced(kb, subj, p, v, Drop(ts, p).tail, u)
    requires Chosen(kb, flat, r, Drop(ts, p).head, v)
    ensures Fired(kb, subj, flat, Enc(kb, u))
  {
    var h := Drop(ts, p).head;
    QuietBefore(kb, rules, flat, subj, ts, p);
    SplicedReplaced(kb, subj, p, h, Drop(ts, p).tail, v, u);
    forall d | WF(kb, d) && StandsAt(kb, subj, p, d) ensures d == h { StandsOnce(kb, subj, ts, p, d); }
    assert FiredAt(kb, subj, flat, Enc(kb, u), p, r);
  }

  // Everything known once rule r has matched at p and nothing before it.
  lemma FiredFacts(kb: Kbo, rules: seq<R.Rule>, t: Term, subj: seq<FlatNode>, p: nat, r: nat, s: Subst)
    requires kb.Valid() && R.WFRules(kb, rules) && WF(kb, t) && subj == Enc(kb, t)
    requires var ts := Cons(t, Nil); p < SizeL(ts) && NoRedexBefore(rules, ts, p) && DropCons(ts, p)
    requires r < |rules| && R.Match(rules[r].lhs, Drop(Cons(t, Nil), p).head, map[]) == R.Some(s)
    requires R.TryTop(rules, Drop(Cons(t, Nil), p).head) == R.Some(Apply(rules[r].rhs, s))
    ensures R.Step(rules, t).Some? && WF(kb, R.Step(rules, t).value) && R.Vars(rules[r].rhs) <= s.Keys
    ensures p < |subj| && Spliced(kb, subj, p, Apply(rules[r].rhs, s), Drop(Cons(t, Nil), p).tail, R.Step(rules, t).value)
  {
    var ts, d := Cons(t, Nil), Drop(Cons(t, Nil), p);
    assert EncL(kb, ts) == subj;
    FirstRedex(kb, rules, ts, p);
    var u := R.Step(rules, t).value;
    assert R.StepL(rules, ts).value == Cons(u, Nil);
    assert EncL(kb, Cons(u, Nil)) == Enc(kb, u);
    DropAt(kb, ts, p);
    DropEnc(kb, ts, p);
    assert subj[p..] == Enc(kb, d.head) + EncL(kb, d.tail);
    assert subj[p + Size(d.head)..] == subj[p..][Size(d.head)..];
    R.StepWF(kb, rules, t);
    R.MatchIff(kb, rules[r].lhs, d.head, s);
  }

  // ---- iterating (fc_normalize) ----

  // Every iterate up to the cap fits an arena of that length.
  ghost predicate IteratesFit(rules: seq<R.Rule>, t: Term, cap: nat, length: nat)
    decreases cap
  {
    && Size(t) <= length
    && (cap > 0 && R.Step(rules, t).Some? ==> IteratesFit(rules, R.Step(rules, t).value, cap - 1, length))
  }

  lemma {:induction false} AllIteratesFit(rules: seq<R.Rule>, t: Term, cap: nat, length: nat)
    requires forall k :: 0 <= k <= cap ==> Size(R.Normalize(rules, t, k)) <= length
    ensures IteratesFit(rules, t, cap, length)
    decreases cap
  {
    assert R.Normalize(rules, t, 0) == t;
    if cap > 0 && R.Step(rules, t).Some? {
      var u := R.Step(rules, t).value;
      forall k: nat | k <= cap - 1 ensures Size(R.Normalize(rules, u, k)) <= length {
        assert R.Normalize(rules, u, k) == R.Normalize(rules, t, k + 1);
      }
      AllIteratesFit(rules, u, cap - 1, length);
    }
  }

  // Steps from one arena into the other until nothing fires or the cap is hit.
  method Normalize(kb: Kbo, a: array<FlatNode>, alen: nat, flat: seq<FcRule>, b: array<FlatNode>, stepCap: nat,
                   ghost rules: seq<R.Rule>, ghost t: Term)
    returns (result: array<FlatNode>, len: nat)
    requires kb.Valid() && R.WFRules(kb, rules) && RulesEncoded(kb, flat, rules)
    requires a != b && alen <= a.Length && WF(kb, t) && a[..alen] == Enc(kb, t)
    requires forall k :: 0 <= k <= stepCap ==>
               Size(R.Normalize(rules, t, k)) <= a.Length && Size(R.Normalize(rules, t, k)) <= b.Length
    modifies a, b
    ensures result == a || result == b
    ensures len == Size(R.Normalize(rules, t, stepCap)) <= result.Length
    ensures result[..len] == Enc(kb, R.Normalize(rules, t, stepCap))
  {
    AllIteratesFit(rules, t, stepCap, a.Length);
    AllIteratesFit(rules, t, stepCap, b.Length);
    var cur, nxt := a, b;
    len := alen;
    ghost var u := t;
    var i := 0;
    while i < stepCap
      invariant i <= stepCap && WF(kb, u)
      invariant (cur == a && nxt == b) || (cur == b && nxt == a)
      invariant len <= cur.Length && cur[..len] == Enc(kb, u)
      invariant R.Normalize(rules, u, stepCap - i) == R.Normalize(rules, t, stepCap)
      invariant IteratesFit(rules, u, stepCap - i, a.Length) && IteratesFit(rules, u, stepCap - i, b.Length)
    {
      if R.Step(rules, u).Some? { R.StepWF(kb, rules, u); }
      var fired, nlen := Step(kb, cur[..len], flat, nxt, rules, u);
      if !fired { return cur, len; }
      ghost var v := R.Step(rules, u).value;
      cur, nxt := nxt, cur;
      len, u := nlen, v;
      i := i + 1;
    }
    return cur, len;
  }
}
