// The emitted tree_sum program on the fork/join runtime: tasks, two-slot
// continuation cells with a pending counter, and workers that interleave freely.
module ForkJoin {

  const U32: nat := 0x1_0000_0000

  // ---- the program ----

  // A result word: a number with its type tag, the erasure of the default arm,
  // or the zero word of a fresh cell.
  datatype Value = Num(ext: nat, val: nat) | Era | Blank

  function Val(v: Value): nat {
    if v.Num? then v.val % U32 else 0
  }

  function Ext(v: Value): nat {
    if v.Num? then v.ext else 0
  }

  // What the argument of a task evaluates to.
  datatype Tree = Leaf(v: Value) | Node(left: Tree, right: Tree) | Other

  // The continuation: both results as 32-bit numbers, added with wrap-around.
  function Fold(a: Value, b: Value): Value {
    Num(Ext(a), (Val(a) + Val(b)) % U32)
  }

  // The sum the source program denotes.
  function Sum(t: Tree): Value {
    match t
    case Leaf(v) => v
    case Node(l, r) => Fold(Sum(l), Sum(r))
    case Other => Era
  }

  // ---- return addresses ----

  datatype Ret = Root | Slot(dp: nat, k: nat)

  // (dp << 1) | slot in 32 bits; all ones is the root.
  function Encode(r: Ret): nat {
    match r
    case Root => U32 - 1
    case Slot(dp, k) => (dp * 2 + k % 2) % U32
  }

  function Decode(w: nat): Ret {
    if w == U32 - 1 then Root else Slot(w / 2, w % 2)
  }

  // A slot address survives the packing exactly when the cell lies below 2^31
  // and the word is not the one reserved for the root.
  lemma EncodeRoundTrip(dp: nat, k: nat)
    requires k < 2
    ensures Decode(Encode(Slot(dp, k))) == Slot(dp, k) <==>
            dp < 0x8000_0000 && !(dp == 0x7FFF_FFFF && k == 1)
    ensures dp < 0x8000_0000 ==> Encode(Slot(dp, k)) == 2 * dp + k
    ensures 0x8000_0000 <= dp < 0x1_0000_0000 ==> Encode(Slot(dp, k)) == 2 * (dp - 0x8000_0000) + k
  {
    var w := Encode(Slot(dp, k));
    if dp < 0x8000_0000 {
      assert w == dp * 2 + k;
      assert w / 2 == dp && w % 2 == k;
    } else {
      assert w / 2 < 0x8000_0000;
    }
  }

  // ---- the machine ----

  // A continuation cell: where its own result goes, the two child words, and
  // how many children have not landed.
  datatype Cell = Cell(ret: Ret, child: seq<Value>, pending: nat)

  // What one worker holds between two atomic events.
  datatype Act =
    | Run(t: Tree, ret: Ret)        // a queued task
    | Deliver(ret: Ret, v: Value)   // a value on its way up
    | Stored(ret: Ret)              // written, counter not yet decremented
    | Fire(dp: nat)                 // last writer: the continuation is this worker's
    | Done

  // Shared memory: the live cells and the program's answer word.
  datatype Mem = Mem(cells: map<nat, Cell>, result: Value)

  datatype State = State(acts: seq<Act>, mem: Mem, done: bool)

  function Init(root: Tree): State {
    State([Run(root, Root)], Mem(map[], Blank), false)
  }

  // Activity i can take its next atomic event; dp is the cell address it gets
  // if it allocates one.
  predicate Enabled(s: State, i: nat, dp: nat) {
    && i < |s.acts|
    && match s.acts[i]
       case Run(t, _) => t.Node? ==> dp !in s.mem.cells
       case Deliver(ret, _) => ret.Slot? ==> ret.dp in s.mem.cells && ret.k < |s.mem.cells[ret.dp].child|
       case Stored(ret) => ret.Slot? ==> ret.dp in s.mem.cells && s.mem.cells[ret.dp].pending > 0
       case Fire(d) => d in s.mem.cells && |s.mem.cells[d].child| == 2
       case Done => false
  }

  function Step(s: State, i: nat, dp: nat): State
    requires Enabled(s, i, dp)
  {
    match s.acts[i]
    case Run(Leaf(v), ret) => s.(acts := s.acts[i := Deliver(ret, v)])
    case Run(Other, ret) => s.(acts := s.acts[i := Deliver(ret, Era)])
    case Run(Node(l, r), ret) =>
      s.(acts := s.acts[i := Run(l, Slot(dp, 0))] + [Run(r, Slot(dp, 1))],
         mem := s.mem.(cells := s.mem.cells[dp := Cell(ret, [Blank, Blank], 2)]))
    case Deliver(Root, v) => s.(acts := s.acts[i := Stored(Root)], mem := s.mem.(result := v))
    case Deliver(Slot(d, k), v) =>
      var c := s.mem.cells[d];
      s.(acts := s.acts[i := Stored(Slot(d, k))], mem := s.mem.(cells := s.mem.cells[d := c.(child := c.child[k := v])]))
    case Stored(Root) => s.(acts := s.acts[i := Done], done := true)
    case Stored(Slot(d, _)) =>
      var c := s.mem.cells[d];
      s.(acts := s.acts[i := if c.pending == 1 then Fire(d) else Done],
         mem := s.mem.(cells := s.mem.cells[d := c.(pending := c.pending - 1)]))
    case Fire(d) =>
      var c := s.mem.cells[d];
      s.(acts := s.acts[i := Deliver(c.ret, Fold(c.child[0], c.child[1]))], mem := s.mem.(cells := s.mem.cells - {d}))
  }

  ghost predicate Next(s: State, s': State) {
    exists i: nat, dp: nat :: Enabled(s, i, dp) && s' == Step(s, i, dp)
  }

  // A schedule: any worker may move at any time.
  ghost predicate Schedule(run: seq<State>, root: Tree) {
    && run != []
    && run[0] == Init(root)
    && forall j :: 0 < j < |run| ==> Next(run[j - 1], run[j])
  }

  // ---- who owes what ----

  datatype Owner = ByAct(i: nat) | ByCell(d: nat)

  // Bookkeeping for the proof: the subtrees a cell was made for, who owes each
  // open return address, and which activity is about to fire a full cell.
  datatype Book = Book(subtree: map<nat, seq<Tree>>, owner: map<Ret, Owner>, firing: map<nat, nat>)

  predicate Known(m: Mem, r: Ret) {
    r.Slot? ==> r.dp in m.cells && r.k < 2
  }

  // The tree whose sum is expected at r.
  ghost function Expected(root: Tree, b: Book, r: Ret): Tree
    requires r.Slot? ==> r.dp in b.subtree && r.k < |b.subtree[r.dp]|
  {
    if r.Root? then root else b.subtree[r.dp][r.k]
  }

  function Open(b: Book, r: Ret): nat {
    if r in b.owner then 1 else 0
  }

  predicate Owes(a: Act, r: Ret) {
    (a.Run? || a.Deliver? || a.Stored?) && a.ret == r
  }

  // The word stored for r is the expected sum.
  ghost predicate Right(m: Mem, root: Tree, b: Book, r: Ret)
    requires Shape(m, b) && Known(m, r)
  {
    (if r.Root? then m.result else m.cells[r.dp].child[r.k]) == Sum(Expected(root, b, r))
  }

  ghost predicate Shape(m: Mem, b: Book) {
    && b.subtree.Keys == m.cells.Keys
    && forall d :: d in m.cells ==> |b.subtree[d]| == 2 && |m.cells[d].child| == 2
  }

  predicate Owned(m: Mem, b: Book, r: Ret, o: Owner) {
    Known(m, r) && r in b.owner && b.owner[r] == o
  }

  ghost predicate ActOk(m: Mem, root: Tree, b: Book, a: Act, i: nat)
    requires Shape(m, b)
  {
    match a
    case Run(t, ret) => Owned(m, b, ret, ByAct(i)) && t == Expected(root, b, ret)
    case Deliver(ret, v) => Owned(m, b, ret, ByAct(i)) && v == Sum(Expected(root, b, ret))
    case Stored(ret) => Owned(m, b, ret, ByAct(i)) && Right(m, root, b, ret)
    case Fire(d) => d in b.firing && b.firing[d] == i
    case Done => true
  }

  ghost predicate CellOk(m: Mem, root: Tree, b: Book, d: nat)
    requires Shape(m, b) && d in m.cells
  {
    var c := m.cells[d];
    && Owned(m, b, c.ret, ByCell(d))
    && Expected(root, b, c.ret) == Node(b.subtree[d][0], b.subtree[d][1])
    && c.pending == Open(b, Slot(d, 0)) + Open(b, Slot(d, 1))
    && (c.pending == 0 <==> d in b.firing)
    && (Slot(d, 0) !in b.owner ==> Right(m, root, b, Slot(d, 0)))
    && (Slot(d, 1) !in b.owner ==> Right(m, root, b, Slot(d, 1)))
  }

  ghost predicate OwnerOk(acts: seq<Act>, m: Mem, b: Book, r: Ret)
    requires r in b.owner
  {
    && Known(m, r)
    && match b.owner[r]
       case ByAct(i) => i < |acts| && Owes(acts[i], r)
       case ByCell(d) => d in m.cells && m.cells[d].ret == r
  }

  ghost predicate ActsOk(s: State, root: Tree, b: Book)
    requires Shape(s.mem, b)
  {
    forall i {:trigger ActOk(s.mem, root, b, s.acts[i], i)} :: 0 <= i < |s.acts| ==> ActOk(s.mem, root, b, s.acts[i], i)
  }

  ghost predicate CellsOk(s: State, root: Tree, b: Book)
    requires Shape(s.mem, b)
  {
    forall d {:trigger CellOk(s.mem, root, b, d)} :: d in s.mem.cells ==> CellOk(s.mem, root, b, d)
  }

  ghost predicate FiringOk(s: State, b: Book) {
    forall d {:trigger b.firing[d]} :: d in b.firing ==>
      d in s.mem.cells && b.firing[d] < |s.acts| && s.acts[b.firing[d]] == Fire(d)
  }

  ghost predicate OwnersOk(s: State, root: Tree, b: Book)
    requires Shape(s.mem, b)
  {
    && (forall r {:trigger OwnerOk(s.acts, s.mem, b, r)} :: r in b.owner ==> OwnerOk(s.acts, s.mem, b, r))
    && (s.done <==> Root !in b.owner)
    && (s.done ==> Right(s.mem, root, b, Root))
  }

  // Every open address is owed by exactly one activity or cell, every filled
  // slot holds the sum of its subtree, and a cell counts its open slots.
  ghost predicate Inv(s: State, root: Tree, b: Book) {
    Shape(s.mem, b) && ActsOk(s, root, b) && CellsOk(s, root, b) && FiringOk(s, b) && OwnersOk(s, root, b)
  }

  lemma InitInv(root: Tree)
    ensures Inv(Init(root), root, Book(map[], map[Root := ByAct(0)], map[]))
  {
  }

  // The bookkeeping after one event.
  ghost function NextBook(s: State, b: Book, i: nat, dp: nat): Book
    requires Enabled(s, i, dp)
  {
    match s.acts[i]
    case Run(Node(l, r), ret) =>
      b.(subtree := b.subtree[dp := [l, r]],
         owner := b.owner[ret := ByCell(dp)][Slot(dp, 0) := ByAct(i)][Slot(dp, 1) := ByAct(|s.acts|)])
    case Stored(ret) =>
      var b' := b.(owner := b.owner - {ret});
      if ret.Slot? && s.mem.cells[ret.dp].pending == 1 then b'.(firing := b.firing[ret.dp := i]) else b'
    case Fire(d) =>
      b.(subtree := b.subtree - {d}, owner := b.owner[s.mem.cells[d].ret := ByAct(i)], firing := b.firing - {d})
    case _ => b
  }

  // Two open addresses with different owners are different addresses.
  lemma OthersUntouched(s: State, root: Tree, b: Book, i: nat, r: Ret)
    requires Inv(s, root, b) && i < |s.acts| && Owes(s.acts[i], r)
    ensures r in b.owner && b.owner[r] == ByAct(i) && Known(s.mem, r) && ActOk(s.mem, root, b, s.acts[i], i)
    ensures forall j :: 0 <= j < |s.acts| && j != i ==> !Owes(s.acts[j], r)
    ensures forall d :: d in s.mem.cells ==> s.mem.cells[d].ret != r
  {
    assert ActOk(s.mem, root, b, s.acts[i], i);
    forall j | 0 <= j < |s.acts| && j != i ensures !Owes(s.acts[j], r) { assert ActOk(s.mem, root, b, s.acts[j], j); }
    forall d | d in s.mem.cells ensures s.mem.cells[d].ret != r { assert CellOk(s.mem, root, b, d); }
  }

  lemma NoStrayAddress(s: State, root: Tree, b: Book, dp: nat)
    requires Inv(s, root, b) && dp !in s.mem.cells
    ensures forall r :: r in b.owner && r.Slot? ==> r.dp != dp
  {
    forall r | r in b.owner && r.Slot? ensures r.dp != dp { assert OwnerOk(s.acts, s.mem, b, r); }
  }

  // Nobody owes a slot of a cell that is about to fire.
  lemma FullCell(s: State, root: Tree, b: Book, i: nat)
    requires Inv(s, root, b) && i < |s.acts| && s.acts[i].Fire?
    ensures var d := s.acts[i].dp;
      && d in s.mem.cells && CellOk(s.mem, root, b, d) && s.mem.cells[d].pending == 0 && d in b.firing && b.firing[d] == i
      && (forall r :: r in b.owner && r.Slot? ==> r.dp != d)
      && Right(s.mem, root, b, Slot(d, 0)) && Right(s.mem, root, b, Slot(d, 1))
      && s.mem.cells[d].ret in b.owner && b.owner[s.mem.cells[d].ret] == ByCell(d)
  {
    var d := s.acts[i].dp;
    assert ActOk(s.mem, root, b, s.acts[i], i) && CellOk(s.mem, root, b, d);
    assert Slot(d, 0) !in b.owner && Slot(d, 1) !in b.owner;
    forall r | r in b.owner && r.Slot? ensures r.dp != d {
      assert OwnerOk(s.acts, s.mem, b, r);
      assert r == Slot(r.dp, 0) || r == Slot(r.dp, 1);
    }
  }

  // Every cell keeps its two slots and its pair of subtrees.
  lemma EventShape(s: State, root: Tree, b: Book, i: nat, dp: nat, s': State, b': Book)
    requires Event(s, root, b, i, dp, s', b')
    ensures Shape(s'.mem, b')
  {
    assert ActOk(s.mem, root, b, s.acts[i], i);
  }

  // A cell that no part of the event concerns stays in order.
  lemma CellKept(m: Mem, m': Mem, root: Tree, b: Book, b': Book, d: nat)
    requires Shape(m, b) && Shape(m', b') && d in m.cells && CellOk(m, root, b, d)
    requires d in m'.cells && m'.cells[d] == m.cells[d] && b'.subtree[d] == b.subtree[d]
    requires var r := m.cells[d].ret;
      && r in b'.owner && b'.owner[r] == ByCell(d)
      && (r.Slot? ==> r.dp in m'.cells && b'.subtree[r.dp] == b.subtree[r.dp])
    requires forall k :: Slot(d, k) in b'.owner <==> Slot(d, k) in b.owner
    requires d in b'.firing <==> d in b.firing
    ensures CellOk(m', root, b', d)
  {
  }

  // One event from an orderly state.
  ghost predicate Event(s: State, root: Tree, b: Book, i: nat, dp: nat, s': State, b': Book) {
    Inv(s, root, b) && Enabled(s, i, dp) && s' == Step(s, i, dp) && b' == NextBook(s, b, i, dp)
  }

  lemma RunActs(s: State, root: Tree, b: Book, i: nat, dp: nat, s': State, b': Book)
    requires Event(s, root, b, i, dp, s', b') && s.acts[i].Run? && !s.acts[i].t.Node?
    ensures Shape(s'.mem, b') && ActsOk(s', root, b')
  {
    EventShape(s, root, b, i, dp, s', b');
    OthersUntouched(s, root, b, i, s.acts[i].ret);
    forall j | 0 <= j < |s'.acts| ensures ActOk(s'.mem, root, b', s'.acts[j], j) {
      assert ActOk(s.mem, root, b, s.acts[j], j);
    }
  }

  lemma RunRest(s: State, root: Tree, b: Book, i: nat, dp: nat, s': State, b': Book)
    requires Event(s, root, b, i, dp, s', b') && s.acts[i].Run? && !s.acts[i].t.Node?
    ensures Shape(s'.mem, b') && CellsOk(s', root, b') && FiringOk(s', b') && OwnersOk(s', root, b')
  {
    EventShape(s, root, b, i, dp, s', b');
    OthersUntouched(s, root, b, i, s.acts[i].ret);
    forall d | d in s'.mem.cells ensures CellOk(s'.mem, root, b', d) {
      assert CellOk(s.mem, root, b, d);
    }
    forall r | r in b'.owner ensures OwnerOk(s'.acts, s'.mem, b', r) {
      assert OwnerOk(s.acts, s.mem, b, r);
    }
  }

  lemma SplitActs(s: State, root: Tree, b: Book, i: nat, dp: nat, s': State, b': Book)
    requires Event(s, root, b, i, dp, s', b') && s.acts[i].Run? && s.acts[i].t.Node?
    ensures Shape(s'.mem, b') && ActsOk(s', root, b')
  {
    EventShape(s, root, b, i, dp, s', b');
    OthersUntouched(s, root, b, i, s.acts[i].ret);
    NoStrayAddress(s, root, b, dp);
    forall j | 0 <= j < |s'.acts| ensures ActOk(s'.mem, root, b', s'.acts[j], j) {
      if j != i && j < |s.acts| { assert ActOk(s.mem, root, b, s.acts[j], j); }
    }
  }

  lemma SplitCells(s: State, root: Tree, b: Book, i: nat, dp: nat, s': State, b': Book)
    requires Event(s, root, b, i, dp, s', b') && s.acts[i].Run? && s.acts[i].t.Node?
    ensures Shape(s'.mem, b') && CellsOk(s', root, b') && FiringOk(s', b')
  {
    EventShape(s, root, b, i, dp, s', b');
    OthersUntouched(s, root, b, i, s.acts[i].ret);
    NoStrayAddress(s, root, b, dp);
    forall d | d in s'.mem.cells ensures CellOk(s'.mem, root, b', d) {
      if d == dp {
        SplitCell(s, root, b, i, dp, s', b');
      } else {
        SplitKeeps(s, root, b, i, dp, s', b', d);
      }
    }
  }

  lemma SplitCell(s: State, root: Tree, b: Book, i: nat, dp: nat, s': State, b': Book)
    requires Event(s, root, b, i, dp, s', b') && s.acts[i].Run? && s.acts[i].t.Node?
    ensures Shape(s'.mem, b') && CellOk(s'.mem, root, b', dp)
  {
    EventShape(s, root, b, i, dp, s', b');
    OthersUntouched(s, root, b, i, s.acts[i].ret);
    NoStrayAddress(s, root, b, dp);
  }

  lemma SplitKeeps(s: State, root: Tree, b: Book, i: nat, dp: nat, s': State, b': Book, d: nat)
    requires Event(s, root, b, i, dp, s', b') && s.acts[i].Run? && s.acts[i].t.Node?
    requires d in s.mem.cells
    ensures Shape(s'.mem, b') && CellOk(s'.mem, root, b', d)
  {
    EventShape(s, root, b, i, dp, s', b');
    OthersUntouched(s, root, b, i, s.acts[i].ret);
    NoStrayAddress(s, root, b, dp);
    assert CellOk(s.mem, root, b, d);
    CellKept(s.mem, s'.mem, root, b, b', d);
  }

  lemma SplitOwners(s: State, root: Tree, b: Book, i: nat, dp: nat, s': State, b': Book)
    requires Event(s, root, b, i, dp, s', b') && s.acts[i].Run? && s.acts[i].t.Node?
    ensures Shape(s'.mem, b') && OwnersOk(s', root, b')
  {
    EventShape(s, root, b, i, dp, s', b');
    OthersUntouched(s, root, b, i, s.acts[i].ret);
    NoStrayAddress(s, root, b, dp);
    forall r | r in b'.owner ensures OwnerOk(s'.acts, s'.mem, b', r) {
      if r in b.owner { assert OwnerOk(s.acts, s.mem, b, r); }
    }
  }

  lemma DeliverActs(s: State, root: Tree, b: Book, i: nat, dp: nat, s': State, b': Book)
    requires Event(s, root, b, i, dp, s', b') && s.acts[i].Deliver?
    ensures Shape(s'.mem, b') && ActsOk(s', root, b')
  {
    EventShape(s, root, b, i, dp, s', b');
    OthersUntouched(s, root, b, i, s.acts[i].ret);
    forall j | 0 <= j < |s'.acts| ensures ActOk(s'.mem, root, b', s'.acts[j], j) {
      assert ActOk(s.mem, root, b, s.acts[j], j);
    }
  }

  lemma DeliverCells(s: State, root: Tree, b: Book, i: nat, dp: nat, s': State, b': Book)
    requires Event(s, root, b, i, dp, s', b') && s.acts[i].Deliver?
    ensures Shape(s'.mem, b') && CellsOk(s', root, b') && FiringOk(s', b')
  {
    EventShape(s, root, b, i, dp, s', b');
    OthersUntouched(s, root, b, i, s.acts[i].ret);
    forall d | d in s'.mem.cells ensures CellOk(s'.mem, root, b', d) {
      if s.acts[i].ret.Slot? && d == s.acts[i].ret.dp {
        DeliverCell(s, root, b, i, dp, s', b');
      } else {
        DeliverKeeps(s, root, b, i, dp, s', b', d);
      }
    }
  }

  lemma DeliverKeeps(s: State, root: Tree, b: Book, i: nat, dp: nat, s': State, b': Book, d: nat)
    requires Event(s, root, b, i, dp, s', b') && s.acts[i].Deliver?
    requires d in s.mem.cells && s.acts[i].ret != Slot(d, 0) && s.acts[i].ret != Slot(d, 1)
    ensures Shape(s'.mem, b') && CellOk(s'.mem, root, b', d)
  {
    EventShape(s, root, b, i, dp, s', b');
    OthersUntouched(s, root, b, i, s.acts[i].ret);
    assert CellOk(s.mem, root, b, d);
    CellKept(s.mem, s'.mem, root, b, b', d);
  }

  lemma DeliverCell(s: State, root: Tree, b: Book, i: nat, dp: nat, s': State, b': Book)
    requires Event(s, root, b, i, dp, s', b') && s.acts[i].Deliver? && s.acts[i].ret.Slot?
    ensures Shape(s'.mem, b') && CellOk(s'.mem, root, b', s.acts[i].ret.dp)
  {
    EventShape(s, root, b, i, dp, s', b');
    OthersUntouched(s, root, b, i, s.acts[i].ret);
    assert CellOk(s.mem, root, b, s.acts[i].ret.dp);
  }

  lemma DeliverOwners(s: State, root: Tree, b: Book, i: nat, dp: nat, s': State, b': Book)
    requires Event(s, root, b, i, dp, s', b') && s.acts[i].Deliver?
    ensures Shape(s'.mem, b') && OwnersOk(s', root, b')
  {
    EventShape(s, root, b, i, dp, s', b');
    OthersUntouched(s, root, b, i, s.acts[i].ret);
    forall r | r in b'.owner ensures OwnerOk(s'.acts, s'.mem, b', r) {
      assert OwnerOk(s.acts, s.mem, b, r);
    }
  }

  lemma StoredActs(s: State, root: Tree, b: Book, i: nat, dp: nat, s': State, b': Book)
    requires Event(s, root, b, i, dp, s', b') && s.acts[i].Stored?
    ensures Shape(s'.mem, b') && ActsOk(s', root, b')
  {
    EventShape(s, root, b, i, dp, s', b');
    forall j | 0 <= j < |s'.acts| ensures ActOk(s'.mem, root, b', s'.acts[j], j) {
      if j != i { StoredKeepsAct(s, root, b, i, dp, s', b', j); }
    }
  }

  lemma StoredKeepsAct(s: State, root: Tree, b: Book, i: nat, dp: nat, s': State, b': Book, j: nat)
    requires Event(s, root, b, i, dp, s', b') && s.acts[i].Stored?
    requires j < |s.acts| && j != i
    ensures Shape(s'.mem, b') && ActOk(s'.mem, root, b', s'.acts[j], j)
  {
    EventShape(s, root, b, i, dp, s', b');
    OthersUntouched(s, root, b, i, s.acts[i].ret);
    assert ActOk(s.mem, root, b, s.acts[j], j);
    if s.acts[i].ret.Slot? {
      assert CellOk(s.mem, root, b, s.acts[i].ret.dp);
      ActKept(s.mem, s'.mem, root, b, b', s.acts[j], j);
    }
  }

  // An activity keeps its standing when cells keep their words and return
  // addresses, and the book its entries for it.
  lemma ActKept(m: Mem, m': Mem, root: Tree, b: Book, b': Book, a: Act, j: nat)
    requires Shape(m, b) && Shape(m', b') && ActOk(m, root, b, a, j)
    requires b'.subtree == b.subtree && m'.result == m.result && m'.cells.Keys == m.cells.Keys
    requires forall d :: d in m.cells ==> m'.cells[d].child == m.cells[d].child
    requires (a.Run? || a.Deliver? || a.Stored?) ==> a.ret in b'.owner && b'.owner[a.ret] == b.owner[a.ret]
    requires a.Fire? ==> a.dp in b'.firing && b'.firing[a.dp] == b.firing[a.dp]
    ensures ActOk(m', root, b', a, j)
  {
  }

  lemma StoredFiring(s: State, root: Tree, b: Book, i: nat, dp: nat, s': State, b': Book)
    requires Event(s, root, b, i, dp, s', b') && s.acts[i].Stored?
    ensures Shape(s'.mem, b') && FiringOk(s', b')
  {
    EventShape(s, root, b, i, dp, s', b');
    OthersUntouched(s, root, b, i, s.acts[i].ret);
    if s.acts[i].ret.Slot? { assert CellOk(s.mem, root, b, s.acts[i].ret.dp); }
  }

  lemma StoredCells(s: State, root: Tree, b: Book, i: nat, dp: nat, s': State, b': Book)
    requires Event(s, root, b, i, dp, s', b') && s.acts[i].Stored?
    ensures Shape(s'.mem, b') && CellsOk(s', root, b')
  {
    EventShape(s, root, b, i, dp, s', b');
    OthersUntouched(s, root, b, i, s.acts[i].ret);
    forall d | d in s'.mem.cells ensures CellOk(s'.mem, root, b', d) {
      if s.acts[i].ret.Slot? && d == s.acts[i].ret.dp {
        StoredCell(s, root, b, i, dp, s', b');
      } else {
        StoredKeeps(s, root, b, i, dp, s', b', d);
      }
    }
  }

  lemma StoredKeeps(s: State, root: Tree, b: Book, i: nat, dp: nat, s': State, b': Book, d: nat)
    requires Event(s, root, b, i, dp, s', b') && s.acts[i].Stored?
    requires d in s.mem.cells && s.acts[i].ret != Slot(d, 0) && s.acts[i].ret != Slot(d, 1)
    ensures Shape(s'.mem, b') && CellOk(s'.mem, root, b', d)
  {
    EventShape(s, root, b, i, dp, s', b');
    OthersUntouched(s, root, b, i, s.acts[i].ret);
    assert CellOk(s.mem, root, b, d);
    CellKept(s.mem, s'.mem, root, b, b', d);
  }

  lemma StoredCell(s: State, root: Tree, b: Book, i: nat, dp: nat, s': State, b': Book)
    requires Event(s, root, b, i, dp, s', b') && s.acts[i].Stored? && s.acts[i].ret.Slot?
    ensures Shape(s'.mem, b') && CellOk(s'.mem, root, b', s.acts[i].ret.dp)
  {
    EventShape(s, root, b, i, dp, s', b');
    OthersUntouched(s, root, b, i, s.acts[i].ret);
    assert CellOk(s.mem, root, b, s.acts[i].ret.dp);
  }

  lemma StoredOwners(s: State, root: Tree, b: Book, i: nat, dp: nat, s': State, b': Book)
    requires Event(s, root, b, i, dp, s', b') && s.acts[i].Stored?
    ensures Shape(s'.mem, b') && OwnersOk(s', root, b')
  {
    EventShape(s, root, b, i, dp, s', b');
    OthersUntouched(s, root, b, i, s.acts[i].ret);
    forall r | r in b'.owner ensures OwnerOk(s'.acts, s'.mem, b', r) {
      assert OwnerOk(s.acts, s.mem, b, r);
    }
  }

  lemma FireActs(s: State, root: Tree, b: Book, i: nat, dp: nat, s': State, b': Book)
    requires Event(s, root, b, i, dp, s', b') && s.acts[i].Fire?
    ensures Shape(s'.mem, b') && ActsOk(s', root, b')
  {
    EventShape(s, root, b, i, dp, s', b');
    FullCell(s, root, b, i);
    forall j | 0 <= j < |s'.acts| ensures ActOk(s'.mem, root, b', s'.acts[j], j) {
      assert ActOk(s.mem, root, b, s.acts[j], j);
    }
  }

  lemma FireCells(s: State, root: Tree, b: Book, i: nat, dp: nat, s': State, b': Book)
    requires Event(s, root, b, i, dp, s', b') && s.acts[i].Fire?
    ensures Shape(s'.mem, b') && CellsOk(s', root, b') && FiringOk(s', b')
  {
    EventShape(s, root, b, i, dp, s', b');
    FullCell(s, root, b, i);
    forall d | d in s'.mem.cells ensures CellOk(s'.mem, root, b', d) {
      assert CellOk(s.mem, root, b, d);
    }
  }

  lemma FireOwners(s: State, root: Tree, b: Book, i: nat, dp: nat, s': State, b': Book)
    requires Event(s, root, b, i, dp, s', b') && s.acts[i].Fire?
    ensures Shape(s'.mem, b') && OwnersOk(s', root, b')
  {
    EventShape(s, root, b, i, dp, s', b');
    FullCell(s, root, b, i);
    forall r | r in b'.owner ensures OwnerOk(s'.acts, s'.mem, b', r) {
      assert OwnerOk(s.acts, s.mem, b, r);
    }
  }

  lemma StepInv(s: State, root: Tree, b: Book, i: nat, dp: nat)
    requires Inv(s, root, b) && Enabled(s, i, dp)
    ensures Inv(Step(s, i, dp), root, NextBook(s, b, i, dp))
  {
    var s', b' := Step(s, i, dp), NextBook(s, b, i, dp);
    match s.acts[i]
    case Run(Node(_, _), _) =>
      SplitActs(s, root, b, i, dp, s', b'); SplitCells(s, root, b, i, dp, s', b'); SplitOwners(s, root, b, i, dp, s', b');
    case Run(_, _) =>
      RunActs(s, root, b, i, dp, s', b'); RunRest(s, root, b, i, dp, s', b');
    case Deliver(_, _) =>
      DeliverActs(s, root, b, i, dp, s', b'); DeliverCells(s, root, b, i, dp, s', b'); DeliverOwners(s, root, b, i, dp, s', b');
    case Stored(_) =>
      StoredFiring(s, root, b, i, dp, s', b'); StoredActs(s, root, b, i, dp, s', b'); StoredCells(s, root, b, i, dp, s', b'); StoredOwners(s, root, b, i, dp, s', b');
    case Fire(_) =>
      FireActs(s, root, b, i, dp, s', b'); FireCells(s, root, b, i, dp, s', b'); FireOwners(s, root, b, i, dp, s', b');
  }

  // ---- every schedule ends, after the same number of events ----

  // Events still to come: a queued leaf is read, stored and counted; a fork
  // adds its cell's firing, storing and counting to those of its children.
  function TreeWork(t: Tree): nat {
    if t.Node? then 6 + TreeWork(t.left) + TreeWork(t.right) else 1
  }

  function ActWork(a: Act): nat {
    match a
    case Run(t, _) => TreeWork(t) + 2
    case Deliver(_, _) => 2
    case Stored(_) => 1
    case _ => 0
  }

  function ActsWork(acts: seq<Act>): nat {
    if acts == [] then 0 else ActWork(acts[0]) + ActsWork(acts[1..])
  }

  function Work(s: State): nat {
    ActsWork(s.acts) + 3 * |s.mem.cells|
  }

  lemma {:induction false} ActsWorkUpdate(acts: seq<Act>, i: nat, a: Act)
    requires i < |acts|
    ensures ActsWork(acts[i := a]) == ActsWork(acts) - ActWork(acts[i]) + ActWork(a)
  {
    if i == 0 {
      assert acts[i := a][1..] == acts[1..];
    } else {
      assert acts[i := a][1..] == acts[1..][i - 1 := a];
      ActsWorkUpdate(acts[1..], i - 1, a);
    }
  }

  lemma {:induction false} ActsWorkAppend(acts: seq<Act>, a: Act)
    ensures ActsWork(acts + [a]) == ActsWork(acts) + ActWork(a)
  {
    if acts != [] {
      assert (acts + [a])[1..] == acts[1..] + [a];
      ActsWorkAppend(acts[1..], a);
    }
  }

  lemma StepWork(s: State, i: nat, dp: nat)
    requires Enabled(s, i, dp)
    ensures Work(Step(s, i, dp)) == Work(s) - 1
  {
    var s' := Step(s, i, dp);
    ActsWorkUpdate(s.acts, i, s'.acts[i]);
    match s.acts[i]
    case Run(Node(l, r), ret) =>
      ActsWorkAppend(s.acts[i := Run(l, Slot(dp, 0))], Run(r, Slot(dp, 1)));
    case Run(_, _) =>
    case Deliver(_, _) =>
    case Stored(_) =>
    case Fire(d) => assert s'.mem.cells.Keys == s.mem.cells.Keys - {d};
    case Done =>
  }

  // Below every waiting cell somebody can still move.
  lemma {:induction false} SomeoneMoves(s: State, root: Tree, b: Book, d: nat) returns (i: nat)
    requires Inv(s, root, b) && d in s.mem.cells
    ensures i < |s.acts| && !s.acts[i].Done?
    decreases Node(b.subtree[d][0], b.subtree[d][1])
  {
    assert CellOk(s.mem, root, b, d);
    if d in b.firing {
      i := b.firing[d];
    } else {
      var r := if Slot(d, 0) in b.owner then Slot(d, 0) else Slot(d, 1);
      assert OwnerOk(s.acts, s.mem, b, r);
      match b.owner[r]
      case ByAct(j) => i := j;
      case ByCell(e) =>
        assert CellOk(s.mem, root, b, e);
        i := SomeoneMoves(s, root, b, e);
    }
  }

  lemma {:induction false} FreshAddress(keys: set<nat>) returns (dp: nat)
    ensures dp !in keys
  {
    dp := 0;
    var seen: set<nat> := {};
    while dp in keys
      invariant seen <= keys && forall k :: k in seen <==> 0 <= k < dp
      decreases keys - seen
    {
      seen := seen + {dp};
      dp := dp + 1;
    }
  }

  // An activity that is not finished can always take its event.
  lemma CanMove(s: State, root: Tree, b: Book, i: nat) returns (dp: nat)
    requires Inv(s, root, b) && i < |s.acts| && !s.acts[i].Done?
    ensures Enabled(s, i, dp)
  {
    dp := FreshAddress(s.mem.cells.Keys);
    assert ActOk(s.mem, root, b, s.acts[i], i);
    if s.acts[i].Stored? && s.acts[i].ret.Slot? {
      assert CellOk(s.mem, root, b, s.acts[i].ret.dp);
      var r := s.acts[i].ret;
      assert r == Slot(r.dp, 0) || r == Slot(r.dp, 1);
    }
  }

  ghost predicate Stuck(s: State) {
    forall s' :: !Next(s, s')
  }

  ghost predicate Idle(s: State) {
    s.done && s.mem.cells == map[] && forall i :: 0 <= i < |s.acts| ==> s.acts[i].Done?
  }

  lemma Mover(s: State, root: Tree, b: Book) returns (i: nat)
    requires Inv(s, root, b) && !Idle(s)
    ensures i < |s.acts| && !s.acts[i].Done?
  {
    if d :| d in s.mem.cells {
      i := SomeoneMoves(s, root, b, d);
    } else if !s.done {
      assert OwnerOk(s.acts, s.mem, b, Root);
      i := b.owner[Root].i;
    } else {
      i :| 0 <= i < |s.acts| && !s.acts[i].Done?;
    }
  }

  // Nobody can move exactly when the work is used up, and then the answer is there.
  lemma Finished(s: State, root: Tree, b: Book)
    requires Inv(s, root, b)
    ensures Stuck(s) <==> Work(s) == 0
    ensures Stuck(s) ==> s.done && s.mem.result == Sum(root)
  {
    if Idle(s) {
      AllDone(s.acts);
    } else {
      var i := Mover(s, root, b);
      var dp := CanMove(s, root, b, i);
      StepWork(s, i, dp);
      assert Next(s, Step(s, i, dp));
    }
  }

  lemma {:induction false} AllDone(acts: seq<Act>)
    requires forall i :: 0 <= i < |acts| ==> acts[i].Done?
    ensures ActsWork(acts) == 0
  {
    if acts != [] { AllDone(acts[1..]); }
  }

  lemma InitWork(root: Tree)
    ensures Work(Init(root)) == TreeWork(root) + 2
  {
    ActsWorkAppend([], Run(root, Root));
    assert Init(root).acts == [] + [Run(root, Root)];
  }

  lemma {:induction false} ScheduleInv(run: seq<State>, root: Tree, j: nat) returns (b: Book)
    requires Schedule(run, root) && j < |run|
    ensures Inv(run[j], root, b)
    ensures Work(run[j]) + j == TreeWork(root) + 2
    decreases j
  {
    if j == 0 {
      InitInv(root);
      InitWork(root);
      b := Book(map[], map[Root := ByAct(0)], map[]);
    } else {
      b := ScheduleInv(run, root, j - 1);
      assert Next(run[j - 1], run[j]);
      var i: nat, dp: nat :| Enabled(run[j - 1], i, dp) && run[j] == Step(run[j - 1], i, dp);
      StepInv(run[j - 1], root, b, i, dp);
      StepWork(run[j - 1], i, dp);
      b := NextBook(run[j - 1], b, i, dp);
    }
  }

  // The numbers at the leaves added up; any other word, like an erased arm,
  // counts zero.
  function Leaves(t: Tree): nat {
    match t
    case Leaf(Num(_, n)) => n
    case Leaf(_) => 0
    case Node(l, r) => Leaves(l) + Leaves(r)
    case Other => 0
  }

  // The type tag of the leftmost leaf.
  function Tag(t: Tree): nat {
    match t
    case Leaf(Num(e, _)) => e
    case Leaf(_) => 0
    case Node(l, _) => Tag(l)
    case Other => 0
  }

  // The answer for a tree, said without the continuation: a single leaf is
  // its own answer, an erased arm is erased, and everything else is the sum of
  // all leaves in 32 bits, tagged like the leftmost one.
  ghost predicate Answers(v: Value, t: Tree) {
    match t
    case Leaf(w) => v == w
    case Node(_, _) => v == Num(Tag(t), Leaves(t) % 0x1_0000_0000)
    case Other => v == Era
  }

  lemma ModAdd(a: nat, b: nat)
    ensures (a % 0x1_0000_0000 + b % 0x1_0000_0000) % 0x1_0000_0000 == (a + b) % 0x1_0000_0000
  {
  }

  lemma FoldAdds(a: Value, b: Value, m: nat, n: nat)
    requires Val(a) == m % 0x1_0000_0000 && Val(b) == n % 0x1_0000_0000
    ensures Fold(a, b) == Num(Ext(a), (m + n) % 0x1_0000_0000) && Val(Fold(a, b)) == (m + n) % 0x1_0000_0000
  {
    ModAdd(m, n);
  }

  lemma {:induction false} SumIsLeaves(t: Tree)
    ensures Answers(Sum(t), t)
    ensures Val(Sum(t)) == Leaves(t) % 0x1_0000_0000 && Ext(Sum(t)) == Tag(t)
  {
    match t
    case Leaf(_) =>
    case Node(l, r) =>
      SumIsLeaves(l);
      SumIsLeaves(r);
      FoldAdds(Sum(l), Sum(r), Leaves(l), Leaves(r));
    case Other =>
  }

  // Above every waiting cell somebody still owes the answer itself: the cells'
  // return addresses climb to ever larger subtrees, so they end at the root.
  lemma {:induction false} CellOwesRoot(s: State, root: Tree, b: Book, d: nat, below: set<nat>)
    requires Inv(s, root, b) && d in s.mem.cells && below <= s.mem.cells.Keys
    requires forall e :: e in below ==> e in b.subtree && |b.subtree[e]| == 2 && CellSize(b, e) < CellSize(b, d)
    ensures Root in b.owner
    decreases s.mem.cells.Keys - below
  {
    assert CellOk(s.mem, root, b, d);
    var r := s.mem.cells[d].ret;
    if r.Slot? {
      assert TreeSize(b.subtree[r.dp][r.k]) == CellSize(b, d);
      assert r.dp in s.mem.cells && CellSize(b, d) < CellSize(b, r.dp);
      assert d !in below;
      CellOwesRoot(s, root, b, r.dp, below + {d});
    }
  }

  function TreeSize(t: Tree): nat {
    if t.Node? then 1 + TreeSize(t.left) + TreeSize(t.right) else 1
  }

  ghost function CellSize(b: Book, d: nat): nat
    requires d in b.subtree && |b.subtree[d]| == 2
  {
    TreeSize(Node(b.subtree[d][0], b.subtree[d][1]))
  }

  // The answer is delivered last: once it is there nothing is left to do.
  lemma DoneIsLast(s: State, root: Tree, b: Book)
    requires Inv(s, root, b) && s.done
    ensures Stuck(s) && s.mem.result == Sum(root)
  {
    forall d | d in s.mem.cells ensures false { CellOwesRoot(s, root, b, d, {}); }
    forall i | 0 <= i < |s.acts| ensures s.acts[i].Done? { assert ActOk(s.mem, root, b, s.acts[i], i); }
    assert s.mem.cells == map[];
    AllDone(s.acts);
    Finished(s, root, b);
  }

  // Whatever the interleaving: no schedule is longer than the tree's work, one
  // that cannot be extended has exactly that length, its answer is the sum, and
  // that is when, and only when, the runtime is told to stop.
  lemma EveryScheduleSums(run: seq<State>, root: Tree)
    requires Schedule(run, root)
    ensures |run| <= TreeWork(root) + 3
    ensures Stuck(run[|run| - 1]) <==> |run| == TreeWork(root) + 3
    ensures Stuck(run[|run| - 1]) ==> run[|run| - 1].done && run[|run| - 1].mem.result == Sum(root)
    ensures Stuck(run[|run| - 1]) ==> Answers(run[|run| - 1].mem.result, root)
    ensures run[|run| - 1].done <==> Stuck(run[|run| - 1])
  {
    SumIsLeaves(root);
    var b := ScheduleInv(run, root, |run| - 1);
    Finished(run[|run| - 1], root, b);
    if run[|run| - 1].done { DoneIsLast(run[|run| - 1], root, b); }
  }
}
