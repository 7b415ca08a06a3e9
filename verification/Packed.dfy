// The runtime as it stands in memory: every return address is one 32-bit word.
// It takes the same steps as the machine on decoded addresses as long as cells
// are allocated low enough, and goes wrong as soon as they are not.
module PackedForkJoin {
  import F = ForkJoin

  // ret words as aot_enc_ret packs them.
  datatype Cell = Cell(ret: nat, child: seq<F.Value>, pending: nat)

  datatype Act =
    | Run(t: F.Tree, ret: nat)
    | Deliver(ret: nat, v: F.Value)
    | Stored(ret: nat)
    | Fire(dp: nat)
    | Done

  datatype Mem = Mem(cells: map<nat, Cell>, result: F.Value)

  datatype State = State(acts: seq<Act>, mem: Mem, done: bool)

  const ROOT: nat := 0xFFFF_FFFF

  function Word(dp: nat, k: nat): nat {
    F.Encode(F.Slot(dp, k))
  }

  function Init(root: F.Tree): State {
    State([Run(root, ROOT)], Mem(map[], F.Blank), false)
  }

  // The cell and the slot that a word is taken for.
  predicate Lands(m: Mem, w: nat) {
    w / 2 in m.cells && w % 2 < |m.cells[w / 2].child|
  }

  predicate Enabled(s: State, i: nat, dp: nat) {
    && i < |s.acts|
    && match s.acts[i]
       case Run(t, _) => t.Node? ==> dp !in s.mem.cells
       case Deliver(w, _) => w != ROOT ==> Lands(s.mem, w)
       case Stored(w) => w != ROOT ==> w / 2 in s.mem.cells && s.mem.cells[w / 2].pending > 0
       case Fire(d) => d in s.mem.cells && |s.mem.cells[d].child| == 2
       case Done => false
  }

  // aot_alloc_cont, aot_resolve, aot_write_slot and aot_fire_cont on words.
  function Step(s: State, i: nat, dp: nat): State
    requires Enabled(s, i, dp)
  {
    match s.acts[i]
    case Run(Leaf(v), w) => s.(acts := s.acts[i := Deliver(w, v)])
    case Run(Other, w) => s.(acts := s.acts[i := Deliver(w, F.Era)])
    case Run(Node(l, r), w) =>
      s.(acts := s.acts[i := Run(l, Word(dp, 0))] + [Run(r, Word(dp, 1))],
         mem := s.mem.(cells := s.mem.cells[dp := Cell(w, [F.Blank, F.Blank], 2)]))
    case Deliver(w, v) =>
      if w == ROOT then s.(acts := s.acts[i := Stored(w)], mem := s.mem.(result := v))
      else
        var c := s.mem.cells[w / 2];
        s.(acts := s.acts[i := Stored(w)], mem := s.mem.(cells := s.mem.cells[w / 2 := c.(child := c.child[w % 2 := v])]))
    case Stored(w) =>
      if w == ROOT then s.(acts := s.acts[i := Done], done := true)
      else
        var c := s.mem.cells[w / 2];
        s.(acts := s.acts[i := if c.pending == 1 then Fire(w / 2) else Done],
           mem := s.mem.(cells := s.mem.cells[w / 2 := c.(pending := c.pending - 1)]))
    case Fire(d) =>
      var c := s.mem.cells[d];
      s.(acts := s.acts[i := Deliver(c.ret, F.Fold(c.child[0], c.child[1]))], mem := s.mem.(cells := s.mem.cells - {d}))
  }

  // One event in which a cell, if one is allocated, lies below limit.
  ghost predicate Moves(s: State, i: nat, dp: nat, limit: nat, s': State) {
    Enabled(s, i, dp) && (s.acts[i].Run? && s.acts[i].t.Node? ==> dp < limit) && s' == Step(s, i, dp)
  }

  ghost predicate Next(s: State, limit: nat, s': State) {
    exists i: nat, dp: nat :: Moves(s, i, dp, limit, s')
  }

  ghost predicate Schedule(run: seq<State>, root: F.Tree, limit: nat) {
    && run != []
    && run[0] == Init(root)
    && forall j :: 0 < j < |run| ==> Next(run[j - 1], limit, run[j])
  }

  // No activity can take an event, wherever its cell would go.
  ghost predicate Stuck(s: State) {
    forall i: nat, dp: nat :: !Enabled(s, i, dp)
  }

  // ---- the machine on decoded addresses ----

  function ViewAct(a: Act): F.Act {
    match a
    case Run(t, w) => F.Run(t, F.Decode(w))
    case Deliver(w, v) => F.Deliver(F.Decode(w), v)
    case Stored(w) => F.Stored(F.Decode(w))
    case Fire(d) => F.Fire(d)
    case Done => F.Done
  }

  function ViewActs(acts: seq<Act>): seq<F.Act> {
    seq(|acts|, i requires 0 <= i < |acts| => ViewAct(acts[i]))
  }

  function ViewCell(c: Cell): F.Cell {
    F.Cell(F.Decode(c.ret), c.child, c.pending)
  }

  function View(s: State): F.State {
    F.State(ViewActs(s.acts), F.Mem(map d | d in s.mem.cells :: ViewCell(s.mem.cells[d]), s.mem.result), s.done)
  }

  lemma ViewEnabled(s: State, i: nat, dp: nat)
    ensures Enabled(s, i, dp) <==> F.Enabled(View(s), i, dp)
  {
  }

  // Words of cells below 2^31 - 1 decode to the address that was packed.
  lemma WordsDecode(dp: nat)
    requires dp < 0x7FFF_FFFF
    ensures F.Decode(Word(dp, 0)) == F.Slot(dp, 0) && F.Decode(Word(dp, 1)) == F.Slot(dp, 1)
  {
    F.EncodeRoundTrip(dp, 0);
    F.EncodeRoundTrip(dp, 1);
  }

  lemma ViewUpdate(s: State, i: nat, a: Act, cells: map<nat, Cell>, result: F.Value, done: bool)
    requires i < |s.acts|
    ensures View(State(s.acts[i := a], Mem(cells, result), done)) ==
            F.State(ViewActs(s.acts)[i := ViewAct(a)], F.Mem(map d | d in cells :: ViewCell(cells[d]), result), done)
  {
    assert ViewActs(s.acts[i := a]) == ViewActs(s.acts)[i := ViewAct(a)];
  }

  function ViewCells(cells: map<nat, Cell>): map<nat, F.Cell> {
    map d | d in cells :: ViewCell(cells[d])
  }

  lemma ViewCellsUpdate(cells: map<nat, Cell>, d: nat, c: Cell)
    ensures ViewCells(cells[d := c]) == ViewCells(cells)[d := ViewCell(c)]
    ensures ViewCells(cells - {d}) == ViewCells(cells) - {d}
  {
  }

  // Every event that allocates low enough is an event of that machine.
  lemma StepRefines(s: State, i: nat, dp: nat)
    requires Enabled(s, i, dp) && (s.acts[i].Run? && s.acts[i].t.Node? ==> dp < 0x7FFF_FFFF)
    ensures F.Enabled(View(s), i, dp) && View(Step(s, i, dp)) == F.Step(View(s), i, dp)
  {
    ViewEnabled(s, i, dp);
    var cells := s.mem.cells;
    match s.acts[i]
    case Run(Node(l, r), w) =>
      WordsDecode(dp);
      var first, second := Run(l, Word(dp, 0)), Run(r, Word(dp, 1));
      ViewCellsUpdate(cells, dp, Cell(w, [F.Blank, F.Blank], 2));
      assert ViewActs(s.acts[i := first] + [second]) == ViewActs(s.acts)[i := ViewAct(first)] + [ViewAct(second)];
    case Run(Leaf(v), w) => ViewUpdate(s, i, Deliver(w, v), cells, s.mem.result, s.done);
    case Run(Other, w) => ViewUpdate(s, i, Deliver(w, F.Era), cells, s.mem.result, s.done);
    case Deliver(w, v) =>
      if w != ROOT {
        var c := cells[w / 2];
        ViewCellsUpdate(cells, w / 2, c.(child := c.child[w % 2 := v]));
        ViewUpdate(s, i, Stored(w), cells[w / 2 := c.(child := c.child[w % 2 := v])], s.mem.result, s.done);
      } else {
        ViewUpdate(s, i, Stored(w), cells, v, s.done);
      }
    case Stored(w) =>
      if w != ROOT {
        var c := cells[w / 2];
        var c' := c.(pending := c.pending - 1);
        ViewCellsUpdate(cells, w / 2, c');
        ViewUpdate(s, i, if c.pending == 1 then Fire(w / 2) else Done, cells[w / 2 := c'], s.mem.result, s.done);
      } else {
        ViewUpdate(s, i, Done, cells, s.mem.result, true);
      }
    case Fire(d) =>
      var c := cells[d];
      ViewCellsUpdate(cells, d, c);
      ViewUpdate(s, i, Deliver(c.ret, F.Fold(c.child[0], c.child[1])), cells - {d}, s.mem.result, s.done);
  }

  function ViewRun(run: seq<State>): seq<F.State> {
    seq(|run|, j requires 0 <= j < |run| => View(run[j]))
  }

  lemma ScheduleRefines(run: seq<State>, root: F.Tree, limit: nat)
    requires Schedule(run, root, limit) && limit <= 0x7FFF_FFFF
    ensures F.Schedule(ViewRun(run), root)
  {
    assert View(Init(root)) == F.Init(root) by {
      assert ViewActs([Run(root, ROOT)]) == [F.Run(root, F.Root)];
      assert View(Init(root)).mem.cells == map[];
    }
    forall j | 0 < j < |run| ensures F.Next(View(run[j - 1]), View(run[j])) {
      assert Next(run[j - 1], limit, run[j]);
      var i: nat, dp: nat :| Moves(run[j - 1], i, dp, limit, run[j]);
      StepRefines(run[j - 1], i, dp);
    }
  }

  lemma StuckRefines(s: State)
    ensures Stuck(s) <==> F.Stuck(View(s))
  {
    if Stuck(s) {
      forall s' ensures !F.Next(View(s), s') {
        if F.Next(View(s), s') {
          var i: nat, dp: nat :| F.Enabled(View(s), i, dp) && s' == F.Step(View(s), i, dp);
          ViewEnabled(s, i, dp);
        }
      }
    }
    if F.Stuck(View(s)) {
      forall i: nat, dp: nat ensures !Enabled(s, i, dp) {
        ViewEnabled(s, i, dp);
        if Enabled(s, i, dp) { assert F.Next(View(s), F.Step(View(s), i, dp)); }
      }
    }
  }

  // With all cells below 2^31 - 1: every interleaving ends after the same number
  // of events, which is when the runtime is told to stop, with the sum.
  lemma EveryScheduleSums(run: seq<State>, root: F.Tree, limit: nat)
    requires Schedule(run, root, limit) && limit <= 0x7FFF_FFFF
    ensures var last := run[|run| - 1];
      && |run| <= F.TreeWork(root) + 3
      && (Stuck(last) <==> |run| == F.TreeWork(root) + 3)
      && (last.done <==> Stuck(last))
      && (last.done ==> last.mem.result == F.Sum(root) && F.Answers(last.mem.result, root))
  {
    var last := run[|run| - 1];
    ScheduleRefines(run, root, limit);
    F.EveryScheduleSums(ViewRun(run), root);
    assert ViewRun(run)[|run| - 1] == View(last);
    StuckRefines(last);
  }

  // ---- where the bound is met ----

  ghost predicate AlwaysRight(limit: nat) {
    forall run: seq<State>, root: F.Tree :: Schedule(run, root, limit) && run[|run| - 1].done ==> run[|run| - 1].mem.result == F.Sum(root)
  }

  lemma Extend(run: seq<State>, root: F.Tree, limit: nat, i: nat, dp: nat, s': State) returns (run': seq<State>)
    requires Schedule(run, root, limit) && Moves(run[|run| - 1], i, dp, limit, s')
    ensures Schedule(run', root, limit) && run'[|run'| - 1] == s'
  {
    run' := run + [s'];
    forall j | 0 < j < |run'| ensures Next(run'[j - 1], limit, run'[j]) {
      if j < |run| { assert Next(run[j - 1], limit, run[j]); }
    }
  }

  // The second slot of cell 2^31 - 1 has the word reserved for the root: that
  // child's value becomes the answer.
  lemma TakenForRoot(limit: nat, a: F.Value, b: F.Value) returns (run: seq<State>)
    requires limit > 0x7FFF_FFFF
    ensures Schedule(run, F.Node(F.Leaf(a), F.Leaf(b)), limit)
    ensures run[|run| - 1].done && run[|run| - 1].mem.result == b
  {
    var dp, root := 0x7FFF_FFFF, F.Node(F.Leaf(a), F.Leaf(b));
    assert Word(dp, 1) == ROOT;
    var s0 := Init(root);
    var cells := map[dp := Cell(ROOT, [F.Blank, F.Blank], 2)];
    var first := Run(F.Leaf(a), Word(dp, 0));
    var s1 := State([first, Run(F.Leaf(b), ROOT)], Mem(cells, F.Blank), false);
    var s2 := State([first, Deliver(ROOT, b)], Mem(cells, F.Blank), false);
    var s3 := State([first, Stored(ROOT)], Mem(cells, b), false);
    var s4 := State([first, Done], Mem(cells, b), true);
    assert s0.acts[0 := first] + [Run(F.Leaf(b), ROOT)] == s1.acts;
    run := Extend([s0], root, limit, 0, dp, s1);
    run := Extend(run, root, limit, 1, 0, s2);
    run := Extend(run, root, limit, 1, 0, s3);
    run := Extend(run, root, limit, 1, 0, s4);
  }

  // The machine on words is right on every tree and every schedule exactly when
  // no cell is allocated at 2^31 - 1 or above.
  lemma AlwaysRightIff(limit: nat)
    ensures AlwaysRight(limit) <==> limit <= 0x7FFF_FFFF
  {
    if limit <= 0x7FFF_FFFF {
      forall run: seq<State>, root: F.Tree | Schedule(run, root, limit) && run[|run| - 1].done ensures run[|run| - 1].mem.result == F.Sum(root) {
        EveryScheduleSums(run, root, limit);
      }
    } else {
      var a, b := F.Num(0, 1), F.Num(0, 0);
      var run := TakenForRoot(limit, a, b);
      var root := F.Node(F.Leaf(a), F.Leaf(b));
      assert F.Sum(root) == F.Fold(a, b) == F.Num(0, 1);
    }
  }

  // From 2^31 on the top bit is lost: the children of cell 2^31 report to cell
  // 0, whose own subtree on the right is then never waited for.
  lemma TopBitLost(limit: nat, a: F.Value, b: F.Value, c: F.Value) returns (run: seq<State>)
    requires limit > 0x8000_0000
    ensures Schedule(run, F.Node(F.Node(F.Leaf(a), F.Leaf(b)), F.Leaf(c)), limit)
    ensures run[|run| - 1].done && run[|run| - 1].mem.result == F.Fold(a, b)
  {
    var high, inner := 0x8000_0000, F.Node(F.Leaf(a), F.Leaf(b));
    var root, idle := F.Node(inner, F.Leaf(c)), Run(F.Leaf(c), 1);
    assert Word(high, 0) == 0 && Word(high, 1) == 1 && Word(0, 0) == 0 && Word(0, 1) == 1;
    var s0 := Init(root);
    var s1 := State([Run(inner, 0), idle], Cells(F.Blank, F.Blank, 2, false, F.Blank), false);
    assert s0.acts[0 := Run(inner, 0)] + [idle] == s1.acts;
    assert s1.mem.cells == s0.mem.cells[0 := Cell(ROOT, [F.Blank, F.Blank], 2)];
    run := Extend([s0], root, limit, 0, 0, s1);
    var s2 := State([Run(F.Leaf(a), 0), idle, Run(F.Leaf(b), 1)], Cells(F.Blank, F.Blank, 2, true, F.Blank), false);
    assert s1.acts[0 := Run(F.Leaf(a), 0)] + [Run(F.Leaf(b), 1)] == s2.acts;
    run := Extend(run, root, limit, 0, high, s2);
    run := ReportBoth(run, root, limit, idle, a, b);
  }

  // The cells of that run: cell 0, and the high cell once it exists.
  function Cells(x: F.Value, y: F.Value, pending: nat, both: bool, result: F.Value): Mem {
    var zero := map[0 := Cell(ROOT, [x, y], pending)];
    Mem(if both then zero[0x8000_0000 := Cell(0, [F.Blank, F.Blank], 2)] else zero, result)
  }

  lemma CellsUpdate(x: F.Value, y: F.Value, p: nat, x': F.Value, y': F.Value, p': nat, result: F.Value)
    ensures Cells(x, y, p, true, result).cells[0 := Cell(ROOT, [x', y'], p')] == Cells(x', y', p', true, result).cells
    ensures Cells(x, y, p, true, result).cells[0] == Cell(ROOT, [x, y], p)
  {
  }

  lemma ReportBoth(run0: seq<State>, root: F.Tree, limit: nat, idle: Act, a: F.Value, b: F.Value) returns (run: seq<State>)
    requires Schedule(run0, root, limit)
    requires run0[|run0| - 1] ==
             State([Run(F.Leaf(a), 0), idle, Run(F.Leaf(b), 1)], Cells(F.Blank, F.Blank, 2, true, F.Blank), false)
    ensures Schedule(run, root, limit) && run[|run| - 1].done && run[|run| - 1].mem.result == F.Fold(a, b)
  {
    var e, last := F.Blank, Run(F.Leaf(b), 1);
    assert [e, e][0 := a] == [a, e];
    run := Extend(run0, root, limit, 0, 0, State([Deliver(0, a), idle, last], Cells(e, e, 2, true, e), false));
    CellsUpdate(e, e, 2, a, e, 2, e);
    run := Extend(run, root, limit, 0, 0, State([Stored(0), idle, last], Cells(a, e, 2, true, e), false));
    CellsUpdate(a, e, 2, a, e, 1, e);
    run := Extend(run, root, limit, 0, 0, State([Done, idle, last], Cells(a, e, 1, true, e), false));
    run := ReportSecond(run, root, limit, idle, a, b);
  }

  lemma ReportSecond(run0: seq<State>, root: F.Tree, limit: nat, idle: Act, a: F.Value, b: F.Value) returns (run: seq<State>)
    requires Schedule(run0, root, limit)
    requires run0[|run0| - 1] == State([Done, idle, Run(F.Leaf(b), 1)], Cells(a, F.Blank, 1, true, F.Blank), false)
    ensures Schedule(run, root, limit) && run[|run| - 1].done && run[|run| - 1].mem.result == F.Fold(a, b)
  {
    var e := F.Blank;
    assert [a, e][1 := b] == [a, b];
    run := Extend(run0, root, limit, 2, 0, State([Done, idle, Deliver(1, b)], Cells(a, e, 1, true, e), false));
    CellsUpdate(a, e, 1, a, b, 1, e);
    run := Extend(run, root, limit, 2, 0, State([Done, idle, Stored(1)], Cells(a, b, 1, true, e), false));
    CellsUpdate(a, b, 1, a, b, 0, e);
    run := Extend(run, root, limit, 2, 0, State([Done, idle, Fire(0)], Cells(a, b, 0, true, e), false));
    var rest := Cells(a, b, 0, true, e).cells - {0};
    run := Extend(run, root, limit, 2, 0, State([Done, idle, Deliver(ROOT, F.Fold(a, b))], Mem(rest, e), false));
    run := Extend(run, root, limit, 2, 0, State([Done, idle, Stored(ROOT)], Mem(rest, F.Fold(a, b)), false));
    run := Extend(run, root, limit, 2, 0, State([Done, idle, Done], Mem(rest, F.Fold(a, b)), true));
  }
}
