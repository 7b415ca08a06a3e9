# A verified model of the flat rewriting core, the graph translator, the fork/join program and the convolution kernels

Dafny 4.11. `dafny verify dfyconfig.toml` checks everything; no file depends on anything outside this directory.

## What is modelled

**The flat prover core** (`tools/bench_flatcore.c`). Terms are packed in pre-order into one array of nodes; matching,
rewriting, normalizing and comparing work on that array. The simple form is a term tree with the tree rewriter of
`src/rewrite/_.c` and the tree comparator of `src/kbo/_.c`.

- `Terms.dfy`: terms, signatures, substitutions, contexts. `Order.dfy`: the Knuth-Bendix ordering in its textbook form
  (`Greater`, `Compare`), the decision list of the tree comparator (`Decide`) and of the linear-time one (`Linear`), and
  the proofs that they agree and that the ordering is a reduction ordering.
- `Rewriting.dfy`: the tree matcher, the leftmost-outermost step, iteration, and the heap-term variants
  (`HeapStep`, `HeapNormalize`); `TryTopIff` and `StepTakesFirst` say which rule fires and where. `Termination.dfy`: oriented rules only go down, so iteration stops within a bound.
  `WellFounded.dfy`: exactly which tables make every oriented rule set stop.
- `Balance.dfy`: the variable balance of a comparison as a ledger, and how many touched variables it notes.
- `FlatTerm.dfy`, `FlatMatch.dfy`, `FlatStep.dfy`, `FlatKbo.dfy`: the C functions as methods over arrays, each proved
  against the tree definition it stands for. Every written buffer (`out`, `bind`, `bal`, both arenas) is an array that
  the methods update in place; read-only node arrays are sequences of nodes.
- `InnerLoop.dfy`: normalize, then orient the subject against its normal form. This is the equality that the program
  asserts on its corpus (lines 562-599), here for every term and every oriented rule set. The program's other side calls
  `thvm_kbo`, so the verdict is proved equal to the linear-time decision (`LinearCompare`) and not just to the reference
  comparator; the memo that decision uses for subtree weights is not modelled.

**The graph translator** (`py/thvm/from_tinygrad.py`). `FromTinygrad.dfy` gives the source graph and the target terms,
each with its meaning: a shape and a function from multi-indices to reals. `Tensors.dfy` has row-major order and
reduction over axes for any rank, `Casts.dfy` the number types and their conversions, `Movement.dfy` what each movement
and reduce node means element by element, `Lowering.dfy` one lemma per lowered
operation, `Translator.dfy` the memoized walk as
a class whose map and build counter the methods update.

**The emitted tree sum** (`docs/aot_emitted_examples/tree_sum.c` on the runtime in `src/aot/`). `ForkJoin.dfy` is a
step system: queued activities, two-slot continuation cells, atomic events taken by any worker in any order. Writing a
slot and decrementing the counter are two separate events. `Packed.dfy` is the same machine with every return address
packed into one 32-bit word, as it stands in memory, and refines the first while cells are allocated low enough.

**The convolution kernels** (`py/examples/cuda_nn_xval.py`). `Sums.dfy` has finite sums and their exchange laws,
`Conv.dfy` the patch matrix, the scatter, the masked gather and its addresses, `ConvLoops.dfy` the im2col and col2im
loops.

## Assumptions stated as preconditions

- `Kbo.Valid`: weight, precedence and arity tables of one length, labels below bit 31, child counts below 2^16. Each
  label has one child count: `fc_match` and `fc_diff` compare symbols only. `WF`: labels are known and variable ids are
  below 64.
- `Kbo.Grounded`: constants weigh at least as much as variables. Substitution closure holds exactly for such tables
  (`StableIff`), and everything about single steps and verdicts needs no more. `Kbo.Admissible` adds that variables and
  unary labels weigh at least 1; only bounds on sizes and on step counts use it. Other labels may weigh nothing, as label
  0 of the program's own tables does (`ShefferAdmissible`). `AlwaysStopsIff` says for exactly which tables oriented rules
  always stop, when no two share a precedence. `TotalPrecedence`: different labels have different precedences, as
  `src/thvm.h:3711-3714` says; ground totality uses it. `Kbo.Decisive`: labels of one precedence and arity are constants of
  different weight, which a total precedence implies and which is exactly what the comparators need to agree
  (`ComparatorsAgreeIff`). The flat comparator is proved equal to the tree comparator without either.
- `NarrowLabels`: no label has more than 16 children (`REWRITE_MAX_ARITY`). Only statements about the heap-term rewriter
  use it, and `LoopsAgreeIff` shows that they fail without it.
- `WFRules`: right-side variables occur on the left. `Oriented`: left sides are greater; that already implies the former.
- Arenas are long enough for the iterates. `NormalizeAndOrient` shows that twice the subject's weight suffices. Encoding asks for a
  buffer that holds the term, or the cap of 8192 nodes and one more.
- `Graph`: operands come earlier in the graph, and shapes follow the rule of each operation.
- `Conv.Valid`: the kernel fits the image. The unsigned reading also takes image sides of at most 2^32.

## Where code and comments disagree

- `tools/bench_flatcore.c:276` says that the flat step mirrors the heap-term step exactly. It does not, in two ways. The
  heap-term step passes over a child whose rewrite equals the child, so a redex that rewrites a term to itself does not
  count there, while the flat step fires it: `HeapStepAgrees` is the exact condition on a term, `AgreeIff` on a rule
  set over a signature with a label no left side starts with,
  and `HeapStepDiffers` an input. And it does not enter nodes with more than 16 children: `LoopsAgreeIff` and, for every
  such label, the input `WideParts`. With oriented rules over narrower labels the two loops agree.
- `tools/bench_flatcore.c:404` gives the list of touched variables 64 entries, but a variable whose balance returns to
  zero is noted again (389, 395). `Overflow` is a pair of terms that writes a 65th entry; `TableSufficesIff` says that 65
  variable leaves always fit and 66 need not; `KboRec` reports which comparisons fit. The list here is a sequence that
  grows, so the verdict proved is the one the C code reaches when they do. The linear comparator of `src/kbo/_.c` keeps
  such a list too (line 245), fed by memoized profiles, so its entries differ; the reference one scans all balances.
- `tools/bench_flatcore.c:470-472, 507-516` encodes with the cap of 8192 nodes into buffers of 512 and 1024, and looks at
  the length afterwards (line 546). `EncodeRec` asks for a buffer that holds the term or goes past the cap, which those
  calls do not ensure.
- `tools/bench_flatcore.c:421-425` looks at precedences only, never at the labels themselves, so two labels of equal
  precedence, arity and weight make different terms compare EQ. `EqualIffIdentical` is the exact condition; the total
  order that `src/thvm.h:3711-3714` asks for rules such labels out.
- `tools/bench_flatcore.c:346` promises the decision of both comparators of `src/kbo/_.c`, and line 1005 there counts any
  difference between those two as an error. They agree exactly when labels of one precedence and arity are constants of
  different weight (`ComparatorsAgreeIff`); `ComparatorsPart` has an input for any other two labels, whatever their
  weights. The linear-time one is the textbook ordering for every table (`LinearIsCompare`).
- `py/examples/cuda_nn_xval.py:360-366` relies on unsigned index subtraction for its one-sided mask.
  `src/codegen/render_uop.c:632-669` emits signed subtraction. `WrappingKernel` and `WrappingFits` prove the kernel under
  the reading of the comment; `SignedCorrectIff` shows that under the signed one it loads from its buffer and computes the
  right values only for one-by-one kernels, and `SignedValueDiffers` that the value is wrong even where the loads are not.
- A packed return address loses its top bit from cell 2^31 on, and one slot word is taken by the root marker, while
  `src/heap/collect.c:36-53` lets the heap have up to 2^37 cells. `AlwaysRightIff` is the exact bound; `TakenForRoot` and
  `TopBitLost` are runs with a wrong answer.
- `py/thvm/from_tinygrad.py:441-447` lowers casts and bitcasts alike to a conversion to 32-bit integers or to floats,
  chosen by the type's name (138-155), and integer constants are stored in 32 bits. `CastKeptIff`, `IntBitsKeptIff`,
  `FloatBitsKeptIff` and `IConstDenotesIff` say for which values that is right, `LossyCasts` and `BitcastInput` are inputs
  for which it is not, and the translation is proved for graphs in which no such value is met.

## Model

The definitions that the rows speak about (`Decide`, `Step`, `HeapStep`, `Enc`, `Holds`, `Den`, `Value`, `Inv`,
`Scattered`, ...) carry no contract of their own and have no row.

| member | source | states |
|---|---|---|
| KnuthBendix.Irreflexive | src/kbo/_.c:161-201 | no term is greater than itself |
| KnuthBendix.Transitive | src/kbo/_.c:161-201 | greater-than chains: with irreflexivity, GT is a strict partial order on all terms |
| KnuthBendix.Asymmetric | src/kbo/_.c:161-201 | no two terms are greater than each other |
| KnuthBendix.CompareVerdicts | tools/bench_flatcore.c:401-436 | GT and LT mean exactly greater and smaller, and swapping the operands always mirrors the verdict |
| KnuthBendix.PrecedenceDecides | src/kbo/_.c:181-185 | between equally heavy terms with different top labels, one dominating the other, the entries of the precedence table decide |
| KnuthBendix.FirstChildDecides | src/kbo/_.c:187-197 | under one label and at equal weight the leftmost pair of children that differ decides, whatever follows it |
| Balance.WeightIs | src/kbo/_.c:100-120 | a term weighs the variable weight for each of its variable leaves plus, for every label, its entry of the weight table for each node with that label; nothing else is counted and no label is left out |
| KnuthBendix.ContextClosed | tools/bench_flatcore.c:401-436 | a greater subterm makes every surrounding term greater, for any context |
| KnuthBendix.Stable | tools/bench_flatcore.c:401-436 | a greater term stays greater under every well-formed substitution, for tables in which constants weigh at least as much as variables |
| KnuthBendix.StableIff | tools/bench_flatcore.c:401-436 | exactly for those tables: a lighter constant breaks it |
| KnuthBendix.ApplyWeight | tools/bench_flatcore.c:221-225 | substituting changes the weight by what each variable occurrence gains |
| KnuthBendix.ApplyCount | tools/bench_flatcore.c:380-397 | occurrences of a variable after substitution, summed over the occurrences before it |
| KnuthBendix.GroundTotal | tools/bench_flatcore.c:401-436 | two different variable-free terms always compare GT or LT, never UN |
| KnuthBendix.DecideIsCompare | src/kbo/_.c:161-201 | the decision list of the tree comparator returns the verdict of the textbook ordering when labels of one precedence and arity are constants of different weight |
| KnuthBendix.EqualIffIdentical | src/kbo/_.c:179-201 | EQ is returned on identical terms only if and only if no two labels agree in precedence, arity and weight |
| KnuthBendix.LinearIsCompare | src/kbo/_.c:850-955 | the linear-time decision, which descends into the first differing child only and maps its verdict back, returns the verdict of the textbook ordering for every table |
| KnuthBendix.ComparatorsPart | src/kbo/_.c:190-200 | for any other two labels, an input on which the reference comparator finds a verdict and the linear one says UN |
| KnuthBendix.ComparatorsAgreeIff | tools/bench_flatcore.c:344-352 | the reference and the linear comparator agree on all terms exactly under that condition on the labels |
| Rewriting.MatchSound | src/rewrite/_.c:27-59 | a successful match extends the bindings it started from, binds exactly the pattern variables added, and instantiates the pattern to the term |
| Rewriting.MatchComplete | src/rewrite/_.c:27-59 | whenever some extension of the bindings instantiates the pattern to the term, the matcher succeeds below it |
| Rewriting.MatchIff | src/rewrite/_.c:27-59 | the matcher returns s exactly when s is the one substitution of the pattern variables that yields the term, repeated variables included |
| Rewriting.MatchExists | src/rewrite/_.c:27-59 | if any substitution at all turns the pattern into the term, the matcher finds its restriction to the pattern |
| Rewriting.TryTopIff | src/rewrite/_.c:109-137 | a term is rewritten at the root to u exactly when some rule has a substitution that makes its sides the term and u, and no rule of lower index has an instance there |
| Rewriting.TryTopNone | src/rewrite/_.c:109-137 | and not at all exactly when it is an instance of no left side |
| Rewriting.HeapTryTopIff | src/rewrite/_.c:109-137 | the same for the heap-term rewriter |
| Rewriting.StepTakesFirst | tools/bench_flatcore.c:276-284 | the step replaces the redex above which nothing fires and to the left of which there is none |
| Rewriting.StepRedex | src/rewrite/_.c:146-167 | a step replaces one instance of a left side by the same instance of the right side, in some context |
| Rewriting.StepIffReducible | src/rewrite/_.c:146-167 | a step is found exactly when the term can be rewritten anywhere by any rule |
| Rewriting.StepWF | src/rewrite/_.c:146-167 | a step stays inside the signature |
| Rewriting.NormalizeIterates | tools/bench_flatcore.c:326-342 | the result is the k-th iterate of the step for some k up to the cap, and either k is the cap or nothing fires any more |
| Rewriting.NormalizeStable | tools/bench_flatcore.c:326-342 | normalizing a finished result again, or allowing more steps, changes nothing |
| Rewriting.HeapStepAgrees | src/rewrite/_.c:146-167 | the heap-term step, which passes over a child that came back unchanged, equals the first-redex step exactly when the first outermost redex changes something or none does |
| Rewriting.HeapStepTakes | src/rewrite/_.c:153-164 | the heap-term step replaces the redex that changes something, above which nothing fires and to the left of which no outermost redex changes anything |
| Rewriting.StepsByRedexes | src/rewrite/_.c:153-164 | over a list of children the one step takes the first outermost redex, the other the first that changes something |
| Rewriting.AgreeIff | src/rewrite/_.c:146-167 | over a signature with a label of two or more children that no left side starts with, a rule set makes both steps agree on every term exactly when it fires on everything, or rewrites nothing to itself at the root, or never does anything else |
| Rewriting.OnlyLabelAgrees | src/rewrite/_.c:146-167 | without such a label they may agree all the same: commuting the only label of a signature |
| Rewriting.HeapStepDiffers | tools/bench_flatcore.c:276-284 | with a commuting rule the two steps really part: one input on which the flat step fires in the first child and the heap step in the second |
| Termination.OrientedWF | tools/bench_flatcore.c:293-321 | a rule whose left side is greater has no variable on the right that is missing on the left |
| Termination.StepDecreases | tools/bench_flatcore.c:293-321 | with oriented rules every step goes strictly down in the ordering, weightless labels included |
| Termination.NormalFormVerdict | tools/bench_flatcore.c:562-582 | comparing a subject with its normal form gives EQ when no step fired and GT otherwise |
| Termination.NormalFormFits | tools/bench_flatcore.c:326-342 | no iterate has as many nodes as twice the weight of the subject |
| Termination.Enumerated | tools/bench_flatcore.c:326-342 | every well-formed term of at most n nodes is among finitely many |
| Termination.DescentBound | tools/bench_flatcore.c:326-342 | a cap that covers the terms below the subject is enough to reach an irreducible term |
| Termination.NormalizeTerminates | tools/bench_flatcore.c:326-342 | a cap at or above the number of terms of twice the subject's weight yields a term no rule rewrites, for every oriented rule set |
| Termination.HeapNormalizeAgrees | src/rewrite/_.c:172-180 | on oriented rules over labels of at most 16 children the heap-term loop and the flat loop reach the same term at every cap |
| Termination.WideParts | src/rewrite/_.c:153-154 | for every label with more than 16 children: a rule and a term on which the step fires and the heap-term step returns its input |
| Termination.LoopsAgreeIff | src/rewrite/_.c:146-180 | when variables weigh something and constants no less, both loops agree on all oriented rules, terms and caps over a signature exactly when no label has more than 16 children |
| Termination.WeightlessNeverStops | tools/bench_flatcore.c:326-342 | a weightless unary label below another one admits an oriented rule that fires forever |
| WellFounded.AccAll | tools/bench_flatcore.c:401-436 | the ordering has no infinite descent on the tables for which `AlwaysStopsIff` holds, weightless labels and variables included |
| WellFounded.AccStops | tools/bench_flatcore.c:326-342 | normalizing with oriented rules stops after some number of steps |
| WellFounded.AlwaysStopsIff | tools/bench_flatcore.c:326-342 | every oriented rule set stops on every term exactly when no constant is lighter than a variable, a weightless unary label is the greatest, and weightless constants and weightless branching labels do not occur together |
| WellFounded.LightConstantLoops | tools/bench_flatcore.c:326-342 | a constant lighter than a variable admits an oriented rule that fires forever |
| WellFounded.LeafLoops | tools/bench_flatcore.c:326-342 | so does a weightless constant above a weightless branching label |
| WellFounded.BranchLoops | tools/bench_flatcore.c:326-342 | and one below it |
| FlatTerm.EncodeRec | tools/bench_flatcore.c:118-156 | writes the pre-order encoding at the cursor, sizes and weights (those of `WeightIs`) patched in afterwards; nodes past the cap are dropped and the symbols before it stay right; nothing outside the region changes |
| FlatTerm.EncodeChildren | tools/bench_flatcore.c:136-147 | children one after the other, their sizes and cached weights added up |
| FlatTerm.Encode | tools/bench_flatcore.c:158-162 | the buffer holds the whole encoding exactly when the term has at most 8192 nodes |
| FlatTerm.PrefixCode | tools/bench_flatcore.c:178-187 | two runs of well-formed terms that agree in symbols are the same run: symbols alone fix sizes, arities and weights |
| FlatTerm.DecodeHolds | tools/bench_flatcore.c:118-156 | reading symbols and child counts back yields the run of terms that stands there |
| FlatTerm.DecodeEnc | tools/bench_flatcore.c:158-162 | round trip: what encoding a term writes reads back as that term and uses up the whole buffer |
| FlatTerm.HoldsIsSlice | tools/bench_flatcore.c:59-71 | nodes in which every child follows its parent and every term ends where the next starts are exactly the encoding |
| FlatTerm.HoldsSplit | tools/bench_flatcore.c:253-256 | hopping over a term by its size lands on its sibling |
| FlatTerm.AtHead | tools/bench_flatcore.c:88-96 | what the cached fields of a node say about the term that starts there |
| FlatMatch.SymbolsDecide | tools/bench_flatcore.c:178-187 | equal-length slices hold the same term exactly when their symbols agree |
| FlatMatch.SliceEq | tools/bench_flatcore.c:178-187 | the symbol-only loop decides equality of the two terms |
| FlatMatch.BindOrCheck | tools/bench_flatcore.c:200-207 | a first occurrence records its slice, a later one succeeds only on an equal slice; the table stays the substitution built so far |
| FlatMatch.MatchNode | tools/bench_flatcore.c:197-216 | one pattern node advances both cursors to what is left to match and never past the subject subterm |
| FlatMatch.Match | tools/bench_flatcore.c:189-219 | returns 1 exactly when the pattern matches the subterm at sp, and then the bound slices are the matching substitution and lie inside that subterm |
| FlatMatch.EmitSubst | tools/bench_flatcore.c:234-251 | appends the instantiated right side with final symbols, arities and variable leaves, whatever the sizes and weights |
| FlatMatch.EmitNode | tools/bench_flatcore.c:238-250 | one template node: a bound slice copied, or one constructor without size and weight |
| FlatStep.Fixup | tools/bench_flatcore.c:257-272 | the right-to-left pass turns any region with the right symbols, arities and variable leaves into the exact encoding, and touches nothing else |
| FlatStep.SumChildren | tools/bench_flatcore.c:260-269 | hopping over the finished children sums size and weight of the constructor |
| FlatStep.NoRedexAnywhere | tools/bench_flatcore.c:293-321 | if no pre-order position fires then the tree step has nothing to do |
| FlatStep.FirstRedex | tools/bench_flatcore.c:276-284 | the first firing pre-order position is the leftmost-outermost redex, and the stepped term reads: nodes before it up to size and weight, replacement, untouched rest |
| FlatStep.StepUnfold | tools/bench_flatcore.c:276-284 | an element of the scan that does not fire passes the step on to what follows it |
| FlatStep.TryRules | tools/bench_flatcore.c:297-306 | the written rule at the lowest index whose left array encodes a pattern that the subterm at p is an instance of, with its bindings and what it sends the subterm to; reports none exactly when no written rule fits; the look at the top symbol loses no match |
| FlatStep.Splice | tools/bench_flatcore.c:307-312 | prefix, instantiated right side and suffix have the shape of the stepped term |
| FlatStep.Replace | tools/bench_flatcore.c:307-318 | after the repair pass the arena holds exactly the encoding of the stepped term |
| FlatStep.Step | tools/bench_flatcore.c:293-321 | fires exactly when the tree step does, and then the output is the encoding of the tree step result in every field; read off the arrays alone, the written rule of lowest index that fits was fired at the first position where one fits, its replacement stands there, the rest follows and nodes before keep symbol and arity; otherwise no rule fits anywhere and the arena is untouched |
| FlatStep.SomethingStands | tools/bench_flatcore.c:59-71 | exactly one term stands at each position of an encoding, so that the previous row speaks of one subterm per position |
| FlatStep.Normalize | tools/bench_flatcore.c:326-342 | the arena returned holds the encoding of the iterated tree step, for every cap |
| FlatKbo.Tally | tools/bench_flatcore.c:383-390 | posts every leaf of the slice to the balances and to the list of touched variables, which adds the term's counts and leaves no variable out of balance unlisted |
| FlatKbo.Diff | tools/bench_flatcore.c:366-399 | adds exactly w(s)-w(t) and the count differences although equal subterms are skipped, returns 1 exactly on identical terms, and leaves precisely the list of touched variables that the divergent leaves give |
| Balance.NetTrail | tools/bench_flatcore.c:366-399 | the leaves met at the points of divergence have the count differences of the whole terms |
| Balance.NotedBound | tools/bench_flatcore.c:383-397 | entries noted are at most half of the variable leaves plus half of the 64 ids |
| Balance.Overflow | tools/bench_flatcore.c:389-404 | two terms with 66 variable leaves between them that note 65 entries |
| Balance.TableSufficesIff | tools/bench_flatcore.c:404 | the 64 entries suffice for all terms with at most n variable leaves between them exactly when n is at most 65 |
| FlatKbo.DiffChildren | tools/bench_flatcore.c:374-382 | children in lockstep: the same balances and verdict for two nodes with one constructor |
| FlatKbo.Dominance | tools/bench_flatcore.c:408-413 | the flags read off the touched variables are full variable domination |
| FlatKbo.BalanceDecides | tools/bench_flatcore.c:408-413 | looking at the touched variables only is looking at all of them |
| FlatKbo.KboChildren | tools/bench_flatcore.c:426-435 | on a tie of weight and precedence, the verdict of the first differing child decides as in the tree comparator |
| FlatKbo.KboRec | tools/bench_flatcore.c:401-436 | returns the verdict of the tree comparator (weights as in `WeightIs`, precedences as in `PrecedenceDecides`), and whether any level noted more than 64 variables |
| FlatKbo.KboCompare | tools/bench_flatcore.c:438-441 | the same for two whole terms; with labels told apart the 64 entries suffice exactly if they do at the root, and 65 variable leaves always fit |
| InnerLoop.NormalizeAndOrient | tools/bench_flatcore.c:562-599 | for every term: the iterated tree step, which is the heap-rewriter's normal form up to 16 children per label; the verdict of the production comparator (EQ iff nothing fired, else GT); irreducible beyond the step bound; arenas twice the subject's weight suffice; and whether the comparison stays within its table |
| InnerLoop.ProgramTables | tools/bench_flatcore.c:479-486 | the tables the program runs with meet every condition above |
| InnerLoop.ProgramArenas | tools/bench_flatcore.c:545-549 | under those tables a subject of at most 500 nodes never outgrows the arenas of 8256 nodes |
| FirstOrder.ShefferAdmissible | tools/bench_flatcore.c:479-486 | those tables are admissible exactly when the label that is never built is given two children or more |
| FirstOrder.SizeBelowTwiceWeight | tools/bench_flatcore.c:257-272 | a term has fewer nodes than twice its weight |
| ForkJoin.EncodeRoundTrip | src/aot/task.h:73-80 | a packed return address is twice the cell plus the slot below 2^31 cells and loses the top bit above; it decodes to its cell and slot exactly there and off the word reserved for the root |
| ForkJoin.OthersUntouched | src/aot/cont.c:87-93 | an address owed by one activity is owed by no other and is no cell's own return address |
| ForkJoin.FullCell | src/aot/cont.c:98-112 | when a continuation fires both its slots hold the sums of their subtrees and nobody still owes them |
| ForkJoin.StepInv | src/aot/resolve.c:73-111 | on decoded addresses, every event of every worker keeps: each open address has exactly one owner, each filled slot holds the sum of its subtree, each cell counts its open slots |
| ForkJoin.StepWork | docs/aot_emitted_examples/tree_sum.c:48-64 | every event uses up exactly one unit of the tree's work |
| ForkJoin.SomeoneMoves | src/aot/cont.c:79-93 | below every waiting cell some activity can still move |
| ForkJoin.Finished | src/aot/resolve.c:77-81 | nobody can move exactly when the work is used up, and then the answer is stored and is the sum |
| ForkJoin.DoneIsLast | src/aot/worker.c:222-223 | once the answer is stored no cell and no activity is left |
| ForkJoin.ScheduleInv | src/aot/resolve.c:73-111 | the bookkeeping and the work count hold after every event of every schedule |
| ForkJoin.EveryScheduleSums | docs/aot_emitted_examples/tree_sum.c:39-64 | on decoded addresses, every interleaving ends, all after the same number of events, exactly when done is set, and the stored answer for a node is the number word with the sum of all leaf numbers modulo 2^32 and the tag of the leftmost leaf |
| ForkJoin.SumIsLeaves | docs/aot_emitted_examples/tree_sum.c:39-46 | the answer a tree denotes: a leaf's own word, an erased arm, and for a node the sum of all leaf numbers modulo 2^32 (anything but a number counts zero) under the tag of the leftmost leaf |
| PackedForkJoin.StepRefines | src/aot/cont.c:87-112 | a step on packed words that allocates below cell 2^31 - 1 is a step on decoded addresses |
| PackedForkJoin.EveryScheduleSums | src/aot/resolve.c:73-111 | with all cells below 2^31 - 1 every interleaving of the machine on packed words ends, exactly when done is set, with that same number word |
| PackedForkJoin.AlwaysRightIff | src/aot/task.h:73-80 | that machine is right on all trees and schedules exactly when no cell is allocated at 2^31 - 1 or above |
| PackedForkJoin.TakenForRoot | src/aot/task.h:73-80 | a run in which a slot of cell 2^31 - 1 is taken for the root and one child becomes the answer |
| PackedForkJoin.TopBitLost | src/aot/task.h:75-80 | a run in which the children of cell 2^31 report to cell 0 and a leaf is never waited for |
| Conv.Flat | py/examples/cuda_nn_xval.py:90-95 | the accumulating loop computes the row-major offset |
| Conv.RowMajorFits | py/examples/cuda_nn_xval.py:90-95 | in-range indices give offsets inside the buffer, for any rank |
| Conv.RowMajorInjective | py/examples/cuda_nn_xval.py:90-95 | different in-range indices never share an offset |
| Conv.RowMajor3 | py/examples/cuda_nn_xval.py:90-95 | for three coordinates the offset is (a * db + b) * dc + c |
| Conv.WindowsFit | py/examples/cuda_nn_xval.py:507 | the output positions are exactly the windows that fit the image |
| Conv.HitIs | py/examples/cuda_nn_xval.py:537-544 | what a position adds to a pixel is the gradient entry in row (n*oh+i)*ow+j and column (c*kh+h-i)*kw+w-j if its window covers the pixel, and nothing otherwise |
| Conv.GatherIsScatter | py/examples/cuda_nn_xval.py:335-341 | summing over the taps that reach a pixel equals summing over the positions that scatter to it, for every shape and pixel |
| Conv.WrapMask | py/examples/cuda_nn_xval.py:360-369 | with wrapping subtraction the one comparison rejects both sides |
| Conv.WrappingKernel | py/examples/cuda_nn_xval.py:344-384 | read as unsigned, the masked gather computes exactly what the scatter loop accumulates |
| Conv.WrappingFits | py/examples/cuda_nn_xval.py:370-376 | read as unsigned, every clamped address lies inside the buffer |
| Conv.WordAddressIs | py/examples/cuda_nn_xval.py:374-376 | with at most 2^32 gradient entries the addresses come out the same when every index operation wraps at 32 bits |
| Conv.SignedFitsIff | src/codegen/render_uop.c:632-669 | read as signed, as the renderer emits it, the loads stay inside the buffer exactly for one-by-one kernels |
| Conv.SignedCorrectIff | src/codegen/render_uop.c:632-669 | and loads in range together with the right value for every gradient and pixel hold exactly for one-by-one kernels |
| Conv.SignedValueDiffers | py/examples/cuda_nn_xval.py:358-382 | read as signed, every 1 x 2 kernel adds a gradient of the row above to each pixel of column 0 |
| Conv.SmallestDifference | py/examples/cuda_nn_xval.py:358-382 | the smallest such input: d[2] + d[1] in place of d[2] |
| Conv.PatchAt | py/examples/cuda_nn_xval.py:511-516 | entry (p, s) of the patch matrix is the pixel under that window position and kernel offset |
| Conv.ChannelAdjoint | py/examples/cuda_nn_xval.py:536-544 | one channel of one image: windows against the gradient are pixels against the scatter |
| Conv.ImageAdjoint | py/examples/cuda_nn_xval.py:511-516 | one image: its rows of the patch matrix against the gradient are its pixels against the scatter |
| Conv.Adjoint | py/examples/cuda_nn_xval.py:508-516 | im2col and col2im are adjoint for all sizes, batches and gradients |
| ConvLoops.FillRow | py/examples/cuda_nn_xval.py:514-516 | the window at (i, j) becomes row (n*oh+i)*ow+j, its pixel (c, ki, kj) in column (c*kh+ki)*kw+kj; earlier rows stay |
| ConvLoops.Im2col | py/examples/cuda_nn_xval.py:509-516 | entry ((n*oh+i)*ow+j, (c*kh+ki)*kw+kj) is x[n, c, i+ki, j+kj] for every window that fits the image, which makes the matrix the patch matrix of `Adjoint` |
| ConvLoops.ScatterRow | py/examples/cuda_nn_xval.py:539-544 | one position adds its window to the pixels it covers and to no other |
| ConvLoops.Col2im | py/examples/cuda_nn_xval.py:534-544 | afterwards every pixel holds its scattered sum |
| Tensors.UnflattenFlatten | py/thvm/from_tinygrad.py:394 | row-major position and back is the identity on in-range indices |
| Tensors.UnflattenInBox | py/thvm/from_tinygrad.py:394 | every row-major position is hit by an in-range index that flattens to it |
| Tensors.FlattenOrder | py/thvm/from_tinygrad.py:394 | the first coordinate that differs decides which of two indices comes first, for any rank |
| Tensors.PartlyReduce | py/thvm/from_tinygrad.py:387-389 | reducing one axis after all later ones leaves the earlier axis numbers valid |
| Tensors.KeptOrder | py/thvm/from_tinygrad.py:390-394 | dimensions kept as 1 do not move an element in row-major order |
| Tensors.LoweredReduce | py/thvm/from_tinygrad.py:385-394 | the reduced tensor reshaped once is the simultaneous keep-dims reduce, for any rank, axes and operation |
| Tensors.FibreExact | py/thvm/from_tinygrad.py:376-395 | the positions a keep-dims reduce combines are exactly those that agree with the index off the reduced axes |
| Tensors.FibreDistinct | py/thvm/from_tinygrad.py:376-395 | none of them is combined twice |
| Tensors.NestIsFibre | py/thvm/from_tinygrad.py:376-395 | for an associative operation with an idempotent, commuting start value the loop nest is the fold over those positions |
| Tensors.ReduceInAnyOrder | py/thvm/from_tinygrad.py:376-395 | for a commutative such operation, maximum included, that fold may run in any order |
| FromTinygrad.CombineReduces | py/thvm/from_tinygrad.py:378-383 | both reduce kinds are of that sort, whatever a maximum starts from |
| FromTinygrad.ReduceNode | py/thvm/from_tinygrad.py:376-395 | a reduce node combines the elements its output index stands for, each once, in any order |
| Movement.ReduceMeans | py/thvm/from_tinygrad.py:376-395 | a sum reduce is the sum of those elements; a maximum reduce is at least each of them and is one of them or its start value |
| Movement.KeptShape | py/thvm/from_tinygrad.py:390-394 | a reduced dimension is kept with extent 1 and the others as they are |
| Movement.PadNode | py/thvm/from_tinygrad.py:186-207 | a pad node has the sizes its parameters ask for; the operand's element at jdx stands at offset + jdx and every index off it holds zero |
| Movement.ShrinkNode | py/thvm/from_tinygrad.py:186-197 | a shrink node has the sizes its parameters ask for and holds at idx the operand's element at offset + idx |
| Movement.PermuteNode | py/thvm/from_tinygrad.py:410-414 | dimension i of the result is dimension perm[i] of the operand, extents and coordinates alike |
| Movement.ExpandNode | py/thvm/from_tinygrad.py:404-408 | an expanded dimension is read at 0, the others where they are |
| Movement.FlipNode | py/thvm/from_tinygrad.py:428-438 | a flipped dimension is read from its far end, the others where they are |
| Movement.ReshapeNode | py/thvm/from_tinygrad.py:398-402 | a reshaped element keeps its row-major position |
| Lowering.SubDenotes | py/thvm/from_tinygrad.py:331-336 | a + (-b) is the difference |
| Lowering.MaxDenotes | py/thvm/from_tinygrad.py:456-461 | (a<b)*b + (1-(a<b))*a is the maximum at every index, the scalar 1 spread over any shape |
| Lowering.NeDenotes | py/thvm/from_tinygrad.py:346-354 | 1 - (a == b) is the not-equal |
| Lowering.CastDenotesIff | py/thvm/from_tinygrad.py:441-447 | the conversion a cast is lowered to denotes the cast exactly when every value of the tensor survives it |
| Casts.CastKeptIff | py/thvm/from_tinygrad.py:138-155 | which values survive: for every dtype and real, in terms of ranges and truncation |
| Casts.TruncatedIs | py/thvm/from_tinygrad.py:441-447 | truncation gives the one integer within one of x on the side of zero |
| Casts.WrapIff | py/thvm/from_tinygrad.py:441-447 | an integer type keeps of n the one value in its range that differs from n by a multiple of the number of its values |
| Casts.TypeRanges | py/thvm/from_tinygrad.py:441-447 | the ranges of the eight integer types in plain numbers |
| Casts.IntKeptIff | py/thvm/from_tinygrad.py:138-155 | a 32-bit integer cast to a recognised integer type is kept exactly when it fits that type |
| Casts.LossyCasts | py/thvm/from_tinygrad.py:441-447 | 300 to an unsigned byte and 2 to a bool are changed by the cast and not by the conversion |
| Lowering.BitcastDenotes | py/thvm/from_tinygrad.py:441-447 | a bitcast within one format is kept where a cast would be |
| Lowering.IntBitsKeptIff | py/thvm/from_tinygrad.py:441-447 | a bitcast from 32-bit integers to floats, lowered to a conversion, is kept exactly at zero |
| Lowering.FloatBitsKeptIff | py/thvm/from_tinygrad.py:441-447 | and one from floats to 32-bit integers, in their range, exactly at the word zero |
| Lowering.BitcastInput | py/thvm/from_tinygrad.py:441-447 | the word of 1.0 comes out as 1065353216 |
| Casts.OnlyZeroAgrees | py/thvm/from_tinygrad.py:441-447 | no other 32-bit word has the same value as a finite float and as an integer |
| Casts.Binade | py/thvm/from_tinygrad.py:441-447 | the values of float words: exponent 127 runs from 1 to 2 in steps of 2^-23, and each exponent up doubles |
| Casts.Subnormal | py/thvm/from_tinygrad.py:441-447 | words of exponent zero go down evenly to zero |
| Casts.WordFields | py/thvm/from_tinygrad.py:441-447 | 23 bits of fraction, 8 of exponent, and the top bit for the sign |
| Lowering.IConstDenotesIff | py/thvm/from_tinygrad.py:300-307 | an integer constant is kept exactly when it fits 32 bits signed |
| Lowering.ReshapeDenotes | py/thvm/from_tinygrad.py:398-402 | a reshape keeps row-major order |
| Lowering.PermuteDenotes | py/thvm/from_tinygrad.py:410-414 | a permute reads the input at the inverse permutation of the index |
| Lowering.MovementBounds | py/thvm/from_tinygrad.py:182-252 | begin is the offset and end what the requested size leaves (a pad) or the offset plus the size (a shrink), for every dimension, read off the attribute if there is one, else the last two constant operands, else the argument; it reports nothing exactly when there are none |
| Lowering.PadDenotes | py/thvm/from_tinygrad.py:186-196 | with those widths the padded term has the requested size, the input at its offset and zero elsewhere |
| Lowering.ShrinkDenotes | py/thvm/from_tinygrad.py:186-197 | with those bounds the slice starts at the offset and has the requested size |
| Lowering.BitAdd | py/thvm/from_tinygrad.py:429-435 | adding a power of two above a mask sets that bit and no other |
| Lowering.FlipMask | py/thvm/from_tinygrad.py:429-435 | bit d of the mask is set exactly for the flipped dimensions |
| Lowering.FlipDenotes | py/thvm/from_tinygrad.py:428-438 | a flip by that mask reverses exactly those dimensions |
| Translate.ReducedStep | py/thvm/from_tinygrad.py:387-389 | one single-axis reduce takes the term one axis further |
| Translate.ReducedDone | py/thvm/from_tinygrad.py:390-394 | the final reshape restores the kept dimensions |
| Translate.Translator.LowerReduce | py/thvm/from_tinygrad.py:376-396 | the loop over descending axes and the reshape denote the multi-axis keep-dims reduce |
| Translate.Translator.BuildElementwise | py/thvm/from_tinygrad.py:315-373 | unary, binary and ternary nodes are built with their meaning, and with the stated number of new terms |
| Translate.Translator.BuildMax | py/thvm/from_tinygrad.py:456-461 | the maximum is built with its comparison shared |
| Translate.Translator.BuildCast | py/thvm/from_tinygrad.py:441-447 | casts and bitcasts become one conversion, right where every value survives |
| Translate.Translator.BuildMovement | py/thvm/from_tinygrad.py:397-438 | reshape, expand, permute and flip nodes are built with their meaning |
| Translate.Translator.BuildWindow | py/thvm/from_tinygrad.py:416-426 | pad and shrink become one term over the operand's with the begin and end of every dimension as their parameters ask, and with the node's meaning; they fail exactly when their parameters cannot be found |
| Translate.Translator.Build | py/thvm/from_tinygrad.py:282-447 | one node over the terms of its operands denotes the node, unless it is a constant or cast that changes a value met |
| Translate.Translator.EmitOperands | py/thvm/from_tinygrad.py:269-447 | operands are translated left to right up to the first that cannot be |
| Translate.Translator.Emit | py/thvm/from_tinygrad.py:269-453 | fails exactly when an operation without a lowering, or without its parameters, is reached; on success the memo has grown by exactly the nodes below u, every entry with nothing lossy below it denotes its node, and the terms built are those of the entries, each once |
| Translate.Translate | py/thvm/from_tinygrad.py:466-482 | from an empty memo: the root's term has the root's shape and values if no lossy constant or cast is reached, and every reachable node is built exactly once |

## Left out

- Integer widths of node weights, sizes and the weight balance: unbounded here, 32 and 64 bits in C.
- The default arm of `fc_encode_rec` for terms that are neither variable nor constructor: terms are of those two kinds.
- What the C code does after writing past the end of `touched`.
- Node arrays that are only read are sequences, so aliasing between a read-only array and a written one is not modelled.
- `fc_eq`: only an inlined copy of its test is used, in `FlatKbo.Diff`.
- The subtree-weight memo and the worklists of the linear comparator, hash-consed sharing, the AC matcher, and the
  saturation loop around the inner loop.
- Reading leaf data from buffers and the search for the buffer below a node; a leaf is an opaque tensor of its node's shape,
  already converted to the target's type.
- Bitcasts that are neither within one format nor between signed 32-bit integers and 32-bit floats: their meaning is left
  open and nothing is promised below them.
- Floating-point rounding, infinities and NaN: values are reals, the transcendental operations are uninterpreted, casting to a
  float type changes nothing, integer arithmetic does not overflow, and a maximum over nothing starts from a value left
  open.
- The evaluation of a task argument to weak head normal form: the argument is the tree it evaluates to.
- The queues, batching and threads of `src/aot/worker.c` and its memory orderings: any activity may move at any time, and
  an event is atomic.
- Cells are never reused by the allocator; the step system frees a fired cell, so its addresses may be reused.
- The other kernels and reference cases of `py/examples/cuda_nn_xval.py`, the discrimination-tree benchmark, `TinyJit`,
  the other emitted examples, printing, timing and corpus harvesting.
