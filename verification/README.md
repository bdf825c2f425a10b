# Figurative Partitions — a Dafny model of the game's core

Figurative Partitions is a browser puzzle. The player places figurate-number shapes on a
board: the Pebble (kind 0), the triangle (kind 1), the square (kind 2) and so on up to the
octagon (kind 6). Each shape has a size k. Its value is the (n+2)-gonal number of index k,
and the Pebble is always worth 1. The player grows and shrinks the shapes until their
values add up to a target. The repository ships three variants of the same core, and each
has its own Dafny module here:

- `FP` models FP.js. The player clicks a figure to make it the *active* figure. Global
  Add, Adjust and Remove buttons then act on the active figure.
- `PartitionsJs` models FigurativePartitions.js. Every figure carries its own +, – and ✕
  buttons, and a click names an action and the figure's id.
- `PartitionsTs` models FigurativePartitions.ts. Its handlers are those of the .js file,
  but its `computeValue` first shifts the index (`k = j + 1`), so it returns the *next*
  term. A freshly placed triangle is worth 3 there, where the .js file says 1. The
  header comment of FigurativePartitions.js says that file is compiled from the .ts file,
  yet the two disagree. Each file is modelled as written, and
  `Figurate.ShiftedFreshValue` states the difference.

Two modules are shared:

- `Figurate` holds the two value functions (`Value` for FP.js and FigurativePartitions.js,
  `ShiftedValue` for FigurativePartitions.ts) and their arithmetic. The division by 2 is
  exact, the results are the polygonal numbers (triangular and square for kinds 1 and 2),
  and the values strictly increase with the size.
- `Figures` holds the `Figure` record `{id, n, k, v}` and the queries made of the ordered
  list of figures: used kinds (`getUsedShapes`), ids, `findIndex`, `splice` and the sum.
  It also holds `WellFormed`, the shape every variant keeps the list in. Ids strictly
  increase and lie below `nextId`, kinds are 0–6, and no kind occurs twice.

Each board module has the same structure. A datatype `Game` holds the module-level
variables: `target`, `figures`, `nextId`, `clickCount`, and in FP.js also `activeId`.
There is one transition function per event handler. Lemmas state what each handler
guarantees:

- it keeps `Invariant`, which says sizes are at least 1, every cached value equals the
  value function of its kind and size, the list is well formed, and in FP.js the active id
  is absent or names a figure on the board;
- every handler other than set-target adds one to `clickCount` exactly when it changes
  the figures (`Counted`); set-target resets `clickCount` to 0 instead;
- an invalid action is a no-op;
- the sum changes as stated.

A class `Board` holds the same variables in mutable fields. Its methods carry out the
handlers step by step, as the JavaScript does (push, splice, in-place resize). Each
method is proved to reach the state given by its transition function and to keep
`Valid()`. The methods that only read are also proved: `UsedShapes` collects the used
kinds in a loop, and `Render`/`RenderBoard` sums the values in a loop and evaluates the
win test.

Nothing is stored, timed or random. The only inputs are the handler arguments: the
parsed target, the palette kind, the clicked figure, and the button's action and id.

## Model

| member | source | states |
|---|---|---|
| `Figurate.Value` | FP.js:7-9 | Pebble and size 1 are worth 1; for other kinds twice the value is 2k + n(k-1)k, so the source's division by 2 leaves no remainder |
| `Figurate.ConsecutiveProductEven` | FigurativePartitions.js:8 | (k-1)k is even for every integer k |
| `Figurate.PolygonalNumber` | FP.js:25-27 | for n ≠ 0 the value is the (n+2)-gonal number: 2P = n k² − (n−2) k |
| `Figurate.TriangularNumbers` | FP.js:26 | kind 1 gives k(k+1)/2 (A000217) |
| `Figurate.SquareNumbers` | FP.js:26 | kind 2 gives k² (A000290) |
| `Figurate.ValueStep` | FigurativePartitions.js:7-9 | growing the size by one adds exactly 1 + n k to a non-Pebble value |
| `Figurate.ValueStrictlyIncreasing` | FigurativePartitions.js:7-9 | for every kind n ≥ 1 the value strictly increases with the size |
| `Figurate.ShiftedValue` | FigurativePartitions.ts:16-19 | the .ts value at j equals the .js value at j+1, and twice it is (j+1)(n j + 2), an even number |
| `Figurate.ShiftedFreshValue` | FigurativePartitions.ts:17-18 | a size-1 .ts figure is worth 1 for the Pebble and n+2 otherwise, which differs from the .js value 1 for every kind n ≥ 1 |
| `Figurate.ShiftedValueStrictlyIncreasing` | FigurativePartitions.ts:18 | the .ts value also strictly increases with the size for every kind n ≥ 1 |
| `Figures.FindIndex` | FigurativePartitions.js:117 | returns the first position holding the id, or −1 exactly when the id is not on the board |
| `Figures.RemoveAt` | FigurativePartitions.js:132 | splicing one position out leaves one fewer figure and keeps every other figure in its old order |
| `Figures.TotalConcat` | FigurativePartitions.js:62-64 | the running sum of a concatenation is the sum of the running sums |
| `Figures.TotalRemoveAt` | FP.js:172 | splicing a figure out takes exactly its value off the sum |
| `Figures.TotalReplace` | FP.js:148-149 | resizing a figure in place changes the sum by the change of its value |
| `Figures.FindIndexOfId` | FP.js:146 | in a well-formed list each id occurs once, so the lookup by id finds exactly that figure |
| `Figures.FindIndexReplace` | FigurativePartitions.js:117 | replacing a figure in place by one with the same id leaves the position findIndex returns for every id unchanged, so a figure grown by "+" is found again by "–" |
| `Figures.AppendWellFormed` | FigurativePartitions.js:100-106 | appending a figure of an unused kind with id nextId keeps ids increasing and below nextId+1 and kinds distinct, and adds exactly that id and kind |
| `Figures.RemoveWellFormed` | FigurativePartitions.js:131-133 | removing a figure keeps the list well formed |
| `Figures.RemoveIdsKinds` | FP.js:170-172 | removing a figure takes exactly its id and its kind out of use |
| `Figures.ReplaceWellFormed` | FigurativePartitions.js:121-130 | resizing a figure in place keeps the list well formed and keeps its ids and kinds |
| `FP.StartInvariant` | FP.js:1-5 | the initial state satisfies the invariant, with sum 0 and not won |
| `FP.SetTargetSpec` | FP.js:103-111 | a positive target sets target, empties figures, sets nextId to 1, clickCount to 0 and activeId to null, leaving sum 0 and not won; any other input changes nothing; the invariant is kept |
| `FP.PaletteAddSpec` | FP.js:117-130 | a disabled (used) kind changes nothing; otherwise exactly one figure {old nextId, n, 1, 1} is appended, earlier figures are unchanged, it becomes active, nextId and clickCount go up by one, target is unchanged, the sum rises by 1 |
| `FP.AppendKeeps` | FP.js:121-128 | appending a figure of an unused kind with id nextId and a matching value, selecting it and counting one click keeps the invariant |
| `FP.SelectSpec` | FP.js:135-139 | selecting a drawn figure makes it the active one; figures, target, nextId and clickCount are unchanged and the invariant is kept |
| `FP.GrowSpec` | FP.js:142-153 | Add acts iff there is an active non-Pebble figure; then its size goes up by one, its value is recomputed, the sum strictly rises, one click is counted, no other figure changes and target, nextId and activeId are unchanged |
| `FP.ShrinkSpec` | FP.js:154-165 | Adjust acts iff the active figure is not a Pebble and has size > 1; then the size goes down by one and stays ≥ 1, the sum strictly falls, one click is counted, no other figure changes and target, nextId and activeId are unchanged |
| `FP.RemoveSpec` | FP.js:166-177 | Remove acts iff a figure is active; then exactly that figure is spliced out, the rest keep their order, its id and kind leave use, its value leaves the sum, activeId becomes null, one click is counted and target and nextId are unchanged |
| `FP.GrowThenShrink` | FP.js:142-165 | Add then Adjust on an active non-Pebble figure restores every figure exactly and adds two clicks |
| `FP.ResizeKeeps` | FP.js:148-149 | an in-place resize to a matching value keeps the invariant and changes the board |
| `FP.Board.constructor` | FP.js:1-5 | the board starts at target 27 with no figures, nextId 1, clickCount 0 and no active figure |
| `FP.Board.ClickSetTarget` | FP.js:100-112 | the set-target handler reaches the state `SetTarget` gives and keeps the invariant |
| `FP.Board.ClickPalette` | FP.js:114-131 | the palette handler reaches the state `PaletteAdd` gives and keeps the invariant |
| `FP.Board.ClickFigure` | FP.js:133-140 | the board-select handler reaches the state `Select` gives and keeps the invariant |
| `FP.Board.ClickAdd` | FP.js:142-153 | the Add handler reaches the state `Grow` gives and keeps the invariant |
| `FP.Board.ClickAdjust` | FP.js:154-165 | the Adjust handler reaches the state `Shrink` gives and keeps the invariant |
| `FP.Board.ClickRemove` | FP.js:166-177 | the Remove handler reaches the state `Remove` gives and keeps the invariant |
| `FP.Board.RenderBoard` | FP.js:45-68 | the loop's sum is the sum of all figure values, and won holds iff that sum equals the target |
| `PartitionsJs.StartInvariant` | FigurativePartitions.js:2-5 | the initial state satisfies the invariant, with sum 0 and not won |
| `PartitionsJs.SetTargetSpec` | FigurativePartitions.js:143-150 | a positive target sets target, empties figures and sets nextId to 1 and clickCount to 0, leaving sum 0 and not won; any other input changes nothing |
| `PartitionsJs.AddShapeSpec` | FigurativePartitions.js:97-109 | a kind already present changes nothing; otherwise exactly one figure {old nextId, n, 1, 1} is appended, earlier figures are unchanged, nextId and clickCount go up by one, target is unchanged, the sum rises by 1 |
| `PartitionsJs.AppendKeeps` | FigurativePartitions.js:100-107 | appending a figure of an unused kind with id nextId and a matching value and counting one click keeps the invariant |
| `PartitionsJs.AddShapeTwice` | FigurativePartitions.js:98-99 | adding the same kind twice equals adding it once, and that kind is then on the board |
| `PartitionsJs.ResizeKeeps` | FigurativePartitions.js:122-128 | an in-place resize to a matching value keeps the invariant and changes the board |
| `PartitionsJs.BoardClickSpec` | FigurativePartitions.js:111-136 | every board click keeps the invariant, counts a click iff it changes the figures, keeps target and nextId, and does nothing for an id not on the board |
| `PartitionsJs.IncSpec` | FigurativePartitions.js:121-125 | "+" acts iff the id is on the board and not a Pebble; then that size goes up by one, the sum strictly rises and no other figure changes |
| `PartitionsJs.DecSpec` | FigurativePartitions.js:126-130 | "–" acts iff the id is on the board, not a Pebble and of size > 1; then that size goes down by one and stays ≥ 1, the sum strictly falls and no other figure changes |
| `PartitionsJs.RmSpec` | FigurativePartitions.js:131-134 | "✕" acts iff the id is on the board; then exactly that figure is spliced out, order kept, its id and kind leave use, its value leaves the sum, and target and nextId are unchanged |
| `PartitionsJs.IncThenDec` | FigurativePartitions.js:121-130 | "+" then "–" on a non-Pebble figure restores every figure exactly and adds two clicks |
| `PartitionsJs.TriangleAndSquareReachTen` | FigurativePartitions.js:97-136 | target 10, a triangle grown to 6 and a square grown to 4 win after five clicks |
| `PartitionsJs.Board.constructor` | FigurativePartitions.js:2-5 | the board starts at target 27 with no figures, nextId 1 and clickCount 0 |
| `PartitionsJs.Board.UsedShapes` | FigurativePartitions.js:11-16 | the loop collects exactly the kinds on the board |
| `PartitionsJs.Board.SetTargetClick` | FigurativePartitions.js:139-151 | the set-target handler reaches the state `SetTarget` gives and keeps the invariant |
| `PartitionsJs.Board.AddShape` | FigurativePartitions.js:97-109 | addShape reaches the state `WithShape` gives and keeps the invariant |
| `PartitionsJs.Board.OnBoardClick` | FigurativePartitions.js:111-136 | onBoardClick reaches the state `BoardClick` gives and keeps the invariant |
| `PartitionsJs.Board.Render` | FigurativePartitions.js:62-89 | the loop's sum is the sum of all figure values, and the win text shows iff that sum equals the target |
| `PartitionsTs.StartInvariant` | FigurativePartitions.ts:10-13 | the initial state satisfies the invariant, with sum 0 and not won |
| `PartitionsTs.SetTargetSpec` | FigurativePartitions.ts:164-171 | a positive target sets target, empties figures and sets nextId to 1 and clickCount to 0, leaving sum 0 and not won; any other input changes nothing |
| `PartitionsTs.AddShapeSpec` | FigurativePartitions.ts:118-129 | a kind already present changes nothing; otherwise exactly one figure {old nextId, n, 1, S} is appended, where S is the displayed side count (1 for the Pebble, n+2 otherwise); nextId and clickCount go up by one, target is unchanged, the sum rises by S |
| `PartitionsTs.AppendKeeps` | FigurativePartitions.ts:120-127 | appending a figure of an unused kind with id nextId and a matching shifted value and counting one click keeps the invariant |
| `PartitionsTs.AddShapeTwice` | FigurativePartitions.ts:119 | adding the same kind twice equals adding it once, and that kind is then on the board |
| `PartitionsTs.ResizeKeeps` | FigurativePartitions.ts:144-149 | an in-place resize to a matching value keeps the invariant and changes the board |
| `PartitionsTs.BoardClickSpec` | FigurativePartitions.ts:132-157 | every board click keeps the invariant, counts a click iff it changes the figures, keeps target and nextId, and does nothing for an id not on the board |
| `PartitionsTs.IncSpec` | FigurativePartitions.ts:143-146 | "+" acts iff the id is on the board and not a Pebble; then that size goes up by one, the sum strictly rises and no other figure changes |
| `PartitionsTs.DecSpec` | FigurativePartitions.ts:147-150 | "–" acts iff the id is on the board, not a Pebble and of size > 1; then that size goes down by one and stays ≥ 1, the sum strictly falls and no other figure changes |
| `PartitionsTs.RmSpec` | FigurativePartitions.ts:151-154 | "✕" acts iff the id is on the board; then exactly that figure is spliced out, order kept, its id and kind leave use, its value leaves the sum, and target and nextId are unchanged |
| `PartitionsTs.IncThenDec` | FigurativePartitions.ts:143-150 | "+" then "–" on a non-Pebble figure restores every figure exactly and adds two clicks |
| `PartitionsTs.FreshTriangleWinsThree` | FigurativePartitions.ts:118-127 | with target 3, a triangle just placed is worth 3 and wins in one click |
| `PartitionsTs.Board.constructor` | FigurativePartitions.ts:10-13 | the board starts at target 27 with no figures, nextId 1 and clickCount 0 |
| `PartitionsTs.Board.UsedShapes` | FigurativePartitions.ts:22-26 | the loop collects exactly the kinds on the board |
| `PartitionsTs.Board.SetTargetClick` | FigurativePartitions.ts:161-172 | the set-target handler reaches the state `SetTarget` gives and keeps the invariant |
| `PartitionsTs.Board.AddShape` | FigurativePartitions.ts:118-129 | addShape reaches the state `WithShape` gives and keeps the invariant |
| `PartitionsTs.Board.OnBoardClick` | FigurativePartitions.ts:132-157 | onBoardClick reaches the state `BoardClick` gives and keeps the invariant |
| `PartitionsTs.Board.Render` | FigurativePartitions.ts:77-108 | the loop's sum is the sum of all figure values, and the win text shows iff that sum equals the target |

## Left out

- Rendering is not modelled: the HTML of the palette and board, labels, OEIS titles, CSS
  classes and the empty-board note. The renderers are reduced to the sum they accumulate
  and the win test.
- The win sound (FP.js:70-72) is not modelled.
- `updateActionButtons` (FP.js:74-92) only enables or disables buttons. It disables Add
  and Adjust for a Pebble and Adjust at size 1. The handlers check the same conditions
  again, so the model follows the handlers.
- Event wiring and DOM lookup (`addEventListener`, `closest`, `dataset`) are not
  modelled. Each handler is a method taking the value it would read. A click that hits
  no button or no figure returns before any change and is not modelled.
- `parseInt` of the target field: reset takes an integer. Non-numeric input gives NaN,
  which fails the `v > 0` test, and so it falls into the unchanged case.
- Palette kinds: palette add and `addShape` require a kind in 0–6, because the palette
  has buttons only for those kinds. The palette's disabled state is modelled as "kind
  already on the board", which is what every render sets.
- FP.js board select: a figure element exists only for a figure drawn by the last
  render, and every handler renders. So `FP.Select` and `FP.Board.ClickFigure` take the
  position of the clicked figure on the board and require it to be on the board. Under
  that premise `activeId` never dangles.
- In FP.js, Add and Adjust with an `activeId` that names no figure would throw a
  TypeError before changing anything. The model treats that case as no change. Under the
  invariant it cannot happen.
- JavaScript numbers are modelled as unbounded integers. All values stay small, and the
  division by 2 is proved exact.
- Only FP.js makes a new figure the active one. FP.js's Remove always removes
  the active figure and always clears the selection. The .ts formula is kept with its
  shifted index and is not reconciled with the .js formula.
