/**
 * FigurativePartitions.ts: the TypeScript source of the variant whose figures carry their
 * own +, – and ✕ buttons. Its handlers do what those of FigurativePartitions.js do, but
 * its computeValue shifts the index (`ShiftedValue`), so every value here is the next
 * term of the sequence: a fresh non-Pebble figure is worth n + 2, not 1.
 *
 * `Game` is the module-level state of FigurativePartitions.ts; the transition functions
 * give the state after each handler and the lemmas state what each handler guarantees and
 * that it keeps `Invariant`. `Board` holds the same state in mutable fields and carries the
 * handlers out step by step.
 */
module PartitionsTs {
  import opened Figurate
  import opened Figures

  /** The data-action of a board button. */
  datatype Action = Inc | Dec | Rm

  /** target, figures, nextId and clickCount of FigurativePartitions.ts. */
  datatype Game = Game(target: int, figures: seq<Figure>, nextId: int, clickCount: int)

  /** The state FigurativePartitions.ts starts from. */
  const Start := Game(27, [], 1, 0)

  /**
   * What every handler keeps: a positive target, a well-formed list whose values are
   * `ShiftedValue` of kind and size, and at most clickCount ids handed out since the last reset.
   */
  ghost predicate Invariant(g: Game)
  {
    g.target >= 1 && WellFormed(g.figures, g.nextId) && ShiftedValuesMatch(g.figures) &&
    g.nextId <= g.clickCount + 1
  }

  /** A handler counts a click exactly when it changes the list of figures. */
  ghost predicate Counted(g: Game, g': Game)
  {
    g'.clickCount == g.clickCount + (if g'.figures == g.figures then 0 else 1)
  }

  /** The sum shown under the board. */
  function Sum(g: Game): int
  {
    Total(g.figures)
  }

  /** Whether the win message is shown. */
  predicate Won(g: Game)
  {
    Sum(g) == g.target
  }

  /** The side count S shown beside a figure: 1 for the Pebble, n + 2 otherwise. */
  function Side(n: int): int
  {
    if n == 0 then 1 else n + 2
  }

  /** Set-target button: a positive target clears the board and the counters. */
  function SetTarget(g: Game, v: int): Game
  {
    if v > 0 then Game(v, [], 1, 0) else g
  }

  /** addShape(n): a kind already on the board is refused; otherwise a figure of size 1 is appended. */
  function WithShape(g: Game, n: int): Game
    requires 0 <= n <= 6
  {
    if n in Kinds(g.figures) then g
    else
      g.(figures := g.figures + [Figure(g.nextId, n, 1, ShiftedValue(n, 1))],
         nextId := g.nextId + 1,
         clickCount := g.clickCount + 1)
  }

  /** onBoardClick: the button's action applied to the figure with the button's id. */
  function BoardClick(g: Game, action: Action, id: int): Game
  {
    var i := FindIndex(g.figures, id);
    if i < 0 then g
    else
      var f := g.figures[i];
      if action == Inc && f.n != 0 then
        g.(figures := g.figures[i := f.(k := f.k + 1, v := ShiftedValue(f.n, f.k + 1))],
           clickCount := g.clickCount + 1)
      else if action == Dec && f.n != 0 && f.k > 1 then
        g.(figures := g.figures[i := f.(k := f.k - 1, v := ShiftedValue(f.n, f.k - 1))],
           clickCount := g.clickCount + 1)
      else if action == Rm then
        g.(figures := RemoveAt(g.figures, i), clickCount := g.clickCount + 1)
      else g
  }

  lemma StartInvariant()
    ensures Invariant(Start) && Sum(Start) == 0 && !Won(Start)
  {
  }

  /** A positive target empties the board, so the game is not yet won; any other input changes nothing. */
  lemma SetTargetSpec(g: Game, v: int)
    requires Invariant(g)
    ensures Invariant(SetTarget(g, v))
    ensures v > 0 ==> SetTarget(g, v).target == v && SetTarget(g, v).figures == []
    ensures v > 0 ==> SetTarget(g, v).nextId == 1 && SetTarget(g, v).clickCount == 0
    ensures v > 0 ==> Sum(SetTarget(g, v)) == 0 && !Won(SetTarget(g, v))
    ensures v <= 0 ==> SetTarget(g, v) == g
  {
  }

  /**
   * addShape of an unused kind appends exactly one figure of size 1 with id nextId, worth
   * 1 for the Pebble and n + 2 (its number of sides) for any other kind, leaves the earlier figures as they were and counts one click; on a kind
   * already present it changes nothing.
   */
  lemma AddShapeSpec(g: Game, n: int)
    requires Invariant(g) && 0 <= n <= 6
    ensures Invariant(WithShape(g, n)) && Counted(g, WithShape(g, n))
    ensures n in Kinds(g.figures) ==> WithShape(g, n) == g
    ensures n !in Kinds(g.figures) ==>
      var g' := WithShape(g, n);
      |g'.figures| == |g.figures| + 1 && g'.figures[..|g.figures|] == g.figures &&
      g'.figures[|g.figures|] == Figure(g.nextId, n, 1, Side(n)) && g'.nextId == g.nextId + 1 &&
      g'.target == g.target && Kinds(g'.figures) == Kinds(g.figures) + {n} && Sum(g') == Sum(g) + Side(n)
  {
    if n !in Kinds(g.figures) {
      ShiftedFreshValue(n);
      var f := Figure(g.nextId, n, 1, ShiftedValue(n, 1));
      AppendKeeps(g, f);
      KindsConcat(g.figures, [f]);
      KindsIdsSingleton(f);
      assert (g.figures + [f])[..|g.figures|] == g.figures;
    }  }

  /** Adding the same kind twice in a row is the same as adding it once: one figure of that kind. */
  lemma AddShapeTwice(g: Game, n: int)
    requires Invariant(g) && 0 <= n <= 6
    ensures WithShape(WithShape(g, n), n) == WithShape(g, n)
    ensures n in Kinds(WithShape(g, n).figures)
  {
    AddShapeSpec(g, n);
  }

  /**
   * Appending a figure of an unused kind with id nextId and a matching value, moving
   * nextId on, counting one click
   * keeps the invariant.
   */
  lemma AppendKeeps(g: Game, f: Figure)
    requires Invariant(g) && f.id == g.nextId && 0 <= f.n <= 6 && f.n !in Kinds(g.figures)
    requires f.k >= 1 && f.v == ShiftedValue(f.n, f.k)
    ensures Invariant(g.(figures := g.figures + [f], nextId := g.nextId + 1,
                         clickCount := g.clickCount + 1))
  {
    AppendWellFormed(g.figures, g.nextId, f);
    AppendShiftedValuesMatch(g.figures, f);
  }

  /**
   * Replacing the figure at position i by one of the same id and kind, a size of at least
   * 1 and the matching value, keeps the invariant and changes the list.
   */
  lemma ResizeKeeps(g: Game, i: int, f': Figure)
    requires Invariant(g) && 0 <= i < |g.figures|
    requires f'.id == g.figures[i].id && f'.n == g.figures[i].n && f'.k != g.figures[i].k
    requires f'.k >= 1 && f'.v == ShiftedValue(f'.n, f'.k)
    ensures Invariant(g.(figures := g.figures[i := f'], clickCount := g.clickCount + 1))
    ensures g.figures[i := f'] != g.figures
  {
    ReplaceWellFormed(g.figures, g.nextId, i, f');
    assert g.figures[i := f'][i] != g.figures[i];
  }

  /**
   * Every board click keeps the invariant, counts a click exactly when it changes the
   * figures, never touches the target or nextId, and does nothing for an id not on the board.
   */
  lemma BoardClickSpec(g: Game, action: Action, id: int)
    requires Invariant(g)
    ensures Invariant(BoardClick(g, action, id)) && Counted(g, BoardClick(g, action, id))
    ensures BoardClick(g, action, id).target == g.target
    ensures BoardClick(g, action, id).nextId == g.nextId
    ensures id !in Ids(g.figures) ==> BoardClick(g, action, id) == g
  {
    match action {
      case Inc => IncSpec(g, id);
      case Dec => DecSpec(g, id);
      case Rm => RmSpec(g, id);
    }
  }

  /**
   * "+" grows the figure with that id exactly when it is on the board and not a Pebble:
   * its size goes up by one, the sum strictly rises, and the other figures stay as they were.
   */
  lemma IncSpec(g: Game, id: int)
    requires Invariant(g)
    ensures Invariant(BoardClick(g, Inc, id)) && Counted(g, BoardClick(g, Inc, id))
    ensures var i := FindIndex(g.figures, id);
      BoardClick(g, Inc, id) == g <==> i < 0 || g.figures[i].n == 0
    ensures BoardClick(g, Inc, id) != g ==>
      var i, g' := FindIndex(g.figures, id), BoardClick(g, Inc, id);
      |g'.figures| == |g.figures| && g'.nextId == g.nextId && g'.target == g.target &&
      (forall j :: 0 <= j < |g.figures| && j != i ==> g'.figures[j] == g.figures[j]) &&
      g'.figures[i].k == g.figures[i].k + 1 && g'.figures[i].id == id &&
      g'.figures[i].n == g.figures[i].n &&
      Sum(g) < Sum(g') == Sum(g) - g.figures[i].v + g'.figures[i].v
  {
    IncKeeps(g, id);
    IncEffect(g, id);
    IncSum(g, id);
  }

  /** The invariant and the click count part of `IncSpec`. */
  lemma IncKeeps(g: Game, id: int)
    requires Invariant(g)
    ensures Invariant(BoardClick(g, Inc, id)) && Counted(g, BoardClick(g, Inc, id))
    ensures var i := FindIndex(g.figures, id);
      BoardClick(g, Inc, id) == g <==> i < 0 || g.figures[i].n == 0
  {
    var i := FindIndex(g.figures, id);
    if i >= 0 && g.figures[i].n != 0 {
      var f := g.figures[i];
      var f' := f.(k := f.k + 1, v := ShiftedValue(f.n, f.k + 1));
      assert BoardClick(g, Inc, id) == g.(figures := g.figures[i := f'], clickCount := g.clickCount + 1);
      ResizeKeeps(g, i, f');
    } else {
      assert BoardClick(g, Inc, id) == g;
    }
  }

  /** The effect on the figures part of `IncSpec`. */
  lemma IncEffect(g: Game, id: int)
    requires ShiftedValuesMatch(g.figures) && forall j :: 0 <= j < |g.figures| ==> g.figures[j].n >= 0
    ensures BoardClick(g, Inc, id) != g ==>
      var i, g' := FindIndex(g.figures, id), BoardClick(g, Inc, id);
      |g'.figures| == |g.figures| && g'.nextId == g.nextId && g'.target == g.target &&
      (forall j :: 0 <= j < |g.figures| && j != i ==> g'.figures[j] == g.figures[j]) &&
      g'.figures[i].k == g.figures[i].k + 1 && g'.figures[i].id == id &&
      g'.figures[i].n == g.figures[i].n
  {
    var i := FindIndex(g.figures, id);
    if i < 0 || g.figures[i].n == 0 {
      assert BoardClick(g, Inc, id) == g;
    }
  }

  /** The effect on the sum part of `IncSpec`. */
  lemma IncSum(g: Game, id: int)
    requires ShiftedValuesMatch(g.figures) && forall j :: 0 <= j < |g.figures| ==> g.figures[j].n >= 0
    ensures BoardClick(g, Inc, id) != g ==>
      var i, g' := FindIndex(g.figures, id), BoardClick(g, Inc, id);
      Sum(g) < Sum(g') == Sum(g) - g.figures[i].v + g'.figures[i].v
  {
    var i := FindIndex(g.figures, id);
    if i >= 0 && g.figures[i].n != 0 {
      var f := g.figures[i];
      var f' := f.(k := f.k + 1, v := ShiftedValue(f.n, f.k + 1));
      assert BoardClick(g, Inc, id) == g.(figures := g.figures[i := f'], clickCount := g.clickCount + 1);
      ShiftedGrowAt(g.figures, i);
    } else {
      assert BoardClick(g, Inc, id) == g;
    }
  }

  /**
   * "–" shrinks the figure with that id exactly when it is on the board, not a Pebble and
   * of size above 1: its size goes down by one and stays at least 1, the sum strictly
   * falls, and the other figures stay as they were.
   */
  lemma DecSpec(g: Game, id: int)
    requires Invariant(g)
    ensures Invariant(BoardClick(g, Dec, id)) && Counted(g, BoardClick(g, Dec, id))
    ensures var i := FindIndex(g.figures, id);
      BoardClick(g, Dec, id) == g <==> i < 0 || g.figures[i].n == 0 || g.figures[i].k <= 1
    ensures BoardClick(g, Dec, id) != g ==>
      var i, g' := FindIndex(g.figures, id), BoardClick(g, Dec, id);
      |g'.figures| == |g.figures| && g'.nextId == g.nextId && g'.target == g.target &&
      (forall j :: 0 <= j < |g.figures| && j != i ==> g'.figures[j] == g.figures[j]) &&
      g'.figures[i].k == g.figures[i].k - 1 >= 1 && g'.figures[i].id == id &&
      g'.figures[i].n == g.figures[i].n &&
      Sum(g') == Sum(g) - g.figures[i].v + g'.figures[i].v < Sum(g)
  {
    DecKeeps(g, id);
    DecEffect(g, id);
    DecSum(g, id);
  }

  /** The invariant and the click count part of `DecSpec`. */
  lemma DecKeeps(g: Game, id: int)
    requires Invariant(g)
    ensures Invariant(BoardClick(g, Dec, id)) && Counted(g, BoardClick(g, Dec, id))
    ensures var i := FindIndex(g.figures, id);
      BoardClick(g, Dec, id) == g <==> i < 0 || g.figures[i].n == 0 || g.figures[i].k <= 1
  {
    var i := FindIndex(g.figures, id);
    if i >= 0 && g.figures[i].n != 0 && g.figures[i].k > 1 {
      var f := g.figures[i];
      var f' := f.(k := f.k - 1, v := ShiftedValue(f.n, f.k - 1));
      assert BoardClick(g, Dec, id) == g.(figures := g.figures[i := f'], clickCount := g.clickCount + 1);
      ResizeKeeps(g, i, f');
    } else {
      assert BoardClick(g, Dec, id) == g;
    }
  }

  /** The effect on the figures part of `DecSpec`. */
  lemma DecEffect(g: Game, id: int)
    requires ShiftedValuesMatch(g.figures) && forall j :: 0 <= j < |g.figures| ==> g.figures[j].n >= 0
    ensures BoardClick(g, Dec, id) != g ==>
      var i, g' := FindIndex(g.figures, id), BoardClick(g, Dec, id);
      |g'.figures| == |g.figures| && g'.nextId == g.nextId && g'.target == g.target &&
      (forall j :: 0 <= j < |g.figures| && j != i ==> g'.figures[j] == g.figures[j]) &&
      g'.figures[i].k == g.figures[i].k - 1 >= 1 && g'.figures[i].id == id &&
      g'.figures[i].n == g.figures[i].n
  {
    var i := FindIndex(g.figures, id);
    if i < 0 || g.figures[i].n == 0 || g.figures[i].k <= 1 {
      assert BoardClick(g, Dec, id) == g;
    }
  }

  /** The effect on the sum part of `DecSpec`. */
  lemma DecSum(g: Game, id: int)
    requires ShiftedValuesMatch(g.figures) && forall j :: 0 <= j < |g.figures| ==> g.figures[j].n >= 0
    ensures BoardClick(g, Dec, id) != g ==>
      var i, g' := FindIndex(g.figures, id), BoardClick(g, Dec, id);
      Sum(g') == Sum(g) - g.figures[i].v + g'.figures[i].v < Sum(g)
  {
    var i := FindIndex(g.figures, id);
    if i >= 0 && g.figures[i].n != 0 && g.figures[i].k > 1 {
      var f := g.figures[i];
      var f' := f.(k := f.k - 1, v := ShiftedValue(f.n, f.k - 1));
      assert BoardClick(g, Dec, id) == g.(figures := g.figures[i := f'], clickCount := g.clickCount + 1);
      ShiftedShrinkAt(g.figures, i);
    } else {
      assert BoardClick(g, Dec, id) == g;
    }
  }

  /**
   * "✕" splices out exactly the figure with that id, keeping the others in order, takes
   * its id and kind out of use and its value off the sum, and counts one click.
   */
  lemma RmSpec(g: Game, id: int)
    requires Invariant(g)
    ensures Invariant(BoardClick(g, Rm, id)) && Counted(g, BoardClick(g, Rm, id))
    ensures id !in Ids(g.figures) <==> BoardClick(g, Rm, id) == g
    ensures id in Ids(g.figures) ==>
      var i, g' := FindIndex(g.figures, id), BoardClick(g, Rm, id);
      0 <= i && g'.figures == RemoveAt(g.figures, i) &&
      g'.target == g.target && g'.nextId == g.nextId &&
      Ids(g'.figures) == Ids(g.figures) - {id} &&
      Kinds(g'.figures) == Kinds(g.figures) - {g.figures[i].n} &&
      Sum(g') == Sum(g) - g.figures[i].v
  {
    RmKeeps(g, id);
    RmEffect(g, id);
  }

  /** The invariant and the click count part of `RmSpec`. */
  lemma RmKeeps(g: Game, id: int)
    requires Invariant(g)
    ensures Invariant(BoardClick(g, Rm, id)) && Counted(g, BoardClick(g, Rm, id))
    ensures id !in Ids(g.figures) <==> BoardClick(g, Rm, id) == g
  {
    var i := FindIndex(g.figures, id);
    if i >= 0 {
      var figs := RemoveAt(g.figures, i);
      assert BoardClick(g, Rm, id) == g.(figures := figs, clickCount := g.clickCount + 1);
      RemoveWellFormed(g.figures, g.nextId, i);
      RemoveShiftedValuesMatch(g.figures, i);
      assert |figs| < |g.figures|;
    } else {
      assert BoardClick(g, Rm, id) == g;
    }
  }

  /** The effect on the figures, ids, kinds and sum part of `RmSpec`. */
  lemma RmEffect(g: Game, id: int)
    requires Invariant(g)
    ensures id in Ids(g.figures) ==>
      var i, g' := FindIndex(g.figures, id), BoardClick(g, Rm, id);
      0 <= i && g'.figures == RemoveAt(g.figures, i) &&
      g'.target == g.target && g'.nextId == g.nextId &&
      Ids(g'.figures) == Ids(g.figures) - {id} &&
      Kinds(g'.figures) == Kinds(g.figures) - {g.figures[i].n} &&
      Sum(g') == Sum(g) - g.figures[i].v
  {
    var i := FindIndex(g.figures, id);
    if i >= 0 {
      assert BoardClick(g, Rm, id) == g.(figures := RemoveAt(g.figures, i), clickCount := g.clickCount + 1);
      RemoveIdsKinds(g.figures, g.nextId, i);
      TotalRemoveAt(g.figures, i);
    }
  }

  /** "+" then "–" on the same non-Pebble figure restores every figure exactly; only two clicks are added. */
  lemma IncThenDec(g: Game, id: int)
    requires ShiftedValuesMatch(g.figures) && id in Ids(g.figures)
    requires g.figures[FindIndex(g.figures, id)].n != 0
    ensures BoardClick(BoardClick(g, Inc, id), Dec, id) == g.(clickCount := g.clickCount + 2)
  {
    var i := FindIndex(g.figures, id);
    var f := g.figures[i];
    var f1 := f.(k := f.k + 1, v := ShiftedValue(f.n, f.k + 1));
    var g' := g.(figures := g.figures[i := f1], clickCount := g.clickCount + 1);
    assert BoardClick(g, Inc, id) == g';
    FindIndexReplace(g.figures, i, f1, id);
    assert f1.(k := f1.k - 1, v := ShiftedValue(f1.n, f1.k - 1)) == f;
    assert BoardClick(g', Dec, id) == g'.(figures := g'.figures[i := f], clickCount := g'.clickCount + 1);
    assert g'.figures[i := f] == g.figures;
  }

  /** A worked game: with target 3 a single triangle, just placed, already wins. */
  lemma FreshTriangleWinsThree()
    ensures var g := WithShape(SetTarget(Start, 3), 1);
      g.figures == [Figure(1, 1, 1, 3)] && Won(g) && g.clickCount == 1
  {
    var g := WithShape(SetTarget(Start, 3), 1);
    assert g.figures == [Figure(1, 1, 1, 3)];
    assert g.figures[..0] == [];
    assert Total(g.figures) == Total(g.figures[..0]) + 3;
  }

  /** The variables of FigurativePartitions.ts, updated in place by its event handlers. */
  class Board {
    var target: int
    var figures: seq<Figure>
    var nextId: int
    var clickCount: int

    function State(): Game
      reads this
    {
      Game(target, figures, nextId, clickCount)
    }

    ghost predicate Valid()
      reads this
    {
      Invariant(State())
    }

    constructor ()
      ensures Valid() && State() == Start
    {
      target, figures, nextId, clickCount := 27, [], 1, 0;
    }

    /** getUsedShapes: the kinds on the board, collected figure by figure. */
    method UsedShapes() returns (used: set<int>)
      ensures used == Kinds(figures)
    {
      used := {};
      for i := 0 to |figures|
        invariant used == Kinds(figures[..i])
      {
        assert figures[..i + 1] == figures[..i] + [figures[i]];
        KindsConcat(figures[..i], [figures[i]]);
        KindsIdsSingleton(figures[i]);
        used := used + {figures[i].n};
      }
      assert figures[..|figures|] == figures;
    }

    method SetTargetClick(v: int)
      requires Valid()
      modifies this
      ensures Valid() && State() == SetTarget(old(State()), v)
    {
      SetTargetSpec(State(), v);
      if v > 0 {
        target := v;
        figures := [];
        nextId := 1;
        clickCount := 0;
      }
    }

    method AddShape(n: int)
      requires Valid() && 0 <= n <= 6
      modifies this
      ensures Valid() && State() == WithShape(old(State()), n)
    {
      ghost var g := State();
      var used := UsedShapes();
      if n in used {
        return;
      }
      AppendKeeps(g, Figure(nextId, n, 1, ShiftedValue(n, 1)));
      figures := figures + [Figure(nextId, n, 1, ShiftedValue(n, 1))];
      nextId := nextId + 1;
      clickCount := clickCount + 1;
      assert State() == WithShape(g, n);
    }

    method OnBoardClick(action: Action, id: int)
      requires Valid()
      modifies this
      ensures Valid() && State() == BoardClick(old(State()), action, id)
    {
      ghost var g := State();
      BoardClickSpec(g, action, id);
      var idx := FindIndex(figures, id);
      if idx < 0 {
        return;
      }
      var fig := figures[idx];
      if action == Inc && fig.n != 0 {
        var k := fig.k + 1;
        figures := figures[idx := fig.(k := k, v := ShiftedValue(fig.n, k))];
        clickCount := clickCount + 1;
        assert State() == BoardClick(g, action, id);
      } else if action == Dec && fig.n != 0 && fig.k > 1 {
        var k := fig.k - 1;
        figures := figures[idx := fig.(k := k, v := ShiftedValue(fig.n, k))];
        clickCount := clickCount + 1;
        assert State() == BoardClick(g, action, id);
      } else if action == Rm {
        figures := figures[..idx] + figures[idx + 1..];
        clickCount := clickCount + 1;
        assert State() == BoardClick(g, action, id);
      } else {
        assert State() == BoardClick(g, action, id);
      }
    }

    /** The sum and the win test of render, accumulated over the figures in board order. */
    method Render() returns (sum: int, won: bool)
      ensures sum == Total(figures) && won == (sum == target)
    {
      sum := 0;
      var i := 0;
      while i < |figures|
        invariant 0 <= i <= |figures|
        invariant sum == Total(figures[..i])
      {
        assert figures[..i + 1][..i] == figures[..i];
        sum := sum + figures[i].v;
        i := i + 1;
      }
      assert figures[..|figures|] == figures;
      won := sum == target;
    }
  }
}
