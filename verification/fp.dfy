/**
 * FP.js: the variant of the game with an active figure. Clicking a figure on the board
 * selects it; the global Add, Adjust and Remove buttons then act on the selected figure.
 *
 * `Game` is the module-level state of FP.js; one transition function per event handler
 * gives the new state, and the lemmas beside each state what that handler guarantees and
 * that it keeps `Invariant`. `Board` holds the same state in mutable fields and its
 * methods carry out the handlers step by step, each proved to reach the state its
 * transition function gives.
 */
module FP {
  import opened Figurate
  import opened Figures

  /** target, figures, nextId, clickCount and activeId of FP.js. */
  datatype Game = Game(target: int, figures: seq<Figure>, nextId: int, clickCount: int, activeId: Option<int>)

  /** The state FP.js starts from. */
  const Start := Game(27, [], 1, 0, None)

  /**
   * What every handler keeps: a positive target, a well-formed list whose values are
   * `Value` of kind and size, at most clickCount ids handed out since the last reset,
   * and an active id that is absent or names a figure on the board.
   */
  ghost predicate Invariant(g: Game)
  {
    g.target >= 1 && WellFormed(g.figures, g.nextId) && ValuesMatch(g.figures) &&
    g.nextId <= g.clickCount + 1 &&
    (g.activeId.Some? ==> g.activeId.value in Ids(g.figures))
  }

  /** A handler counts a click exactly when it changes the list of figures. */
  ghost predicate Counted(g: Game, g': Game)
  {
    g'.clickCount == g.clickCount + (if g'.figures == g.figures then 0 else 1)
  }

  /** The sum shown under the board. */
  function Sum(g: Game): int
  {
    Total(g.figures)
  }

  /** Whether the win message is shown. */
  predicate Won(g: Game)
  {
    Sum(g) == g.target
  }

  /** Set-target button: a positive target clears the board and the counters. */
  function SetTarget(g: Game, v: int): Game
  {
    if v > 0 then Game(v, [], 1, 0, None) else g
  }

  /**
   * Palette button of kind n. The button of a kind already on the board is disabled, so
   * that click does nothing; otherwise a figure of size 1 is appended and selected.
   */
  function PaletteAdd(g: Game, n: int): Game
    requires 0 <= n <= 6
  {
    if n in Kinds(g.figures) then g
    else
      g.(figures := g.figures + [Figure(g.nextId, n, 1, Value(n, 1))],
         nextId := g.nextId + 1,
         clickCount := g.clickCount + 1,
         activeId := Some(g.nextId))
  }

  /** Click on the figure drawn at position pos of the board: it becomes the active one. */
  function Select(g: Game, pos: int): Game
    requires 0 <= pos < |g.figures|
  {
    g.(activeId := Some(g.figures[pos].id))
  }

  /** Position of the active figure, or -1 when there is none. */
  function ActiveIndex(g: Game): int
  {
    if g.activeId.None? then -1 else FindIndex(g.figures, g.activeId.value)
  }

  /** Add button: the active figure, unless it is a Pebble, grows by one. */
  function Grow(g: Game): Game
  {
    var i := ActiveIndex(g);
    if i < 0 || g.figures[i].n == 0 then g
    else
      var f := g.figures[i];
      g.(figures := g.figures[i := f.(k := f.k + 1, v := Value(f.n, f.k + 1))],
         clickCount := g.clickCount + 1)
  }

  /** Adjust button: the active figure, unless it is a Pebble or of size 1, shrinks by one. */
  function Shrink(g: Game): Game
  {
    var i := ActiveIndex(g);
    if i < 0 || g.figures[i].n == 0 || g.figures[i].k <= 1 then g
    else
      var f := g.figures[i];
      g.(figures := g.figures[i := f.(k := f.k - 1, v := Value(f.n, f.k - 1))],
         clickCount := g.clickCount + 1)
  }

  /** Remove button: the active figure leaves the board and nothing is active any more. */
  function Remove(g: Game): Game
  {
    var i := ActiveIndex(g);
    if i < 0 then g
    else g.(figures := RemoveAt(g.figures, i), clickCount := g.clickCount + 1, activeId := None)
  }

  lemma StartInvariant()
    ensures Invariant(Start) && Sum(Start) == 0 && !Won(Start)
  {
  }

  /** A positive target empties the board, so the game is not yet won; any other input changes nothing. */
  lemma SetTargetSpec(g: Game, v: int)
    requires Invariant(g)
    ensures Invariant(SetTarget(g, v))
    ensures v > 0 ==> SetTarget(g, v).target == v && SetTarget(g, v).figures == []
    ensures v > 0 ==> SetTarget(g, v).nextId == 1 && SetTarget(g, v).clickCount == 0
    ensures v > 0 ==> SetTarget(g, v).activeId.None?
    ensures v > 0 ==> Sum(SetTarget(g, v)) == 0 && !Won(SetTarget(g, v))
    ensures v <= 0 ==> SetTarget(g, v) == g
  {
  }

  /**
   * A palette click appends exactly one figure of size 1 and value 1 with id nextId,
   * leaves the earlier figures as they were, selects the new figure and counts one
   * click; on a kind already present it changes nothing.
   */
  lemma PaletteAddSpec(g: Game, n: int)
    requires Invariant(g) && 0 <= n <= 6
    ensures Invariant(PaletteAdd(g, n)) && Counted(g, PaletteAdd(g, n))
    ensures n in Kinds(g.figures) ==> PaletteAdd(g, n) == g
    ensures n !in Kinds(g.figures) ==>
      var g' := PaletteAdd(g, n);
      |g'.figures| == |g.figures| + 1 && g'.figures[..|g.figures|] == g.figures &&
      g'.figures[|g.figures|] == Figure(g.nextId, n, 1, 1) &&
      g'.nextId == g.nextId + 1 && g'.activeId == Some(g.nextId) && g'.target == g.target &&
      Kinds(g'.figures) == Kinds(g.figures) + {n} && Sum(g') == Sum(g) + 1
  {
    if n !in Kinds(g.figures) {
      var f := Figure(g.nextId, n, 1, Value(n, 1));
      AppendKeeps(g, f);
      KindsConcat(g.figures, [f]);
      KindsIdsSingleton(f);
      assert (g.figures + [f])[..|g.figures|] == g.figures;
    }
  }

  /** Selecting a figure keeps the board and the counters and makes that figure the active one. */
  lemma SelectSpec(g: Game, pos: int)
    requires Invariant(g) && 0 <= pos < |g.figures|
    ensures Invariant(Select(g, pos)) && Counted(g, Select(g, pos))
    ensures Select(g, pos).figures == g.figures && Select(g, pos).target == g.target
    ensures Select(g, pos).nextId == g.nextId && Select(g, pos).clickCount == g.clickCount
    ensures ActiveIndex(Select(g, pos)) == pos
  {
    FindIndexOfId(g.figures, g.nextId, pos);
  }

  /**
   * Add grows the active figure exactly when it is not a Pebble: its size goes up by one,
   * its value is recomputed, so the sum rises by the growth of that value, and nothing else on the board
   * changes. Otherwise the state is untouched.
   */
  lemma GrowSpec(g: Game)
    requires Invariant(g)
    ensures Invariant(Grow(g)) && Counted(g, Grow(g))
    ensures Grow(g) == g <==> ActiveIndex(g) < 0 || g.figures[ActiveIndex(g)].n == 0
    ensures Grow(g) != g ==>
      var i, g' := ActiveIndex(g), Grow(g);
      |g'.figures| == |g.figures| && g'.activeId == g.activeId &&
      g'.target == g.target && g'.nextId == g.nextId &&
      (forall j :: 0 <= j < |g.figures| && j != i ==> g'.figures[j] == g.figures[j]) &&
      g'.figures[i].k == g.figures[i].k + 1 && g'.figures[i].id == g.figures[i].id &&
      g'.figures[i].n == g.figures[i].n &&
      Sum(g) < Sum(g') == Sum(g) - g.figures[i].v + g'.figures[i].v
  {
    GrowKeeps(g);
    GrowEffect(g);
    GrowSum(g);
  }

  /** The invariant and the click count part of `GrowSpec`. */
  lemma GrowKeeps(g: Game)
    requires Invariant(g)
    ensures Invariant(Grow(g)) && Counted(g, Grow(g))
    ensures Grow(g) == g <==> ActiveIndex(g) < 0 || g.figures[ActiveIndex(g)].n == 0
  {
    var i := ActiveIndex(g);
    if i >= 0 && g.figures[i].n != 0 {
      var f := g.figures[i];
      var f' := f.(k := f.k + 1, v := Value(f.n, f.k + 1));
      assert Grow(g) == g.(figures := g.figures[i := f'], clickCount := g.clickCount + 1);
      ResizeKeeps(g, i, f');
    } else {
      assert Grow(g) == g;
    }
  }

  /** The effect on the figures part of `GrowSpec`. */
  lemma GrowEffect(g: Game)
    requires ValuesMatch(g.figures) && forall j :: 0 <= j < |g.figures| ==> g.figures[j].n >= 0
    ensures Grow(g) != g ==>
      var i, g' := ActiveIndex(g), Grow(g);
      |g'.figures| == |g.figures| && g'.activeId == g.activeId &&
      g'.target == g.target && g'.nextId == g.nextId &&
      (forall j :: 0 <= j < |g.figures| && j != i ==> g'.figures[j] == g.figures[j]) &&
      g'.figures[i].k == g.figures[i].k + 1 && g'.figures[i].id == g.figures[i].id &&
      g'.figures[i].n == g.figures[i].n
  {
    var i := ActiveIndex(g);
    if !(i >= 0 && g.figures[i].n != 0) {
      assert Grow(g) == g;
    }
  }

  /** The effect on the sum part of `GrowSpec`. */
  lemma GrowSum(g: Game)
    requires ValuesMatch(g.figures) && forall j :: 0 <= j < |g.figures| ==> g.figures[j].n >= 0
    ensures Grow(g) != g ==>
      var i, g' := ActiveIndex(g), Grow(g);
      Sum(g) < Sum(g') == Sum(g) - g.figures[i].v + g'.figures[i].v
  {
    var i := ActiveIndex(g);
    if i >= 0 && g.figures[i].n != 0 {
      var f := g.figures[i];
      var f' := f.(k := f.k + 1, v := Value(f.n, f.k + 1));
      assert Grow(g) == g.(figures := g.figures[i := f'], clickCount := g.clickCount + 1);
      GrowAt(g.figures, i);
    } else {
      assert Grow(g) == g;
    }
  }

  /**
   * Appending a figure of an unused kind with id nextId and a matching value, moving
   * nextId on, counting one click and making the new figure the active one
   * keeps the invariant.
   */
  lemma AppendKeeps(g: Game, f: Figure)
    requires Invariant(g) && f.id == g.nextId && 0 <= f.n <= 6 && f.n !in Kinds(g.figures)
    requires f.k >= 1 && f.v == Value(f.n, f.k)
    ensures Invariant(g.(figures := g.figures + [f], nextId := g.nextId + 1,
                         clickCount := g.clickCount + 1, activeId := Some(g.nextId)))
  {
    AppendWellFormed(g.figures, g.nextId, f);
    AppendValuesMatch(g.figures, f);
  }

  /**
   * Replacing the figure at position i by one of the same id and kind, a size of at least
   * 1 and the matching value, keeps the invariant and changes the list.
   */
  lemma ResizeKeeps(g: Game, i: int, f': Figure)
    requires Invariant(g) && 0 <= i < |g.figures|
    requires f'.id == g.figures[i].id && f'.n == g.figures[i].n && f'.k != g.figures[i].k
    requires f'.k >= 1 && f'.v == Value(f'.n, f'.k)
    ensures Invariant(g.(figures := g.figures[i := f'], clickCount := g.clickCount + 1))
    ensures g.figures[i := f'] != g.figures
  {
    ReplaceWellFormed(g.figures, g.nextId, i, f');
    assert g.figures[i := f'][i] != g.figures[i];
  }

  /**
   * Adjust shrinks the active figure exactly when it is not a Pebble and its size exceeds
   * 1: its size goes down by one (so it stays at least 1), the sum falls by the drop of its value,
   * and nothing else on the board changes. Otherwise the state is untouched.
   */
  lemma ShrinkSpec(g: Game)
    requires Invariant(g)
    ensures Invariant(Shrink(g)) && Counted(g, Shrink(g))
    ensures Shrink(g) == g <==>
      ActiveIndex(g) < 0 || g.figures[ActiveIndex(g)].n == 0 || g.figures[ActiveIndex(g)].k <= 1
    ensures Shrink(g) != g ==>
      var i, g' := ActiveIndex(g), Shrink(g);
      |g'.figures| == |g.figures| && g'.activeId == g.activeId &&
      g'.target == g.target && g'.nextId == g.nextId &&
      (forall j :: 0 <= j < |g.figures| && j != i ==> g'.figures[j] == g.figures[j]) &&
      g'.figures[i].k == g.figures[i].k - 1 >= 1 && g'.figures[i].id == g.figures[i].id &&
      g'.figures[i].n == g.figures[i].n &&
      Sum(g') == Sum(g) - g.figures[i].v + g'.figures[i].v < Sum(g)
  {
    ShrinkKeeps(g);
    ShrinkEffect(g);
    ShrinkSum(g);
  }

  /** The invariant and the click count part of `ShrinkSpec`. */
  lemma ShrinkKeeps(g: Game)
    requires Invariant(g)
    ensures Invariant(Shrink(g)) && Counted(g, Shrink(g))
    ensures Shrink(g) == g <==>
      ActiveIndex(g) < 0 || g.figures[ActiveIndex(g)].n == 0 || g.figures[ActiveIndex(g)].k <= 1
  {
    var i := ActiveIndex(g);
    if i >= 0 && g.figures[i].n != 0 && g.figures[i].k > 1 {
      var f := g.figures[i];
      var f' := f.(k := f.k - 1, v := Value(f.n, f.k - 1));
      assert Shrink(g) == g.(figures := g.figures[i := f'], clickCount := g.clickCount + 1);
      ResizeKeeps(g, i, f');
    } else {
      assert Shrink(g) == g;
    }
  }

  /** The effect on the figures part of `ShrinkSpec`. */
  lemma ShrinkEffect(g: Game)
    requires ValuesMatch(g.figures) && forall j :: 0 <= j < |g.figures| ==> g.figures[j].n >= 0
    ensures Shrink(g) != g ==>
      var i, g' := ActiveIndex(g), Shrink(g);
      |g'.figures| == |g.figures| && g'.activeId == g.activeId &&
      g'.target == g.target && g'.nextId == g.nextId &&
      (forall j :: 0 <= j < |g.figures| && j != i ==> g'.figures[j] == g.figures[j]) &&
      g'.figures[i].k == g.figures[i].k - 1 >= 1 && g'.figures[i].id == g.figures[i].id &&
      g'.figures[i].n == g.figures[i].n
  {
    var i := ActiveIndex(g);
    if !(i >= 0 && g.figures[i].n != 0 && g.figures[i].k > 1) {
      assert Shrink(g) == g;
    }
  }

  /** The effect on the sum part of `ShrinkSpec`. */
  lemma ShrinkSum(g: Game)
    requires ValuesMatch(g.figures) && forall j :: 0 <= j < |g.figures| ==> g.figures[j].n >= 0
    ensures Shrink(g) != g ==>
      var i, g' := ActiveIndex(g), Shrink(g);
      Sum(g') == Sum(g) - g.figures[i].v + g'.figures[i].v < Sum(g)
  {
    var i := ActiveIndex(g);
    if i >= 0 && g.figures[i].n != 0 && g.figures[i].k > 1 {
      var f := g.figures[i];
      var f' := f.(k := f.k - 1, v := Value(f.n, f.k - 1));
      assert Shrink(g) == g.(figures := g.figures[i := f'], clickCount := g.clickCount + 1);
      ShrinkAt(g.figures, i);
    } else {
      assert Shrink(g) == g;
    }
  }

  /**
   * Remove takes exactly the active figure off the board, keeping the others in order,
   * takes its id and kind out of use and its value off the sum, clears the selection and
   * counts one click. Without an active figure it changes nothing.
   */
  lemma RemoveSpec(g: Game)
    requires Invariant(g)
    ensures Invariant(Remove(g)) && Counted(g, Remove(g))
    ensures g.activeId.None? <==> Remove(g) == g
    ensures g.activeId.Some? ==>
      var i, g' := ActiveIndex(g), Remove(g);
      0 <= i && g'.figures == RemoveAt(g.figures, i) && g'.activeId.None? &&
      g'.target == g.target && g'.nextId == g.nextId &&
      Ids(g'.figures) == Ids(g.figures) - {g.activeId.value} &&
      Kinds(g'.figures) == Kinds(g.figures) - {g.figures[i].n} &&
      Sum(g') == Sum(g) - g.figures[i].v
  {
    RemoveKeeps(g);
    RemoveEffect(g);
  }

  /** The invariant and the click count part of `RemoveSpec`. */
  lemma RemoveKeeps(g: Game)
    requires Invariant(g)
    ensures Invariant(Remove(g)) && Counted(g, Remove(g))
    ensures g.activeId.None? <==> Remove(g) == g
  {
    var i := ActiveIndex(g);
    if i >= 0 {
      var figs := RemoveAt(g.figures, i);
      assert Remove(g) == g.(figures := figs, clickCount := g.clickCount + 1, activeId := None);
      RemoveWellFormed(g.figures, g.nextId, i);
      RemoveValuesMatch(g.figures, i);
      assert |figs| < |g.figures|;
    } else {
      assert Remove(g) == g;
    }
  }

  /** The effect on the figures, ids, kinds and sum part of `RemoveSpec`. */
  lemma RemoveEffect(g: Game)
    requires Invariant(g)
    ensures g.activeId.Some? ==>
      var i, g' := ActiveIndex(g), Remove(g);
      0 <= i && g'.figures == RemoveAt(g.figures, i) && g'.activeId.None? &&
      g'.target == g.target && g'.nextId == g.nextId &&
      Ids(g'.figures) == Ids(g.figures) - {g.activeId.value} &&
      Kinds(g'.figures) == Kinds(g.figures) - {g.figures[i].n} &&
      Sum(g') == Sum(g) - g.figures[i].v
  {
    var i := ActiveIndex(g);
    if i >= 0 {
      assert Remove(g) == g.(figures := RemoveAt(g.figures, i), clickCount := g.clickCount + 1, activeId := None);
      RemoveIdsKinds(g.figures, g.nextId, i);
      TotalRemoveAt(g.figures, i);
    }
  }

  /** Add followed by Adjust on a non-Pebble figure restores every figure exactly; only two clicks are added. */
  lemma GrowThenShrink(g: Game)
    requires Invariant(g) && ActiveIndex(g) >= 0 && g.figures[ActiveIndex(g)].n != 0
    ensures Shrink(Grow(g)) == g.(clickCount := g.clickCount + 2)
  {
    var i := ActiveIndex(g);
    var f := g.figures[i];
    assert Grow(g).figures[i] == f.(k := f.k + 1, v := Value(f.n, f.k + 1));
    assert ActiveIndex(Grow(g)) == i by {
      FindIndexOfId(g.figures, g.nextId, i);
      GrowSpec(g);
      FindIndexOfId(Grow(g).figures, g.nextId, i);
    }
    assert Grow(g).figures[i := f] == g.figures;
  }

  /** The variables of FP.js, updated in place by its event handlers. */
  class Board {
    var target: int
    var figures: seq<Figure>
    var nextId: int
    var clickCount: int
    var activeId: Option<int>

    function State(): Game
      reads this
    {
      Game(target, figures, nextId, clickCount, activeId)
    }

    ghost predicate Valid()
      reads this
    {
      Invariant(State())
    }

    constructor ()
      ensures Valid() && State() == Start
    {
      target, figures, nextId, clickCount, activeId := 27, [], 1, 0, None;
    }

    method ClickSetTarget(v: int)
      requires Valid()
      modifies this
      ensures Valid() && State() == SetTarget(old(State()), v)
    {
      SetTargetSpec(State(), v);
      if v > 0 {
        target := v;
        figures := [];
        nextId := 1;
        clickCount := 0;
        activeId := None;
      }
    }

    method ClickPalette(n: int)
      requires Valid() && 0 <= n <= 6
      modifies this
      ensures Valid() && State() == PaletteAdd(old(State()), n)
    {
      ghost var g := State();
      if n in Kinds(figures) {
        return;
      }
      AppendKeeps(g, Figure(nextId, n, 1, Value(n, 1)));
      figures := figures + [Figure(nextId, n, 1, Value(n, 1))];
      nextId := nextId + 1;
      clickCount := clickCount + 1;
      activeId := Some(nextId - 1);
      assert State() == PaletteAdd(g, n);
    }

    method ClickFigure(pos: int)
      requires Valid() && 0 <= pos < |figures|
      modifies this
      ensures Valid() && State() == Select(old(State()), pos)
    {
      SelectSpec(State(), pos);
      activeId := Some(figures[pos].id);
    }

    method ClickAdd()
      requires Valid()
      modifies this
      ensures Valid() && State() == Grow(old(State()))
    {
      ghost var g := State();
      GrowKeeps(g);
      if activeId.None? {
        return;
      }
      var i := FindIndex(figures, activeId.value);
      if i < 0 {
        return;
      }
      var fig := figures[i];
      if fig.n != 0 {
        var k := fig.k + 1;
        figures := figures[i := fig.(k := k, v := Value(fig.n, k))];
        clickCount := clickCount + 1;
      }
      assert State() == Grow(g);
    }

    method ClickAdjust()
      requires Valid()
      modifies this
      ensures Valid() && State() == Shrink(old(State()))
    {
      ghost var g := State();
      ShrinkKeeps(g);
      if activeId.None? {
        return;
      }
      var i := FindIndex(figures, activeId.value);
      if i < 0 {
        return;
      }
      var fig := figures[i];
      if fig.n != 0 && fig.k > 1 {
        var k := fig.k - 1;
        figures := figures[i := fig.(k := k, v := Value(fig.n, k))];
        clickCount := clickCount + 1;
      }
      assert State() == Shrink(g);
    }

    method ClickRemove()
      requires Valid()
      modifies this
      ensures Valid() && State() == Remove(old(State()))
    {
      ghost var g := State();
      RemoveKeeps(g);
      if activeId.None? {
        return;
      }
      var idx := FindIndex(figures, activeId.value);
      if idx >= 0 {
        figures := figures[..idx] + figures[idx + 1..];
        clickCount := clickCount + 1;
        activeId := None;
      }
      assert State() == Remove(g);
    }

    /** The sum and the win test of renderBoard, accumulated over the figures in board order. */
    method RenderBoard() returns (sum: int, won: bool)
      ensures sum == Total(figures) && won == (sum == target)
    {
      sum := 0;
      var i := 0;
      while i < |figures|
        invariant 0 <= i <= |figures|
        invariant sum == Total(figures[..i])
      {
        assert figures[..i + 1][..i] == figures[..i];
        sum := sum + figures[i].v;
        i := i + 1;
      }
      assert figures[..|figures|] == figures;
      won := sum == target;
    }
  }
}
