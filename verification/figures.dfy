/**
 * The figures on the board, shared by the three variants of the game (FP.js,
 * FigurativePartitions.js and FigurativePartitions.ts): the `Figure` record, the
 * queries the handlers and the renderer make of the ordered list of figures (which
 * kinds are used, which ids are present, where an id sits, the sum of the values), and
 * the shape every variant keeps that list in.
 */
module Figures {
  import opened Figurate

  datatype Option<T> = None | Some(value: T)

  /** One figure on the board: its id, its kind n (0 = Pebble), its size k and its cached value v. */
  datatype Figure = Figure(id: int, n: int, k: int, v: int)

  /** The kinds present on the board (getUsedShapes). */
  function Kinds(figs: seq<Figure>): set<int>
  {
    set i | 0 <= i < |figs| :: figs[i].n
  }

  /** The ids present on the board. */
  function Ids(figs: seq<Figure>): set<int>
  {
    set i | 0 <= i < |figs| :: figs[i].id
  }

  /** The sum of the values of the figures, accumulated front to back as the renderer does. */
  function Total(figs: seq<Figure>): int
  {
    if figs == [] then 0 else Total(figs[..|figs| - 1]) + figs[|figs| - 1].v
  }

  /** `figures.findIndex(f => f.id === id)`: the first position holding `id`, or -1. */
  function FindIndex(figs: seq<Figure>, id: int): (r: int)
    ensures -1 <= r < |figs|
    ensures 0 <= r ==> figs[r].id == id && forall j :: 0 <= j < r ==> figs[j].id != id
    ensures r < 0 <==> id !in Ids(figs)
  {
    if figs == [] then -1
    else if figs[0].id == id then 0
    else
      var r := FindIndex(figs[1..], id);
      if r < 0 then -1 else r + 1
  }

  /** `figures.splice(i, 1)`: the list without position i, the others in their old order. */
  function RemoveAt(figs: seq<Figure>, i: int): (r: seq<Figure>)
    requires 0 <= i < |figs|
    ensures |r| == |figs| - 1
    ensures forall j {:trigger r[j]} :: 0 <= j < i ==> r[j] == figs[j]
    ensures forall j {:trigger r[j]} :: i <= j < |r| ==> r[j] == figs[j + 1]
  {
    figs[..i] + figs[i + 1..]
  }

  /** Every size is at least 1 and every cached value is `Value` of its kind and size. */
  ghost predicate ValuesMatch(figs: seq<Figure>)
  {
    forall i :: 0 <= i < |figs| ==> figs[i].k >= 1 && figs[i].v == Value(figs[i].n, figs[i].k)
  }

  /** Every size is at least 1 and every cached value is `ShiftedValue` of its kind and size. */
  ghost predicate ShiftedValuesMatch(figs: seq<Figure>)
  {
    forall i :: 0 <= i < |figs| ==> figs[i].k >= 1 && figs[i].v == ShiftedValue(figs[i].n, figs[i].k)
  }

  /**
   * The shape every variant keeps its list in: ids strictly increase along the list and lie
   * in [1, nextId), every kind is one of the palette's kinds 0 to 6 and none occurs twice,
   * and there are fewer figures than nextId.
   */
  ghost predicate WellFormed(figs: seq<Figure>, nextId: int)
  {
    (forall i, j :: 0 <= i < j < |figs| ==> figs[i].id < figs[j].id) &&
    (forall i :: 0 <= i < |figs| ==> 1 <= figs[i].id < nextId && 0 <= figs[i].n <= 6) &&
    (forall i, j :: 0 <= i < j < |figs| ==> figs[i].n != figs[j].n) &&
    |figs| < nextId
  }

  lemma {:induction false} TotalConcat(a: seq<Figure>, b: seq<Figure>)
    ensures Total(a + b) == Total(a) + Total(b)
    decreases |b|
  {
    if b == [] {
      assert a + b == a;
    } else {
      var b' := b[..|b| - 1];
      assert (a + b)[..|a + b| - 1] == a + b';
      TotalConcat(a, b');
    }
  }

  /** A list is its part before position i, the figure at i and its part after i. */
  lemma SplitAt(figs: seq<Figure>, i: int)
    requires 0 <= i < |figs|
    ensures figs == figs[..i] + [figs[i]] + figs[i + 1..]
  {
  }

  /** The sum of a list split around position i, with figure f in the middle. */
  lemma TotalSplit(pre: seq<Figure>, f: Figure, post: seq<Figure>)
    ensures Total(pre + [f] + post) == Total(pre) + f.v + Total(post)
  {
    TotalConcat(pre + [f], post);
    TotalConcat(pre, [f]);
    assert [f][..0] == [];
  }

  /** Splicing out position i takes exactly that figure's value off the sum. */
  lemma TotalRemoveAt(figs: seq<Figure>, i: int)
    requires 0 <= i < |figs|
    ensures Total(RemoveAt(figs, i)) == Total(figs) - figs[i].v
  {
    SplitAt(figs, i);
    TotalSplit(figs[..i], figs[i], figs[i + 1..]);
    TotalConcat(figs[..i], figs[i + 1..]);
  }

  /** Replacing the figure at position i changes the sum by the difference of the two values. */
  lemma TotalReplace(figs: seq<Figure>, i: int, f: Figure)
    requires 0 <= i < |figs|
    ensures Total(figs[i := f]) == Total(figs) - figs[i].v + f.v
  {
    var pre, post := figs[..i], figs[i + 1..];
    assert figs == pre + [figs[i]] + post;
    assert figs[i := f] == pre + [f] + post;
    TotalSplit(pre, figs[i], post);
    TotalSplit(pre, f, post);
  }

  /** Growing a non-Pebble figure in place by one strictly raises the sum by the growth of its value. */
  lemma GrowAt(figs: seq<Figure>, i: int)
    requires ValuesMatch(figs) && 0 <= i < |figs| && 1 <= figs[i].n
    ensures var f := figs[i]; var f' := f.(k := f.k + 1, v := Value(f.n, f.k + 1));
      Total(figs) < Total(figs[i := f']) == Total(figs) - f.v + f'.v
  {
    var f := figs[i];
    TotalReplace(figs, i, f.(k := f.k + 1, v := Value(f.n, f.k + 1)));
    ValueStrictlyIncreasing(f.n, f.k, f.k + 1);
  }

  /** Shrinking a non-Pebble figure of size above 1 in place strictly lowers the sum by the drop of its value. */
  lemma ShrinkAt(figs: seq<Figure>, i: int)
    requires ValuesMatch(figs) && 0 <= i < |figs| && 1 <= figs[i].n && 1 < figs[i].k
    ensures var f := figs[i]; var f' := f.(k := f.k - 1, v := Value(f.n, f.k - 1));
      Total(figs[i := f']) == Total(figs) - f.v + f'.v < Total(figs)
  {
    var f := figs[i];
    TotalReplace(figs, i, f.(k := f.k - 1, v := Value(f.n, f.k - 1)));
    ValueStrictlyIncreasing(f.n, f.k - 1, f.k);
  }

  /** `GrowAt` for values computed by `ShiftedValue`. */
  lemma ShiftedGrowAt(figs: seq<Figure>, i: int)
    requires ShiftedValuesMatch(figs) && 0 <= i < |figs| && 1 <= figs[i].n
    ensures var f := figs[i]; var f' := f.(k := f.k + 1, v := ShiftedValue(f.n, f.k + 1));
      Total(figs) < Total(figs[i := f']) == Total(figs) - f.v + f'.v
  {
    var f := figs[i];
    TotalReplace(figs, i, f.(k := f.k + 1, v := ShiftedValue(f.n, f.k + 1)));
    ShiftedValueStrictlyIncreasing(f.n, f.k, f.k + 1);
  }

  /** `ShrinkAt` for values computed by `ShiftedValue`. */
  lemma ShiftedShrinkAt(figs: seq<Figure>, i: int)
    requires ShiftedValuesMatch(figs) && 0 <= i < |figs| && 1 <= figs[i].n && 1 < figs[i].k
    ensures var f := figs[i]; var f' := f.(k := f.k - 1, v := ShiftedValue(f.n, f.k - 1));
      Total(figs[i := f']) == Total(figs) - f.v + f'.v < Total(figs)
  {
    var f := figs[i];
    TotalReplace(figs, i, f.(k := f.k - 1, v := ShiftedValue(f.n, f.k - 1)));
    ShiftedValueStrictlyIncreasing(f.n, f.k - 1, f.k);
  }

  /** Replacing a figure in place by one with the same id does not move any id's position. */
  lemma {:induction false} FindIndexReplace(figs: seq<Figure>, i: int, f: Figure, id: int)
    requires 0 <= i < |figs| && f.id == figs[i].id
    ensures FindIndex(figs[i := f], id) == FindIndex(figs, id)
  {
    assert figs[i := f][0].id == figs[0].id;
    if i == 0 {
      assert figs[i := f][1..] == figs[1..];
    } else {
      assert figs[i := f][1..] == figs[1..][i - 1 := f];
      FindIndexReplace(figs[1..], i - 1, f, id);
    }
  }

  /** In a well-formed list an id occurs once, so findIndex finds the very position holding it. */
  lemma FindIndexOfId(figs: seq<Figure>, nextId: int, i: int)
    requires WellFormed(figs, nextId) && 0 <= i < |figs|
    ensures FindIndex(figs, figs[i].id) == i
  {
  }

  lemma KindsConcat(a: seq<Figure>, b: seq<Figure>)
    ensures Kinds(a + b) == Kinds(a) + Kinds(b)
  {
    forall x | x in Kinds(a + b) ensures x in Kinds(a) + Kinds(b) {
      var i :| 0 <= i < |a + b| && (a + b)[i].n == x;
      if i >= |a| {
        assert b[i - |a|].n == x;
      }
    }
    forall x | x in Kinds(a) ensures x in Kinds(a + b) {
      var i :| 0 <= i < |a| && a[i].n == x;
      assert (a + b)[i].n == x;
    }
    forall x | x in Kinds(b) ensures x in Kinds(a + b) {
      var i :| 0 <= i < |b| && b[i].n == x;
      assert (a + b)[|a| + i].n == x;
    }
  }

  lemma IdsConcat(a: seq<Figure>, b: seq<Figure>)
    ensures Ids(a + b) == Ids(a) + Ids(b)
  {
    forall x | x in Ids(a + b) ensures x in Ids(a) + Ids(b) {
      var i :| 0 <= i < |a + b| && (a + b)[i].id == x;
      if i >= |a| {
        assert b[i - |a|].id == x;
      }
    }
    forall x | x in Ids(a) ensures x in Ids(a + b) {
      var i :| 0 <= i < |a| && a[i].id == x;
      assert (a + b)[i].id == x;
    }
    forall x | x in Ids(b) ensures x in Ids(a + b) {
      var i :| 0 <= i < |b| && b[i].id == x;
      assert (a + b)[|a| + i].id == x;
    }
  }

  lemma KindsIdsSingleton(f: Figure)
    ensures Kinds([f]) == {f.n} && Ids([f]) == {f.id}
  {
    assert [f][0] == f;
  }

  /**
   * Appending a figure of an unused kind with id nextId keeps the list well formed for
   * nextId + 1 and adds exactly that kind and that id.
   */
  lemma AppendWellFormed(figs: seq<Figure>, nextId: int, f: Figure)
    requires WellFormed(figs, nextId) && f.id == nextId && 0 <= f.n <= 6 && f.n !in Kinds(figs)
    ensures WellFormed(figs + [f], nextId + 1)
    ensures Kinds(figs + [f]) == Kinds(figs) + {f.n}
    ensures Ids(figs + [f]) == Ids(figs) + {f.id}
  {
    KindsConcat(figs, [f]);
    IdsConcat(figs, [f]);
    KindsIdsSingleton(f);
  }

  /** Appending a figure whose cached value matches `Value` keeps every value matching. */
  lemma AppendValuesMatch(figs: seq<Figure>, f: Figure)
    requires ValuesMatch(figs) && f.k >= 1 && f.v == Value(f.n, f.k)
    ensures ValuesMatch(figs + [f])
  {
    var r := figs + [f];
    forall j | 0 <= j < |r| ensures r[j].k >= 1 && r[j].v == Value(r[j].n, r[j].k) {
      assert r[j] == if j < |figs| then figs[j] else f;
    }
  }

  /** Appending a figure whose cached value matches `ShiftedValue` keeps every value matching. */
  lemma AppendShiftedValuesMatch(figs: seq<Figure>, f: Figure)
    requires ShiftedValuesMatch(figs) && f.k >= 1 && f.v == ShiftedValue(f.n, f.k)
    ensures ShiftedValuesMatch(figs + [f])
  {
    var r := figs + [f];
    forall j | 0 <= j < |r| ensures r[j].k >= 1 && r[j].v == ShiftedValue(r[j].n, r[j].k) {
      assert r[j] == if j < |figs| then figs[j] else f;
    }
  }

  /** Splicing out position i keeps every cached value matching `Value`. */
  lemma RemoveValuesMatch(figs: seq<Figure>, i: int)
    requires ValuesMatch(figs) && 0 <= i < |figs|
    ensures ValuesMatch(RemoveAt(figs, i))
  {
    var r := RemoveAt(figs, i);
    forall j | 0 <= j < |r| ensures r[j].k >= 1 && r[j].v == Value(r[j].n, r[j].k) {
      assert r[j] == figs[if j < i then j else j + 1];
    }
  }

  /** Splicing out position i keeps every cached value matching `ShiftedValue`. */
  lemma RemoveShiftedValuesMatch(figs: seq<Figure>, i: int)
    requires ShiftedValuesMatch(figs) && 0 <= i < |figs|
    ensures ShiftedValuesMatch(RemoveAt(figs, i))
  {
    var r := RemoveAt(figs, i);
    forall j | 0 <= j < |r| ensures r[j].k >= 1 && r[j].v == ShiftedValue(r[j].n, r[j].k) {
      assert r[j] == figs[if j < i then j else j + 1];
    }
  }

  /** Splicing out position i keeps the list well formed. */
  lemma RemoveWellFormed(figs: seq<Figure>, nextId: int, i: int)
    requires WellFormed(figs, nextId) && 0 <= i < |figs|
    ensures WellFormed(RemoveAt(figs, i), nextId)
  {
  }

  /** Splicing out position i of a well-formed list removes exactly that figure's id and kind. */
  lemma RemoveIdsKinds(figs: seq<Figure>, nextId: int, i: int)
    requires WellFormed(figs, nextId) && 0 <= i < |figs|
    ensures Ids(RemoveAt(figs, i)) == Ids(figs) - {figs[i].id}
    ensures Kinds(RemoveAt(figs, i)) == Kinds(figs) - {figs[i].n}
  {
    var pre, post := figs[..i], figs[i + 1..];
    assert figs == pre + [figs[i]] + post;
    KindsConcat(pre + [figs[i]], post);
    KindsConcat(pre, [figs[i]]);
    KindsConcat(pre, post);
    IdsConcat(pre + [figs[i]], post);
    IdsConcat(pre, [figs[i]]);
    IdsConcat(pre, post);
    KindsIdsSingleton(figs[i]);
    OnceOnly(figs, nextId, i);
  }

  /** The id and the kind at position i occur nowhere else in a well-formed list. */
  lemma OnceOnly(figs: seq<Figure>, nextId: int, i: int)
    requires WellFormed(figs, nextId) && 0 <= i < |figs|
    ensures figs[i].id !in Ids(figs[..i]) && figs[i].id !in Ids(figs[i + 1..])
    ensures figs[i].n !in Kinds(figs[..i]) && figs[i].n !in Kinds(figs[i + 1..])
  {
  }

  /**
   * Replacing the figure at position i, in place, by one with the same id and kind keeps
   * the list well formed and keeps its ids and kinds.
   */
  lemma ReplaceWellFormed(figs: seq<Figure>, nextId: int, i: int, f: Figure)
    requires WellFormed(figs, nextId) && 0 <= i < |figs|
    requires f.id == figs[i].id && f.n == figs[i].n
    ensures WellFormed(figs[i := f], nextId)
    ensures Ids(figs[i := f]) == Ids(figs) && Kinds(figs[i := f]) == Kinds(figs)
  {
    var pre, post := figs[..i], figs[i + 1..];
    assert figs == pre + [figs[i]] + post;
    assert figs[i := f] == pre + [f] + post;
    KindsConcat(pre + [figs[i]], post);
    KindsConcat(pre, [figs[i]]);
    KindsConcat(pre + [f], post);
    KindsConcat(pre, [f]);
    IdsConcat(pre + [figs[i]], post);
    IdsConcat(pre, [figs[i]]);
    IdsConcat(pre + [f], post);
    IdsConcat(pre, [f]);
    KindsIdsSingleton(figs[i]);
    KindsIdsSingleton(f);
  }
}
