/**
 * The item vocabulary of src/utils/utils.ts: boxes, glue and penalties, their
 * constructors and the predicates that classify break opportunities.
 *
 * The cost sentinels live in src/breakLines, which is not part of this model;
 * the values below are stand-ins and no proof depends on them beyond
 * MIN_COST < MAX_COST.
 */
module Items {
  import opened Wrappers
  import Seqs

  /** A penalty whose cost is at or below MIN_COST forces a break. */
  const MIN_COST: real := -1000.0
  /** A penalty whose cost is at or above MAX_COST is never a break. */
  const MAX_COST: real := 1000.0
  /** Sentinel stretch of the glue that ends a paragraph. */
  const INFINITE_STRETCH: real := 100000.0

  /**
   * The closed item variant. `text` is `None` where the JavaScript object
   * carries no text (either no `text` key or an `undefined` value).
   */
  datatype Item =
    | Box(width: real, text: Option<string>)
    | Glue(width: real, stretch: real, shrink: real, text: Option<string>)
    | Penalty(width: real, cost: real, flagged: bool)

  /** The JavaScript `type` tag of an item. */
  function TypeName(item: Item): (r: string)
    ensures r in ["box", "glue", "penalty"]
  {
    match item
    case Box(_, _) => "box"
    case Glue(_, _, _, _) => "glue"
    case Penalty(_, _, _) => "penalty"
  }

  /** JavaScript truthiness of an optional string: present and non-empty. */
  predicate Truthy(text: Option<string>) {
    text.Some? && text.value != ""
  }

  /** `box(width, text?)`: the text is stored as given, absent or not. */
  function MakeBox(width: real, text: Option<string> := None): (r: Item)
    ensures r.Box? && r.width == width && r.text == text
  {
    Box(width, text)
  }

  /**
   * `glue(width, stretch, shrink, text?)`: stretch comes before shrink, and
   * the text is kept only when it is truthy.
   */
  function MakeGlue(width: real, stretch: real, shrink: real, text: Option<string> := None): (r: Item)
    ensures r.Glue? && r.width == width && r.stretch == stretch && r.shrink == shrink
    ensures r.text.Some? <==> Truthy(text)
    ensures r.text.Some? ==> r.text == text
  {
    if Truthy(text) then Glue(width, stretch, shrink, text) else Glue(width, stretch, shrink, None)
  }

  /** `penalty(width, cost, flagged = false)`. */
  function MakePenalty(width: real, cost: real, flagged: bool := false): (r: Item)
    ensures r.Penalty? && r.width == width && r.cost == cost && r.flagged == flagged
  {
    Penalty(width, cost, flagged)
  }

  /** The mandatory break that closes a paragraph. */
  function ForcedBreak(): (r: Item)
    ensures IsForcedBreak(r) && IsBreakablePenalty(r) && !IsPenaltyThatDoesNotForceBreak(r)
    ensures r.width == 0.0 && !r.flagged
  {
    MakePenalty(0.0, MIN_COST)
  }

  /** `isSoftHyphen(item | undefined)`: a flagged penalty, whatever its width. */
  predicate IsSoftHyphen(item: Option<Item>) {
    item.Some? && item.value.Penalty? && item.value.flagged
  }

  predicate IsForcedBreak(item: Item) {
    item.Penalty? && item.cost <= MIN_COST
  }

  predicate IsBreakablePenalty(item: Item) {
    item.Penalty? && item.cost < MAX_COST
  }

  predicate IsNonBreakablePenalty(item: Item) {
    item.Penalty? && item.cost >= MAX_COST
  }

  predicate IsPenaltyThatDoesNotForceBreak(item: Item) {
    item.Penalty? && item.cost > MIN_COST
  }

  /**
   * On a penalty each pair of predicates splits the cost line in two; a
   * forced break is always breakable and a non-breakable penalty never
   * forces a break. On a box or glue all four are false.
   */
  lemma PenaltyClassification(item: Item)
    ensures item.Penalty? ==> (IsForcedBreak(item) <==> !IsPenaltyThatDoesNotForceBreak(item))
    ensures item.Penalty? ==> (IsBreakablePenalty(item) <==> !IsNonBreakablePenalty(item))
    ensures IsForcedBreak(item) ==> IsBreakablePenalty(item)
    ensures IsNonBreakablePenalty(item) ==> IsPenaltyThatDoesNotForceBreak(item)
    ensures !item.Penalty? ==>
      !IsForcedBreak(item) && !IsBreakablePenalty(item) && !IsNonBreakablePenalty(item) && !IsPenaltyThatDoesNotForceBreak(item)
  {
  }

  /** Whether a penalty is a soft hyphen depends on its flag alone. */
  lemma SoftHyphenIgnoresWidthAndCost(item: Item, width: real, cost: real)
    requires item.Penalty?
    ensures IsSoftHyphen(Some(item)) == IsSoftHyphen(Some(item.(width := width, cost := cost)))
    ensures IsSoftHyphen(Some(item)) == item.flagged
  {
  }

  /**
   * `getStretch`: the stored stretch. The branch that scales INFINITE_STRETCH
   * by the maximum line width sits after an unconditional `return` and never
   * runs.
   */
  function GetStretch(glue: Item): (r: real)
    requires glue.Glue?
    ensures r == glue.stretch
  {
    glue.stretch
  }

  /** `infiniteGlue()`: zero width, no shrink, the INFINITE_STRETCH sentinel. */
  function InfiniteGlue(): (r: Item)
    ensures r.Glue? && r.width == 0.0 && r.shrink == 0.0 && r.stretch == INFINITE_STRETCH && r.text == None
  {
    MakeGlue(0.0, INFINITE_STRETCH, 0.0)
  }

  /** The sentinel reaches its consumers unscaled. */
  lemma InfiniteStretchPassesThrough()
    ensures GetStretch(InfiniteGlue()) == INFINITE_STRETCH
  {
  }

  predicate IsGlueWithStretch(item: Item, stretch: real) {
    item.Glue? && item.stretch == stretch
  }

  /** Number of glue items in `items` whose stretch is `stretch`. */
  function CountGlueWithStretch(items: seq<Item>, stretch: real): nat {
    if items == [] then 0
    else (if IsGlueWithStretch(items[0], stretch) then 1 else 0) + CountGlueWithStretch(items[1..], stretch)
  }

  /**
   * A copy of `items` without the glue whose stretch is `stretch`; every
   * other item is kept.
   */
  function RemoveGlueWithStretch(items: seq<Item>, stretch: real): (r: seq<Item>)
    ensures |r| + CountGlueWithStretch(items, stretch) == |items|
    ensures forall i :: 0 <= i < |r| ==> !IsGlueWithStretch(r[i], stretch)
    ensures forall x :: x in r ==> x in items
    ensures forall x :: x in items && !IsGlueWithStretch(x, stretch) ==> x in r
  {
    if items == [] then []
    else
      var rest := RemoveGlueWithStretch(items[1..], stretch);
      assert forall x :: x in items ==> x == items[0] || x in items[1..];
      if IsGlueWithStretch(items[0], stretch) then rest else [items[0]] + rest
  }

  /** Removal works piecewise, so the kept items stay in their order. */
  lemma {:induction false} RemoveGlueWithStretchAppend(a: seq<Item>, b: seq<Item>, stretch: real)
    ensures RemoveGlueWithStretch(a + b, stretch) == RemoveGlueWithStretch(a, stretch) + RemoveGlueWithStretch(b, stretch)
  {
    if a == [] {
      assert a + b == b;
    } else {
      var ab := a + b;
      assert ab[0] == a[0];
      assert ab[1..] == a[1..] + b;
      RemoveGlueWithStretchAppend(a[1..], b, stretch);
      var tail := RemoveGlueWithStretch(a[1..], stretch) + RemoveGlueWithStretch(b, stretch);
      if IsGlueWithStretch(a[0], stretch) {
        assert RemoveGlueWithStretch(ab, stretch) == tail;
      } else {
        assert RemoveGlueWithStretch(ab, stretch) == [a[0]] + tail;
        assert RemoveGlueWithStretch(a, stretch) == [a[0]] + RemoveGlueWithStretch(a[1..], stretch);
      }
    }
  }

  /** Nothing is removed from a sequence without such glue. */
  lemma {:induction false} RemoveGlueWithStretchNoop(items: seq<Item>, stretch: real)
    requires forall i :: 0 <= i < |items| ==> !IsGlueWithStretch(items[i], stretch)
    ensures RemoveGlueWithStretch(items, stretch) == items
  {
    if items != [] {
      RemoveGlueWithStretchNoop(items[1..], stretch);
    }
  }

  /** `removeGlueFromEndOfParagraphs` of src/utils/utils.ts. */
  function RemoveGlueFromEndOfParagraphs(items: seq<Item>): (r: seq<Item>)
    ensures forall i :: 0 <= i < |r| ==> !IsGlueWithStretch(r[i], INFINITE_STRETCH)
    ensures |r| + CountGlueWithStretch(items, INFINITE_STRETCH) == |items|
  {
    RemoveGlueWithStretch(items, INFINITE_STRETCH)
  }

  /** The paragraph-end glue is exactly what the removal takes away. */
  lemma RemoveParagraphEndGlue(items: seq<Item>)
    ensures RemoveGlueFromEndOfParagraphs(items + [InfiniteGlue(), ForcedBreak()])
         == RemoveGlueFromEndOfParagraphs(items) + [ForcedBreak()]
  {
    RemoveGlueWithStretchAppend(items, [InfiniteGlue(), ForcedBreak()], INFINITE_STRETCH);
    assert [InfiniteGlue(), ForcedBreak()][1..] == [ForcedBreak()];
  }

  /**
   * The four-item group shared by a ragged soft hyphen and
   * `addSlackIfBreakpoint`: a MAX_COST penalty, then zero-width, shrinkless
   * glue on both sides of a penalty, whose stretches cancel.
   */
  predicate SlackGroup(r: seq<Item>) {
    && |r| == 4
    && r[0] == Penalty(0.0, MAX_COST, false)
    && r[1].Glue? && r[1].width == 0.0 && r[1].shrink == 0.0
    && r[2].Penalty?
    && r[3].Glue? && r[3].width == 0.0 && r[3].shrink == 0.0
    && r[1].stretch + r[3].stretch == 0.0
  }

  /** `addSlackIfBreakpoint(stretch, cost = 0)`. */
  function AddSlackIfBreakpoint(stretch: real, cost: real := 0.0): (r: seq<Item>)
    ensures SlackGroup(r)
    ensures r[1].stretch == stretch
    ensures r[2] == Penalty(0.0, cost, false)
    ensures TotalWidth(r) == 0.0 && TotalStretch(r) == 0.0 && TotalShrink(r) == 0.0
  {
    var r := [MakePenalty(0.0, MAX_COST), MakeGlue(0.0, stretch, 0.0), MakePenalty(0.0, cost), MakeGlue(0.0, -stretch, 0.0)];
    SlackGroupTotals(r);
    r
  }

  /** The widths of all items, penalties included. */
  function TotalWidth(items: seq<Item>): real {
    if items == [] then 0.0 else items[0].width + TotalWidth(items[1..])
  }

  function StretchOf(item: Item): real {
    if item.Glue? then item.stretch else 0.0
  }

  function ShrinkOf(item: Item): real {
    if item.Glue? then item.shrink else 0.0
  }

  /** The stretch of all glue in `items`. */
  function TotalStretch(items: seq<Item>): real {
    if items == [] then 0.0 else StretchOf(items[0]) + TotalStretch(items[1..])
  }

  /** The shrink of all glue in `items`. */
  function TotalShrink(items: seq<Item>): real {
    if items == [] then 0.0 else ShrinkOf(items[0]) + TotalShrink(items[1..])
  }

  /** Totals of a sequence of at most four items, written out. */
  lemma TotalsOfShort(items: seq<Item>)
    requires |items| <= 4
    ensures TotalWidth(items) == (if |items| > 0 then items[0].width else 0.0) + (if |items| > 1 then items[1].width else 0.0)
                               + (if |items| > 2 then items[2].width else 0.0) + (if |items| > 3 then items[3].width else 0.0)
    ensures TotalStretch(items) == (if |items| > 0 then StretchOf(items[0]) else 0.0) + (if |items| > 1 then StretchOf(items[1]) else 0.0)
                                 + (if |items| > 2 then StretchOf(items[2]) else 0.0) + (if |items| > 3 then StretchOf(items[3]) else 0.0)
    ensures TotalShrink(items) == (if |items| > 0 then ShrinkOf(items[0]) else 0.0) + (if |items| > 1 then ShrinkOf(items[1]) else 0.0)
                                + (if |items| > 2 then ShrinkOf(items[2]) else 0.0) + (if |items| > 3 then ShrinkOf(items[3]) else 0.0)
  {
    if items != [] {
      var t := items[1..];
      if t != [] {
        var u := t[1..];
        if u != [] {
          var v := u[1..];
          if v != [] {
            assert v[1..] == [];
          }
        }
      }
    }
  }

  /** A slack group adds no width, no net stretch and no shrink. */
  lemma SlackGroupTotals(r: seq<Item>)
    requires SlackGroup(r)
    ensures TotalStretch(r) == 0.0 && TotalShrink(r) == 0.0
    ensures TotalWidth(r) == r[2].width
  {
    TotalsOfShort(r);
  }

  /** The texts of the boxes in `items`, in order; a textless box gives "". */
  function BoxTexts(items: seq<Item>): seq<string> {
    if items == [] then []
    else (if items[0].Box? then [items[0].text.GetOr("")] else []) + BoxTexts(items[1..])
  }

  lemma {:induction false} BoxTextsAppend(a: seq<Item>, b: seq<Item>)
    ensures BoxTexts(a + b) == BoxTexts(a) + BoxTexts(b)
  {
    if a == [] {
      assert a + b == b;
    } else {
      assert (a + b)[0] == a[0];
      assert (a + b)[1..] == a[1..] + b;
      BoxTextsAppend(a[1..], b);
    }
  }
}
