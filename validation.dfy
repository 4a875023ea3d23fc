/**
 * `validateItems` of src/utils/utils.ts: the checks run on an item sequence
 * before the breakpoint search. The JavaScript reads `items[index + 1]` and
 * `items[index + 2]` without a bounds check; the model keeps those reads and
 * shows that, once the first check has passed, they never reach past the end.
 */
module Validation {
  import opened Items

  datatype Fault =
    /** Reading `.type` of the missing last item of an empty sequence. */
    | EmptyItems
    /** The last item is not a penalty with cost at most MIN_COST. */
    | MissingFinalForcedBreak
    /** Glue followed by a non-forcing penalty and a box, at this index. */
    | PenalizedGlue(index: nat)
    /** Reading `.type` of an item past the end (shown never to happen). */
    | ReadPastEnd(index: nat)

  datatype Outcome = Pass | Fail(fault: Fault)

  /** What the `findIndex` callback does at `index`. */
  datatype Probe = Hit | Miss | Undefined

  /**
   * The `findIndex` callback at `index`, with `&&` short-circuiting as in
   * JavaScript: a read of `.type` past the end throws.
   */
  function ProbeAt(items: seq<Item>, index: nat): Probe
    requires index < |items|
  {
    if !items[index].Glue? then Miss
    else if index + 1 >= |items| then Undefined
    else if !items[index + 1].Penalty? then Miss
    else if !(items[index + 1].cost > MIN_COST) then Miss
    else if index + 2 >= |items| then Undefined
    else if items[index + 2].Box? then Hit
    else Miss
  }

  /** The pattern the check refuses: a penalty placed after the glue it meant to penalize. */
  predicate PenalizedGlueAt(items: seq<Item>, index: nat) {
    && index + 2 < |items|
    && items[index].Glue?
    && IsPenaltyThatDoesNotForceBreak(items[index + 1])
    && items[index + 2].Box?
  }

  /** The result of `findIndex` from `from` on: a hit, a throw, or nothing. */
  datatype Found = At(index: nat) | Throws(index: nat) | NotFound

  /** `items.findIndex(callback)` scanning from `from`. */
  function FindPenalizedGlue(items: seq<Item>, from: nat): (r: Found)
    requires from <= |items|
    ensures r.At? ==> from <= r.index < |items| && ProbeAt(items, r.index) == Hit
    ensures r.Throws? ==> from <= r.index < |items| && ProbeAt(items, r.index) == Undefined
    ensures !r.NotFound? ==> forall j :: from <= j < r.index ==> ProbeAt(items, j) == Miss
    ensures r.NotFound? ==> forall j :: from <= j < |items| ==> ProbeAt(items, j) == Miss
    decreases |items| - from
  {
    if from == |items| then NotFound
    else match ProbeAt(items, from)
      case Hit => At(from)
      case Undefined => Throws(from)
      case Miss => FindPenalizedGlue(items, from + 1)
  }

  /** Once the last item forces a break, the callback never reads past the end. */
  lemma NoReadPastEnd(items: seq<Item>, index: nat)
    requires |items| > 0 && IsForcedBreak(items[|items| - 1])
    requires index < |items|
    ensures ProbeAt(items, index) != Undefined
    ensures ProbeAt(items, index) == Hit <==> PenalizedGlueAt(items, index)
  {
  }

  /** `validateItems(items)`: `Pass` where the JavaScript returns normally. */
  function ValidateItems(items: seq<Item>): (r: Outcome)
    ensures r == Pass <==>
      && |items| > 0
      && IsForcedBreak(items[|items| - 1])
      && forall i :: 0 <= i < |items| ==> !PenalizedGlueAt(items, i)
    ensures r == Fail(EmptyItems) <==> |items| == 0
    ensures r == Fail(MissingFinalForcedBreak) <==> |items| > 0 && !IsForcedBreak(items[|items| - 1])
    ensures |items| > 0 && IsForcedBreak(items[|items| - 1]) && (exists i :: 0 <= i < |items| && PenalizedGlueAt(items, i)) ==>
      r.Fail? && r.fault.PenalizedGlue?
    ensures r.Fail? && r.fault.PenalizedGlue? ==>
      && PenalizedGlueAt(items, r.fault.index)
      && forall j :: 0 <= j < r.fault.index ==> !PenalizedGlueAt(items, j)
    ensures !(r.Fail? && r.fault.ReadPastEnd?)
  {
    if |items| == 0 then Fail(EmptyItems)
    else
      var last := items[|items| - 1];
      if !(last.Penalty? && last.cost <= MIN_COST) then Fail(MissingFinalForcedBreak)
      else
        var found := FindPenalizedGlue(items, 0);
        assert forall j :: 0 <= j < |items| ==> ProbeAt(items, j) != Undefined && (ProbeAt(items, j) == Hit <==> PenalizedGlueAt(items, j)) by {
          forall j | 0 <= j < |items|
            ensures ProbeAt(items, j) != Undefined && (ProbeAt(items, j) == Hit <==> PenalizedGlueAt(items, j))
          {
            NoReadPastEnd(items, j);
          }
        }
        match found
        case At(i) => Fail(PenalizedGlue(i))
        case Throws(i) => Fail(ReadPastEnd(i))
        case NotFound => Pass
  }
}
