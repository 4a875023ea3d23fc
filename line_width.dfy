/**
 * The `LineWidth` lookup policy of src/utils/utils.ts: one width for every
 * line, a per-line sequence whose last value repeats, or a sparse
 * line-to-width table with a default.
 */
module LineWidths {

  datatype LineWidth =
    | Uniform(width: real)
    | PerLine(widths: seq<real>)
    | Sparse(entries: map<nat, real>, defaultLineWidth: real)

  /**
   * The callers' obligation: JavaScript gives `undefined` (a lookup) or an
   * infinity (min, max) for an empty array; callers are assumed never to
   * pass an empty array.
   */
  predicate WellFormed(lineWidths: LineWidth) {
    lineWidths.PerLine? ==> |lineWidths.widths| > 0
  }

  /** One width the policy surely mentions. */
  function AnyWidth(lineWidths: LineWidth): real
    requires WellFormed(lineWidths)
  {
    match lineWidths
    case Uniform(w) => w
    case PerLine(ws) => ws[0]
    case Sparse(_, d) => d
  }

  /** Every width the policy can mention (`Object.values` plus the default). */
  function Values(lineWidths: LineWidth): (r: set<real>)
    requires WellFormed(lineWidths)
    ensures AnyWidth(lineWidths) in r
  {
    match lineWidths
    case Uniform(w) => {w}
    case PerLine(ws) => set w | w in ws
    case Sparse(m, d) => m.Values + {d}
  }

  /** A finite set of reals holding `some` has a least element. */
  lemma {:induction false} HasLeast(s: set<real>, some: real)
    requires some in s
    ensures exists x :: x in s && forall y :: y in s ==> x <= y
    decreases s
  {
    if exists y :: y in s && y != some {
      var z :| z in s && z != some;
      HasLeast(s - {some}, z);
      var m :| m in s - {some} && forall y :: y in s - {some} ==> m <= y;
      var least := if some < m then some else m;
      forall y | y in s
        ensures least <= y
      {
        if y != some { assert y in s - {some}; }
      }
      assert least in s;
    } else {
      assert forall y :: y in s ==> some <= y;
    }
  }

  /** A finite set of reals holding `some` has a greatest element. */
  lemma {:induction false} HasGreatest(s: set<real>, some: real)
    requires some in s
    ensures exists x :: x in s && forall y :: y in s ==> y <= x
    decreases s
  {
    if exists y :: y in s && y != some {
      var z :| z in s && z != some;
      HasGreatest(s - {some}, z);
      var m :| m in s - {some} && forall y :: y in s - {some} ==> y <= m;
      var greatest := if m < some then some else m;
      forall y | y in s
        ensures y <= greatest
      {
        if y != some { assert y in s - {some}; }
      }
      assert greatest in s;
    } else {
      assert forall y :: y in s ==> y <= some;
    }
  }

  /** The least element of a set holding `some`. */
  function Least(s: set<real>, some: real): (r: real)
    requires some in s
    ensures r in s && forall y :: y in s ==> r <= y
  {
    HasLeast(s, some);
    var x :| x in s && forall y :: y in s ==> x <= y;
    x
  }

  /** The greatest element of a set holding `some`. */
  function Greatest(s: set<real>, some: real): (r: real)
    requires some in s
    ensures r in s && forall y :: y in s ==> y <= r
  {
    HasGreatest(s, some);
    var x :| x in s && forall y :: y in s ==> y <= x;
    x
  }

  /** `getMinLineWidth`: `Math.min` over the mentioned widths. */
  function GetMinLineWidth(lineWidths: LineWidth): (r: real)
    requires WellFormed(lineWidths)
    ensures r in Values(lineWidths) && forall w :: w in Values(lineWidths) ==> r <= w
  {
    Least(Values(lineWidths), AnyWidth(lineWidths))
  }

  /** `getMaxLineWidth`: `Math.max` over the mentioned widths. */
  function GetMaxLineWidth(lineWidths: LineWidth): (r: real)
    requires WellFormed(lineWidths)
    ensures r in Values(lineWidths) && forall w :: w in Values(lineWidths) ==> w <= r
  {
    Greatest(Values(lineWidths), AnyWidth(lineWidths))
  }

  /**
   * `getLineWidth(lineWidths, lineIndex)`. A sequence gives its element, or
   * its last element past the end; a table gives its entry, or the default
   * when the entry is missing or zero (the `||` fallback).
   */
  function GetLineWidth(lineWidths: LineWidth, lineIndex: nat): (r: real)
    requires WellFormed(lineWidths)
    ensures r in Values(lineWidths)
    ensures lineWidths.PerLine? ==>
      r == lineWidths.widths[if lineIndex < |lineWidths.widths| then lineIndex else |lineWidths.widths| - 1]
    ensures lineWidths.Sparse? ==>
      (r == lineWidths.defaultLineWidth <==> lineIndex !in lineWidths.entries || lineWidths.entries[lineIndex] == 0.0 || lineWidths.entries[lineIndex] == lineWidths.defaultLineWidth)
    ensures lineWidths.Sparse? && lineIndex in lineWidths.entries && lineWidths.entries[lineIndex] != 0.0 ==>
      r == lineWidths.entries[lineIndex]
  {
    match lineWidths
    case Uniform(w) => w
    case PerLine(ws) => if lineIndex < |ws| then ws[lineIndex] else ws[|ws| - 1]
    case Sparse(m, d) => if lineIndex in m && m[lineIndex] != 0.0 then m[lineIndex] else d
  }

  /** Every looked-up width lies between the minimum and the maximum. */
  lemma LineWidthBounds(lineWidths: LineWidth, lineIndex: nat)
    requires WellFormed(lineWidths)
    ensures GetMinLineWidth(lineWidths) <= GetLineWidth(lineWidths, lineIndex) <= GetMaxLineWidth(lineWidths)
  {
  }

  /** A sequence that is not reached past its end behaves like its last value. */
  lemma PerLineRepeatsLast(widths: seq<real>, i: nat, j: nat)
    requires |widths| > 0 && |widths| - 1 <= i && |widths| - 1 <= j
    ensures GetLineWidth(PerLine(widths), i) == GetLineWidth(PerLine(widths), j) == widths[|widths| - 1]
  {
  }
}
