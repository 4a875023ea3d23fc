/**
 * `collapseAdjacentGlue` (src/helpers/util.ts): a run of consecutive glue
 * items becomes its first glue, whose text collects the texts of the rest of
 * the run; every other item is copied in order.
 *
 * JavaScript's `+=` on a missing text yields the string "undefined" followed
 * by the appended text; the model spells that out. Only text items are
 * modelled, so the DOM offsets the source also copies are not part of it.
 */
module CollapseGlue {
  import opened Wrappers
  import opened Items
  import Seqs

  /**
   * The glue `g` after `item`, the next glue of its run, was folded into it:
   * only the text changes, and only when `item` carries one.
   */
  function Absorb(g: Item, item: Item): (r: Item)
    requires g.Glue? && item.Glue?
    ensures r.Glue? && r.width == g.width && r.stretch == g.stretch && r.shrink == g.shrink
    ensures item.text.None? ==> r == g
    ensures item.text.Some? && g.text.Some? ==> r.text == Some(g.text.value + item.text.value)
    ensures item.text.Some? && g.text.None? ==> r.text == Some("undefined" + item.text.value)
  {
    match item.text
    case None => g
    case Some(t) => g.(text := Some(g.text.GetOr("undefined") + t))
  }

  predicate EndsWithGlue(s: seq<Item>) {
    s != [] && s[|s| - 1].Glue?
  }

  /** No two glue items in a row. */
  predicate NoGlueRuns(s: seq<Item>) {
    forall k :: 0 <= k < |s| - 1 ==> !(s[k].Glue? && s[k + 1].Glue?)
  }

  /** One step of the loop: merge into the last output glue, or push. */
  function Step(output: seq<Item>, item: Item): (r: seq<Item>)
    ensures |r| == (if item.Glue? && EndsWithGlue(output) then |output| else |output| + 1)
    ensures EndsWithGlue(r) == item.Glue?
  {
    if item.Glue? && EndsWithGlue(output) then
      output[..|output| - 1] + [Absorb(output[|output| - 1], item)]
    else
      output + [item]
  }

  /** What the loop has built after reading `items`. */
  function Collapsed(items: seq<Item>): (r: seq<Item>)
    ensures |r| <= |items|
    ensures r == [] <==> items == []
    ensures EndsWithGlue(r) == EndsWithGlue(items)
  {
    if items == [] then []
    else Step(Collapsed(items[..|items| - 1]), items[|items| - 1])
  }

  /** `collapseAdjacentGlue(items)`. */
  method CollapseAdjacentGlue(items: seq<Item>) returns (output: seq<Item>)
    ensures output == Collapsed(items)
    ensures NoGlueRuns(output)
  {
    output := [];
    var i := 0;
    while i < |items|
      invariant 0 <= i <= |items|
      invariant output == Collapsed(items[..i])
    {
      var item := items[i];
      if item.Glue? && |output| > 0 && output[|output| - 1].Glue? {
        var last := output[|output| - 1];
        output := output[..|output| - 1] + [Absorb(last, item)];
      } else {
        output := output + [item];
      }
      assert items[..i + 1][..i] == items[..i];
      i := i + 1;
    }
    assert items[..|items|] == items;
    NoAdjacentGlue(items);
  }

  /** The output never holds two glue items in a row. */
  lemma {:induction false} NoAdjacentGlue(items: seq<Item>)
    ensures NoGlueRuns(Collapsed(items))
    decreases |items|
  {
    if items != [] {
      var prefix := items[..|items| - 1];
      var out := Collapsed(prefix);
      NoAdjacentGlue(prefix);
      var item := items[|items| - 1];
      var r := Collapsed(items);
      if item.Glue? && EndsWithGlue(out) {
        var m := |out| - 1;
        assert r == out[..m] + [Absorb(out[m], item)];
        forall k | 0 <= k < |r| - 1
          ensures !(r[k].Glue? && r[k + 1].Glue?)
        {
          assert r[k] == out[k];
          assert !(out[k].Glue? && out[k + 1].Glue?);
          if k + 1 < m {
            assert r[k + 1] == out[k + 1];
          }
        }
      } else {
        assert r == out + [item];
        forall k | 0 <= k < |r| - 1
          ensures !(r[k].Glue? && r[k + 1].Glue?)
        {
          assert r[k] == out[k];
          if k + 1 < |out| {
            assert r[k + 1] == out[k + 1];
            assert !(out[k].Glue? && out[k + 1].Glue?);
          } else {
            assert r[k + 1] == item;
          }
        }
      }
    }
  }

  /** Items without adjacent glue are returned as they are. */
  lemma {:induction false} CollapsedNoop(items: seq<Item>)
    requires NoGlueRuns(items)
    ensures Collapsed(items) == items
    decreases |items|
  {
    if items != [] {
      var prefix := items[..|items| - 1];
      CollapsedNoop(prefix);
      if |prefix| > 0 {
        assert prefix[|prefix| - 1] == items[|items| - 2];
      }
    }
  }

  /** Collapsing twice is collapsing once. */
  lemma CollapseIdempotent(items: seq<Item>)
    ensures Collapsed(Collapsed(items)) == Collapsed(items)
  {
    NoAdjacentGlue(items);
    CollapsedNoop(Collapsed(items));
  }

  /**
   * An independent reference: the items that do not follow a glue, or are
   * not glue themselves (the first glue of every run and every other item).
   */
  function RunStarts(items: seq<Item>): (r: seq<Item>)
    ensures |r| <= |items|
  {
    if items == [] then []
    else
      var n := |items|;
      RunStarts(items[..n - 1]) + (if items[n - 1].Glue? && n >= 2 && items[n - 2].Glue? then [] else [items[n - 1]])
  }

  /** An item with the text of a glue forgotten. */
  function Erase(item: Item): Item {
    if item.Glue? then item.(text := None) else item
  }

  function EraseAll(items: seq<Item>): (r: seq<Item>)
    ensures |r| == |items| && forall k :: 0 <= k < |items| ==> r[k] == Erase(items[k])
  {
    seq(|items|, k requires 0 <= k < |items| => Erase(items[k]))
  }

  lemma EraseAllSnoc(s: seq<Item>, x: Item)
    ensures EraseAll(s + [x]) == EraseAll(s) + [Erase(x)]
  {
  }

  /** Replacing the last glue by one that differs only in text erases to the same. */
  lemma EraseAllReplaceLast(s: seq<Item>, x: Item)
    requires s != [] && Erase(x) == Erase(s[|s| - 1])
    ensures EraseAll(s[..|s| - 1] + [x]) == EraseAll(s)
  {
    EraseAllSnoc(s[..|s| - 1], x);
    EraseAllSnoc(s[..|s| - 1], s[|s| - 1]);
    assert s[..|s| - 1] + [s[|s| - 1]] == s;
  }

  /** RunStarts of a list ending in `item`. */
  lemma RunStartsSnoc(prefix: seq<Item>, item: Item)
    ensures RunStarts(prefix + [item]) == RunStarts(prefix) + (if item.Glue? && EndsWithGlue(prefix) then [] else [item])
  {
    var items := prefix + [item];
    assert items[..|items| - 1] == prefix;
    if prefix != [] {
      assert items[|items| - 2] == prefix[|prefix| - 1];
    }
  }

  /**
   * Up to glue texts, the output is exactly the first glue of every run
   * together with all other items, in their order: the merged glue keeps the
   * width, stretch and shrink of the first glue of its run.
   */
  lemma {:induction false} CollapsedKeepsRunStarts(items: seq<Item>)
    ensures EraseAll(Collapsed(items)) == EraseAll(RunStarts(items))
    decreases |items|
  {
    if items != [] {
      var prefix := items[..|items| - 1];
      var item := items[|items| - 1];
      assert prefix + [item] == items;
      var out := Collapsed(prefix);
      CollapsedKeepsRunStarts(prefix);
      RunStartsSnoc(prefix, item);
      assert Collapsed(items) == Step(out, item);
      if item.Glue? && EndsWithGlue(out) {
        EraseAllReplaceLast(out, Absorb(out[|out| - 1], item));
      } else {
        EraseAllSnoc(out, item);
        EraseAllSnoc(RunStarts(prefix), item);
      }
    }
  }

  predicate AllGlue(run: seq<Item>) {
    forall k :: 0 <= k < |run| ==> run[k].Glue?
  }

  /** The glue `g` after absorbing, one by one, every glue of `run`. */
  function MergeRun(g: Item, run: seq<Item>): (r: Item)
    requires g.Glue? && AllGlue(run)
    ensures r.Glue? && r.width == g.width && r.stretch == g.stretch && r.shrink == g.shrink
    decreases |run|
  {
    if run == [] then g
    else Absorb(MergeRun(g, run[..|run| - 1]), run[|run| - 1])
  }

  /** The texts of a run, a missing text counting as the empty string. */
  function RunTexts(run: seq<Item>): (r: seq<string>)
    requires AllGlue(run)
    ensures |r| == |run|
  {
    seq(|run|, k requires 0 <= k < |run| => run[k].text.GetOr(""))
  }

  /**
   * A run of glue after a non-glue (or at the start) collapses to one glue:
   * its first glue with the rest of the run absorbed.
   */
  lemma {:induction false} CollapsedRun(prefix: seq<Item>, g: Item, run: seq<Item>)
    requires !EndsWithGlue(prefix) && g.Glue? && AllGlue(run)
    ensures Collapsed(prefix + [g] + run) == Collapsed(prefix) + [MergeRun(g, run)]
    decreases |run|
  {
    var s := prefix + [g] + run;
    if run == [] {
      assert s == prefix + [g];
      assert s[..|s| - 1] == prefix;
    } else {
      var front := run[..|run| - 1];
      assert AllGlue(front);
      assert s[..|s| - 1] == prefix + [g] + front;
      CollapsedRun(prefix, g, front);
      var out := Collapsed(prefix) + [MergeRun(g, front)];
      assert out[..|out| - 1] == Collapsed(prefix);
    }
  }

  /**
   * The merged glue of a run whose first glue has a text carries that text
   * followed by the texts of the rest of the run, in order.
   */
  lemma {:induction false} MergeRunText(g: Item, run: seq<Item>)
    requires g.Glue? && AllGlue(run) && g.text.Some?
    ensures MergeRun(g, run).text == Some(g.text.value + Seqs.Concat(RunTexts(run)))
    decreases |run|
  {
    if run == [] {
      assert RunTexts(run) == [];
      assert g.text.value + "" == g.text.value;
    } else {
      var front := run[..|run| - 1];
      var last := run[|run| - 1];
      assert AllGlue(front);
      MergeRunText(g, front);
      var t := last.text.GetOr("");
      assert RunTexts(run) == RunTexts(front) + [t];
      Seqs.ConcatAppend(RunTexts(front), [t]);
      assert Seqs.Concat([t]) == t;
      var merged := MergeRun(g, front);
      assert MergeRun(g, run) == Absorb(merged, last);
      if last.text.None? {
        assert t == "";
        assert Seqs.Concat(RunTexts(run)) == Seqs.Concat(RunTexts(front));
      } else {
        assert (g.text.value + Seqs.Concat(RunTexts(front))) + t == g.text.value + (Seqs.Concat(RunTexts(front)) + t);
      }
    }
  }

  /** Two spaces in a row become one glue holding both. */
  lemma TwoSpaces(width: real, stretch: real, shrink: real)
    ensures var g := Glue(width, stretch, shrink, Some(" "));
      Collapsed([g, g]) == [Glue(width, stretch, shrink, Some("  "))]
  {
    var g := Glue(width, stretch, shrink, Some(" "));
    assert [g, g][..1] == [g];
    assert [g][..0] == [];
    assert Collapsed([g]) == [g];
    assert " " + " " == "  ";
  }

  /** Glue without text absorbing glue with text reads "undefined" first. */
  lemma UndefinedText(width: real, stretch: real, shrink: real, t: string)
    ensures var g := Glue(width, stretch, shrink, None);
      Collapsed([g, Glue(0.0, 0.0, 0.0, Some(t))]) == [Glue(width, stretch, shrink, Some("undefined" + t))]
  {
    var g := Glue(width, stretch, shrink, None);
    assert [g, Glue(0.0, 0.0, 0.0, Some(t))][..1] == [g];
    assert [g][..0] == [];
  }
}
