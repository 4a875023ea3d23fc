/**
 * Plain-text round trip through `lineStrings` (src/helpers/util.ts): a
 * sentence itemized as word boxes separated by space glue and closed by a
 * forced break, broken at any choice of spaces, gives back lines whose words,
 * joined with single spaces, are the sentence again.
 *
 * The itemizer that produces items from a string (splitTextIntoItems) is
 * not part of this model. PlainParagraph is a fixture built from the
 * helpers' `textBox`, `textGlue` and `forcedBreak`, not a model of that
 * itemizer's layout.
 */
module PlainTextLines {
  import opened Wrappers
  import opened Items
  import opened HelperUtil
  import Seqs
  import Validation

  /** A word that survives `lineStrings` unchanged. */
  predicate PlainWord(w: string) {
    w != "" && w != "-" && !IsJsWhitespace(w[0]) && !IsJsWhitespace(w[|w| - 1])
  }

  predicate PlainWords(words: seq<string>) {
    forall k :: 0 <= k < |words| ==> PlainWord(words[k])
  }

  /** The first word's box, then a space glue and a box for each further word. */
  function WordsAndSpaces(words: seq<string>, options: HelperOptions): (r: seq<Item>)
    requires words != []
    ensures |r| == 2 * |words| - 1
    decreases |words|
  {
    if |words| == 1 then [TextBox(words[0], options)]
    else [TextBox(words[0], options), TextGlue(" ", options)] + WordsAndSpaces(words[1..], options)
  }

  /** The fixture paragraph: the words and spaces, then a forced break. */
  function PlainParagraph(words: seq<string>, options: HelperOptions): (r: seq<Item>)
    requires words != []
    ensures |r| == 2 * |words|
  {
    WordsAndSpaces(words, options) + [ForcedBreak()]
  }

  /** Word boxes and spaces hold no penalty. */
  lemma {:induction false} NoPenalties(words: seq<string>, options: HelperOptions)
    requires words != []
    ensures forall k :: 0 <= k < |WordsAndSpaces(words, options)| ==> !WordsAndSpaces(words, options)[k].Penalty?
    decreases |words|
  {
    if |words| > 1 {
      NoPenalties(words[1..], options);
      var r := WordsAndSpaces(words, options);
      forall k | 2 <= k < |r|
        ensures r[k] == WordsAndSpaces(words[1..], options)[k - 2]
      {
      }
    }
  }

  /** A plain paragraph passes `validateItems`. */
  lemma PlainParagraphValid(words: seq<string>, options: HelperOptions)
    requires words != []
    ensures Validation.ValidateItems(PlainParagraph(words, options)) == Validation.Pass
  {
    var items := PlainParagraph(words, options);
    NoPenalties(words, options);
    forall i | 0 <= i < |items|
      ensures !Validation.PenalizedGlueAt(items, i)
    {
      if i + 2 < |items| {
        assert items[i + 1] == WordsAndSpaces(words, options)[i + 1];
      }
    }
  }

  /** The breakpoint that ends the line before word `c`: the space before it, or the final break. */
  function BreakBefore(c: nat): nat {
    if c == 0 then 0 else 2 * c - 1
  }

  lemma PiecesAppend(a: seq<Item>, b: seq<Item>)
    ensures Pieces(a + b) == Pieces(a) + Pieces(b)
  {
    var l, r := Pieces(a + b), Pieces(a) + Pieces(b);
    assert |l| == |r|;
    forall m | 0 <= m < |l|
      ensures l[m] == r[m]
    {
      if m < |a| {
        assert (a + b)[m] == a[m];
      } else {
        assert (a + b)[m] == b[m - |a|];
      }
    }
  }

  /** Dropping the first i words drops the first 2i items. */
  lemma {:induction false} WordsAndSpacesSuffix(words: seq<string>, options: HelperOptions, i: nat)
    requires i < |words|
    ensures WordsAndSpaces(words, options)[2 * i..] == WordsAndSpaces(words[i..], options)
    decreases i
  {
    if i > 0 {
      var all := WordsAndSpaces(words, options);
      assert all[2..] == WordsAndSpaces(words[1..], options);
      WordsAndSpacesSuffix(words[1..], options, i - 1);
      assert words[1..][i - 1..] == words[i..];
      assert all[2 * i..] == all[2..][2 * (i - 1)..];
    }
  }

  /** Keeping the first j words keeps the first 2j - 1 items. */
  lemma {:induction false} WordsAndSpacesPrefix(words: seq<string>, options: HelperOptions, j: nat)
    requires 1 <= j <= |words|
    ensures WordsAndSpaces(words, options)[..2 * j - 1] == WordsAndSpaces(words[..j], options)
    decreases j
  {
    if j == |words| {
      assert words[..j] == words;
    } else if j > 1 {
      var tail := WordsAndSpaces(words[1..], options);
      WordsAndSpacesPrefix(words[1..], options, j - 1);
      assert words[..j][1..] == words[1..][..j - 1];
      assert WordsAndSpaces(words, options)[..2 * j - 1] == [TextBox(words[0], options), TextGlue(" ", options)] + tail[..2 * (j - 1) - 1];
    }
  }

  /** Item 2j - 1 is the space before word j. */
  lemma {:induction false} SpaceBeforeWord(words: seq<string>, options: HelperOptions, j: nat)
    requires 1 <= j < |words|
    ensures WordsAndSpaces(words, options)[2 * j - 1] == TextGlue(" ", options)
    decreases j
  {
    if j > 1 {
      SpaceBeforeWord(words[1..], options, j - 1);
    }
  }

  /** No piece of plain words and spaces is a hyphen. */
  lemma {:induction false} NoHyphenPieces(words: seq<string>, options: HelperOptions)
    requires words != [] && PlainWords(words)
    ensures forall m :: 0 <= m < |Pieces(WordsAndSpaces(words, options))| ==> Pieces(WordsAndSpaces(words, options))[m] != Some("-")
    decreases |words|
  {
    if |words| > 1 {
      var head := [TextBox(words[0], options), TextGlue(" ", options)];
      NoHyphenPieces(words[1..], options);
      PiecesAppend(head, WordsAndSpaces(words[1..], options));
    }
  }

  /** Plain words joined by spaces start and end with a word character. */
  lemma {:induction false} JoinWithEnds(words: seq<string>)
    requires words != [] && PlainWords(words)
    ensures var s := Seqs.JoinWith(words, " ");
      s != [] && !IsJsWhitespace(s[0]) && !IsJsWhitespace(s[|s| - 1])
    decreases |words|
  {
    if |words| > 1 {
      assert PlainWords(words[1..]) by {
        forall k | 0 <= k < |words[1..]| ensures PlainWord(words[1..][k]) {
          assert words[1..][k] == words[k + 1];
        }
      }
      JoinWithEnds(words[1..]);
      assert PlainWord(words[0]);
    } else {
      assert PlainWord(words[0]);
    }
  }

  /** The pieces of word boxes and spaces join to the words separated by spaces. */
  lemma {:induction false} JoinWordsAndSpaces(words: seq<string>, options: HelperOptions)
    requires words != []
    ensures JoinPieces(Pieces(WordsAndSpaces(words, options))) == Seqs.JoinWith(words, " ")
    decreases |words|
  {
    if |words| == 1 {
      assert Pieces(WordsAndSpaces(words, options)) == [Some(words[0])];
      assert JoinPieces([Some(words[0])]) == words[0] + JoinPieces([]);
    } else {
      var head := [TextBox(words[0], options), TextGlue(" ", options)];
      var tail := WordsAndSpaces(words[1..], options);
      PiecesAppend(head, tail);
      assert Pieces(head) == [Some(words[0]), Some(" ")];
      JoinPiecesAppend([Some(words[0]), Some(" ")], Pieces(tail));
      assert JoinPieces([Some(words[0]), Some(" ")]) == words[0] + " " by {
        assert JoinPieces([Some(" ")]) == " " + JoinPieces([]);
      }
      JoinWordsAndSpaces(words[1..], options);
    }
  }

  /** The items from word i up to the space before word j. */
  lemma {:induction false} SliceBeforeSpace(words: seq<string>, options: HelperOptions, i: nat, j: nat)
    requires i < j < |words|
    ensures WordsAndSpaces(words, options)[2 * i .. 2 * j] == WordsAndSpaces(words[i..j], options) + [TextGlue(" ", options)]
  {
    var all := WordsAndSpaces(words, options);
    WordsAndSpacesSuffix(words, options, i);
    var v := words[i..];
    var from := WordsAndSpaces(v, options);
    var k := j - i;
    assert all[2 * i .. 2 * j] == from[..2 * k];
    WordsAndSpacesPrefix(v, options, k);
    SpaceBeforeWord(v, options, k);
    assert from[..2 * k] == from[..2 * k - 1] + [from[2 * k - 1]];
    assert v[..k] == words[i..j];
  }

  /** The items from word i up to the final break. */
  lemma {:induction false} SliceToEnd(words: seq<string>, options: HelperOptions, i: nat)
    requires i < |words|
    ensures PlainParagraph(words, options)[2 * i ..] == WordsAndSpaces(words[i..], options) + [ForcedBreak()]
  {
    var all := WordsAndSpaces(words, options);
    WordsAndSpacesSuffix(words, options, i);
    assert PlainParagraph(words, options)[2 * i ..] == all[2 * i..] + [ForcedBreak()];
  }

  /** The items from word i up to the break before word j. */
  lemma SliceOfParagraph(words: seq<string>, options: HelperOptions, i: nat, j: nat)
    requires i < j <= |words|
    ensures PlainParagraph(words, options)[2 * i .. 2 * j]
         == WordsAndSpaces(words[i..j], options) + [if j < |words| then TextGlue(" ", options) else ForcedBreak()]
  {
    var para := PlainParagraph(words, options);
    if j < |words| {
      SliceBeforeSpace(words, options, i, j);
      assert para[2 * i .. 2 * j] == WordsAndSpaces(words, options)[2 * i .. 2 * j];
    } else {
      SliceToEnd(words, options, i);
      assert para[2 * i .. 2 * j] == para[2 * i ..];
      assert words[i..] == words[i..j];
    }
  }

  /** The pieces a line between the breaks before words i and j takes. */
  lemma LineSliceOfWords(words: seq<string>, options: HelperOptions, i: nat, j: nat)
    requires i < j <= |words|
    ensures JsSlice(Pieces(PlainParagraph(words, options)), LineStart(BreakBefore(i)), BreakBefore(j) + 1)
         == Pieces(WordsAndSpaces(words[i..j], options)) + [if j < |words| then Some(" ") else Some("")]
  {
    var para := PlainParagraph(words, options);
    var pieces := Pieces(para);
    var lastItem := if j < |words| then TextGlue(" ", options) else ForcedBreak();
    assert JsSlice(pieces, LineStart(BreakBefore(i)), BreakBefore(j) + 1) == pieces[2 * i .. 2 * j];
    assert pieces[2 * i .. 2 * j] == Pieces(para[2 * i .. 2 * j]);
    SliceOfParagraph(words, options, i, j);
    PiecesAppend(WordsAndSpaces(words[i..j], options), [lastItem]);
    assert Pieces([lastItem]) == [ItemToString(lastItem)];
  }

  /** Dropping inner hyphens keeps pieces that hold none. */
  lemma DropNoHyphens(sub: seq<Option<string>>, last: Option<string>)
    requires forall m :: 0 <= m < |sub| ==> sub[m] != Some("-")
    ensures DropInnerHyphens(sub + [last]) == sub + [last]
  {
    var slice := sub + [last];
    assert slice[..|slice| - 1] == sub;
    KeepNonHyphensNoop(sub);
  }

  /** A line of plain words, closed by a space or the final break, joins to the words and that closing piece. */
  lemma JoinLineOfWords(ws: seq<string>, options: HelperOptions, last: Option<string>)
    requires ws != [] && PlainWords(ws)
    requires last.Some?
    ensures JoinPieces(DropInnerHyphens(Pieces(WordsAndSpaces(ws, options)) + [last])) == Seqs.JoinWith(ws, " ") + last.value
  {
    var sub := Pieces(WordsAndSpaces(ws, options));
    NoHyphenPieces(ws, options);
    DropNoHyphens(sub, last);
    JoinPiecesAppend(sub, [last]);
    JoinWordsAndSpaces(ws, options);
    assert JoinPieces([last]) == last.value + JoinPieces([]);
  }

  /** A line of plain words, closed by a space or the final break, reads as the words. */
  lemma LineTextOfWords(ws: seq<string>, options: HelperOptions, last: Option<string>)
    requires ws != [] && PlainWords(ws)
    requires last == Some(" ") || last == Some("")
    ensures LineText(Pieces(WordsAndSpaces(ws, options)) + [last]) == Seqs.JoinWith(ws, " ")
  {
    JoinLineOfWords(ws, options, last);
    var joined := Seqs.JoinWith(ws, " ");
    JoinWithEnds(ws);
    if last == Some(" ") {
      TrimDropsTrailingSpace(joined);
    } else {
      assert joined + "" == joined;
      TrimNoop(joined);
    }
  }

  lemma PlainWordsSlice(words: seq<string>, i: nat, j: nat)
    requires PlainWords(words)
    requires i <= j <= |words|
    ensures PlainWords(words[i..j])
  {
    forall k | 0 <= k < j - i
      ensures PlainWord(words[i..j][k])
    {
      assert words[i..j][k] == words[i + k];
    }
  }

  /** The line string between the breaks before words i and j is the text of those words' pieces. */
  lemma LineStringOfWords(words: seq<string>, options: HelperOptions, i: nat, j: nat, text: string)
    requires i < j <= |words|
    requires LineText(Pieces(WordsAndSpaces(words[i..j], options)) + [if j < |words| then Some(" ") else Some("")]) == text
    ensures LineString(Pieces(PlainParagraph(words, options)), BreakBefore(i), BreakBefore(j)) == text
  {
    LineSliceOfWords(words, options, i, j);
    LineStringOfSlice(Pieces(PlainParagraph(words, options)), BreakBefore(i), BreakBefore(j),
      Pieces(WordsAndSpaces(words[i..j], options)) + [if j < |words| then Some(" ") else Some("")], text);
  }

  lemma LineOfSlice(words: seq<string>, options: HelperOptions, i: nat, j: nat)
    requires i < j <= |words|
    requires PlainWords(words[i..j])
    ensures LineString(Pieces(PlainParagraph(words, options)), BreakBefore(i), BreakBefore(j)) == Seqs.JoinWith(words[i..j], " ")
  {
    var last := if j < |words| then Some(" ") else Some("");
    LineTextOfWords(words[i..j], options, last);
    LineStringOfWords(words, options, i, j, Seqs.JoinWith(words[i..j], " "));
  }

  /** The line between the breaks before words i and j holds words i to j - 1. */
  lemma LineOfWords(words: seq<string>, options: HelperOptions, i: nat, j: nat)
    requires PlainWords(words)
    requires i < j <= |words|
    ensures LineString(Pieces(PlainParagraph(words, options)), BreakBefore(i), BreakBefore(j)) == Seqs.JoinWith(words[i..j], " ")
  {
    PlainWordsSlice(words, i, j);
    LineOfSlice(words, options, i, j);
  }

  /** Word indices where lines begin, from 0 up to the word count. */
  predicate LineCuts(cuts: seq<nat>, n: nat) {
    && |cuts| >= 2 && cuts[0] == 0 && cuts[|cuts| - 1] == n
    && (forall s, t :: 0 <= s < t < |cuts| ==> cuts[s] < cuts[t])
    && (forall t :: 0 <= t < |cuts| ==> cuts[t] <= n)
  }

  /** The breakpoints that break the sentence before the words at `cuts`. */
  function CutBreakpoints(cuts: seq<nat>): (r: seq<nat>)
    ensures |r| == |cuts| && forall t :: 0 <= t < |cuts| ==> r[t] == BreakBefore(cuts[t])
  {
    seq(|cuts|, t requires 0 <= t < |cuts| => BreakBefore(cuts[t]))
  }

  /** The words of each line, joined by spaces. */
  function LinesOfCuts(words: seq<string>, cuts: seq<nat>): (r: seq<string>)
    requires forall t :: 0 <= t < |cuts| ==> cuts[t] <= |words|
    requires forall s, t :: 0 <= s < t < |cuts| ==> cuts[s] < cuts[t]
    ensures |r| == Seqs.Max(0, |cuts| - 1)
    ensures forall t :: 0 <= t < |r| ==> r[t] == Seqs.JoinWith(words[cuts[t]..cuts[t + 1]], " ")
  {
    if |cuts| < 2 then []
    else [Seqs.JoinWith(words[cuts[0]..cuts[1]], " ")] + LinesOfCuts(words, cuts[1..])
  }

  lemma {:induction false} JoinLines(words: seq<string>, cuts: seq<nat>)
    requires |cuts| >= 2
    requires forall t :: 0 <= t < |cuts| ==> cuts[t] <= |words|
    requires forall s, t :: 0 <= s < t < |cuts| ==> cuts[s] < cuts[t]
    ensures Seqs.JoinWith(LinesOfCuts(words, cuts), " ") == Seqs.JoinWith(words[cuts[0]..cuts[|cuts| - 1]], " ")
    decreases |cuts|
  {
    var lines := LinesOfCuts(words, cuts);
    if |cuts| > 2 {
      var rest := cuts[1..];
      JoinLines(words, rest);
      var a, b, c := cuts[0], cuts[1], cuts[|cuts| - 1];
      assert b < cuts[2] <= c;
      assert words[a..c] == words[a..b] + words[b..c];
      Seqs.JoinWithAppend(words[a..b], words[b..c], " ");
    }
  }

  /** Each line of a plain sentence broken at `cuts` holds the words between two cuts. */
  lemma LinesOfPlainParagraph(words: seq<string>, options: HelperOptions, cuts: seq<nat>)
    requires words != [] && PlainWords(words)
    requires LineCuts(cuts, |words|)
    ensures LineStrings(PlainParagraph(words, options), CutBreakpoints(cuts)) == LinesOfCuts(words, cuts)
  {
    var got := LineStrings(PlainParagraph(words, options), CutBreakpoints(cuts));
    var want := LinesOfCuts(words, cuts);
    forall t | 0 <= t < |cuts| - 1
      ensures got[t] == want[t]
    {
      LineOfWords(words, options, cuts[t], cuts[t + 1]);
    }
  }

  /**
   * Breaking a plain sentence before any increasing choice of words gives one
   * line per choice, each holding its words, and the lines joined with single
   * spaces are the sentence: no word is dropped or repeated.
   */
  lemma PlainRoundTrip(words: seq<string>, options: HelperOptions, cuts: seq<nat>)
    requires words != [] && PlainWords(words)
    requires LineCuts(cuts, |words|)
    ensures LineStrings(PlainParagraph(words, options), CutBreakpoints(cuts)) == LinesOfCuts(words, cuts)
    ensures Seqs.JoinWith(LineStrings(PlainParagraph(words, options), CutBreakpoints(cuts)), " ") == Seqs.JoinWith(words, " ")
  {
    LinesOfPlainParagraph(words, options, cuts);
    JoinLines(words, cuts);
    assert words[0..|words|] == words;
  }
}
