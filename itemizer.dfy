/**
 * The itemizer building blocks of src/utils/utils.ts: a word becomes boxes
 * (one per hyphenation fragment, with soft hyphens between them) and a run of
 * whitespace becomes glue (one glue when justified, Knuth and Plass's
 * glue/penalty/glue sandwich otherwise, "Breaking Paragraphs into Lines",
 * p. 1139).
 */
module Itemizer {
  import opened Wrappers
  import opened Items
  import Seqs

  datatype Align = Justify | Left | Right | Center

  /**
   * The options the building blocks read. `measure` and `hyphenate` are the
   * caller's functions; `hyphenate` is `None` when hyphenation is off.
   */
  datatype Options = Options(
    measure: string -> real,
    hyphenate: Option<string -> seq<string>>,
    onlyBreakOnWhitespace: bool,
    align: Align,
    hangingPunctuation: bool,
    softHyphenPenalty: real,
    glueStretchFactor: real,
    glueShrinkFactor: real,
    lineFinalSpacesInNonJustified: real)

  /** `getSpaceWidth`: the measured width of one space. */
  function SpaceWidth(options: Options): real {
    options.measure(" ")
  }

  /** `getLineFinalStretchInNonJustified`: the invisible slack of ragged lines. */
  function LineFinalStretch(options: Options): real {
    SpaceWidth(options) * options.lineFinalSpacesInNonJustified
  }

  /** The width a soft hyphen shows when its break is taken. */
  function HyphenWidth(options: Options): (r: real)
    ensures options.hangingPunctuation ==> r == 0.0
    ensures !options.hangingPunctuation ==> r == options.measure("-")
  {
    if options.hangingPunctuation then 0.0 else options.measure("-")
  }

  /**
   * `softHyphen(options)`: one flagged penalty when justified; otherwise a
   * slack group whose middle penalty is that flagged hyphen, so that the
   * line-final stretch only exists if the break is taken.
   */
  function SoftHyphen(options: Options): (r: seq<Item>)
    ensures options.align == Justify ==> r == [Penalty(HyphenWidth(options), options.softHyphenPenalty, true)]
    ensures options.align != Justify ==>
      && SlackGroup(r)
      && r[1].stretch == LineFinalStretch(options)
      && r[2] == Penalty(HyphenWidth(options), options.softHyphenPenalty, true)
    ensures forall i :: 0 <= i < |r| ==> !r[i].Box?
    ensures TotalWidth(r) == HyphenWidth(options) && TotalStretch(r) == 0.0 && TotalShrink(r) == 0.0
  {
    var hyphenWidth := HyphenWidth(options);
    if options.align == Justify then
      var r := [MakePenalty(hyphenWidth, options.softHyphenPenalty, true)];
      TotalsOfShort(r);
      r
    else
      var r := [
        MakePenalty(0.0, MAX_COST),
        MakeGlue(0.0, LineFinalStretch(options), 0.0),
        MakePenalty(hyphenWidth, options.softHyphenPenalty, true),
        MakeGlue(0.0, -LineFinalStretch(options), 0.0)
      ];
      SlackGroupTotals(r);
      r
  }

  /**
   * `textGlue(text, options)`. Whatever the alignment, the items add up to
   * one space: its width, its stretch and its shrink. Ragged text puts all
   * of the width after the breakable penalty, so a line ending there carries
   * no trailing space but the line-final stretch.
   */
  function TextGlue(text: string, options: Options): (r: seq<Item>)
    ensures TotalWidth(r) == SpaceWidth(options)
    ensures TotalStretch(r) == SpaceWidth(options) * options.glueStretchFactor
    ensures TotalShrink(r) == SpaceWidth(options) * options.glueShrinkFactor
    ensures options.align == Justify ==> |r| == 1 && r[0].Glue?
    ensures options.align != Justify ==>
      && |r| == 3
      && r[0].Glue? && r[0].width == 0.0
      && r[0].stretch == LineFinalStretch(options) + SpaceWidth(options) * options.glueStretchFactor
      && r[1] == Penalty(0.0, 0.0, false)
      && r[2].Glue? && r[2].width == SpaceWidth(options) && r[2].shrink == 0.0
      && r[2].stretch == -LineFinalStretch(options) && r[2].text == None
    ensures r[0].Glue? && (r[0].text.Some? <==> text != "") && (text != "" ==> r[0].text == Some(text))
  {
    var space := SpaceWidth(options);
    var spaceShrink := space * options.glueShrinkFactor;
    var spaceStretch := space * options.glueStretchFactor;
    if options.align == Justify then
      var r := [MakeGlue(space, spaceStretch, spaceShrink, Some(text))];
      TotalsOfShort(r);
      r
    else
      var r := [
        MakeGlue(0.0, LineFinalStretch(options) + spaceStretch, spaceShrink, Some(text)),
        MakePenalty(0.0, 0.0),
        MakeGlue(space, -LineFinalStretch(options), 0.0)
      ];
      TotalsOfShort(r);
      r
  }

  /**
   * The items of a hyphenated word: one box per fragment, measured, with a
   * soft hyphen between consecutive fragments and none after the last.
   */
  function FragmentItems(fragments: seq<string>, options: Options): seq<Item> {
    if fragments == [] then []
    else if |fragments| == 1 then [MakeBox(options.measure(fragments[0]), Some(fragments[0]))]
    else [MakeBox(options.measure(fragments[0]), Some(fragments[0]))] + SoftHyphen(options) + FragmentItems(fragments[1..], options)
  }

  /** Whether `textBox` splits the word with the hyphenation function. */
  predicate Hyphenates(options: Options) {
    options.hyphenate.Some? && !options.onlyBreakOnWhitespace
  }

  /** What `textBox` returns. */
  function WordItems(text: string, options: Options): seq<Item> {
    if Hyphenates(options) then FragmentItems(options.hyphenate.value(text), options)
    else [MakeBox(options.measure(text), Some(text))]
  }

  /** Appending a fragment appends a soft hyphen and that fragment's box. */
  lemma {:induction false} FragmentItemsSnoc(fragments: seq<string>, c: string, options: Options)
    requires fragments != []
    ensures FragmentItems(fragments + [c], options)
         == FragmentItems(fragments, options) + SoftHyphen(options) + [MakeBox(options.measure(c), Some(c))]
  {
    var f := fragments + [c];
    assert f[0] == fragments[0];
    assert f[1..] == fragments[1..] + [c];
    if |fragments| > 1 {
      FragmentItemsSnoc(fragments[1..], c, options);
    } else {
      assert f[1..] == [c];
    }
  }

  /**
   * The boxes of a hyphenated word are the fragments, in order, each with
   * its measured width: the soft hyphens contribute no box.
   */
  lemma {:induction false} FragmentItemsBoxes(fragments: seq<string>, options: Options)
    ensures BoxTexts(FragmentItems(fragments, options)) == fragments
    ensures forall i :: 0 <= i < |fragments| ==>
      Box(options.measure(fragments[i]), Some(fragments[i])) in FragmentItems(fragments, options)
  {
    var g := SoftHyphen(options);
    if |fragments| == 1 {
      assert BoxTexts([MakeBox(options.measure(fragments[0]), Some(fragments[0]))]) == [fragments[0]];
    } else if |fragments| > 1 {
      var head := [MakeBox(options.measure(fragments[0]), Some(fragments[0]))];
      var rest := FragmentItems(fragments[1..], options);
      FragmentItemsBoxes(fragments[1..], options);
      NoBoxTexts(g);
      BoxTextsAppend(head, g);
      BoxTextsAppend(head + g, rest);
      assert BoxTexts(head) == [fragments[0]];
      assert fragments == [fragments[0]] + fragments[1..];
      forall i | 0 <= i < |fragments|
        ensures Box(options.measure(fragments[i]), Some(fragments[i])) in FragmentItems(fragments, options)
      {
        if i > 0 {
          assert fragments[i] == fragments[1..][i - 1];
        }
      }
    }
  }

  lemma {:induction false} NoBoxTexts(items: seq<Item>)
    requires forall i :: 0 <= i < |items| ==> !items[i].Box?
    ensures BoxTexts(items) == []
  {
    if items != [] {
      NoBoxTexts(items[1..]);
    }
  }

  /**
   * Length of a hyphenated word's items: n boxes and n - 1 soft hyphens;
   * the last item is the last fragment's box.
   */
  lemma {:induction false} FragmentItemsShape(fragments: seq<string>, options: Options)
    requires fragments != []
    ensures |FragmentItems(fragments, options)| == |fragments| + (|fragments| - 1) * |SoftHyphen(options)|
    ensures var r := FragmentItems(fragments, options);
      r[|r| - 1] == Box(options.measure(fragments[|fragments| - 1]), Some(fragments[|fragments| - 1]))
    ensures FragmentItems(fragments, options)[0] == Box(options.measure(fragments[0]), Some(fragments[0]))
  {
    if |fragments| > 1 {
      FragmentItemsShape(fragments[1..], options);
    }
  }

  /**
   * `textBox(text, options)`. The boxes it produces reconstruct the word:
   * their texts are the hyphenation fragments (or the word itself), in order,
   * and the result never ends in a soft hyphen.
   */
  method TextBox(text: string, options: Options) returns (out: seq<Item>)
    ensures out == WordItems(text, options)
    ensures BoxTexts(out) == if Hyphenates(options) then options.hyphenate.value(text) else [text]
    ensures out != [] ==> out[|out| - 1].Box?
  {
    if options.hyphenate.Some? && !options.onlyBreakOnWhitespace {
      out := [];
      var chunks := options.hyphenate.value(text);
      var i := 0;
      while i < |chunks|
        invariant 0 <= i <= |chunks|
        invariant out == FragmentItems(chunks[..i], options) + (if 0 < i < |chunks| then SoftHyphen(options) else [])
      {
        var c := chunks[i];
        if i > 0 {
          FragmentItemsSnoc(chunks[..i], c, options);
        }
        assert chunks[..i + 1] == chunks[..i] + [c];
        out := out + [MakeBox(options.measure(c), Some(c))];
        if i < |chunks| - 1 {
          out := out + SoftHyphen(options);
        }
        i := i + 1;
      }
      assert chunks[..|chunks|] == chunks;
      FragmentItemsBoxes(chunks, options);
      if chunks != [] {
        FragmentItemsShape(chunks, options);
      }
    } else {
      out := [MakeBox(options.measure(text), Some(text))];
    }
  }

  /**
   * When the hyphenation function returns fragments that concatenate to the
   * word, the boxes of `textBox` spell the word again.
   */
  lemma WordItemsSpellWord(text: string, options: Options)
    requires Hyphenates(options) ==> Seqs.Concat(options.hyphenate.value(text)) == text
    ensures Seqs.Concat(BoxTexts(WordItems(text, options))) == text
  {
    if Hyphenates(options) {
      FragmentItemsBoxes(options.hyphenate.value(text), options);
    } else {
      assert BoxTexts([MakeBox(options.measure(text), Some(text))]) == [text];
      assert Seqs.Concat([text]) == text + Seqs.Concat([]);
    }
  }
}
