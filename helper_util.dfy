/**
 * src/helpers/util.ts: a second set of item constructors (glue takes width,
 * shrink, stretch), the conversion of items back to plain text, and the
 * reconstruction of line strings from breakpoints.
 *
 * `box`, `penalty`, `isSoftHyphen`, `forcedBreak` and `isForcedBreak` are the
 * same as in src/utils/utils.ts; the model uses the definitions of module
 * Items for them.
 */
module HelperUtil {
  import opened Wrappers
  import opened Items
  import Seqs

  /** The options these helpers read; `measure` must be present (`measureFn!`). */
  datatype HelperOptions = HelperOptions(
    measure: string -> real,
    hangingPunctuation: bool,
    softHyphenationPenalty: Option<real>)

  /**
   * `glue(width, shrink, stretch, text?)`: shrink comes before stretch here,
   * and the text is stored as given.
   */
  function MakeGlue(width: real, shrink: real, stretch: real, text: Option<string> := None): (r: Item)
    ensures r.Glue? && r.width == width && r.shrink == shrink && r.stretch == stretch && r.text == text
  {
    Glue(width, stretch, shrink, text)
  }

  /** Both glue constructors build the same glue from the same numbers. */
  lemma GlueArgumentOrders(width: real, stretch: real, shrink: real, text: string)
    requires text != ""
    ensures MakeGlue(width, shrink, stretch, Some(text)) == Items.MakeGlue(width, stretch, shrink, Some(text))
  {
  }

  /** `textBox(text, options)`: one box holding the measured text. */
  function TextBox(text: string, options: HelperOptions): (r: Item)
    ensures r == Box(options.measure(text), Some(text))
  {
    MakeBox(options.measure(text), Some(text))
  }

  /** `textGlue(text, options)`: a space that never shrinks and stretches to three spaces. */
  function TextGlue(text: string, options: HelperOptions): (r: Item)
    ensures r.Glue? && r.text == Some(text)
    ensures r.width == options.measure(" ") && r.shrink == 0.0 && r.stretch == 2.0 * r.width
  {
    var spaceWidth := options.measure(" ");
    MakeGlue(spaceWidth, 0.0, spaceWidth * 2.0, Some(text))
  }

  /**
   * `softHyphen(options)`: one flagged penalty; its cost falls back to the
   * soft-hyphen penalty class (defined in a file not part of this model,
   * hence the parameter) only when the option is absent.
   */
  function SoftHyphen(options: HelperOptions, softHyphenClassCost: real): (r: Item)
    ensures IsSoftHyphen(Some(r))
    ensures r.width == (if options.hangingPunctuation then 0.0 else options.measure("-"))
    ensures r.cost == (if options.softHyphenationPenalty.Some? then options.softHyphenationPenalty.value else softHyphenClassCost)
  {
    var hyphenWidth := if options.hangingPunctuation then 0.0 else options.measure("-");
    MakePenalty(hyphenWidth, options.softHyphenationPenalty.GetOr(softHyphenClassCost), true)
  }

  /**
   * `removeGlueFromEndOfParagraphs` of this file: drops the glue whose
   * stretch is MAX_COST (the paragraph-end glue of this variant).
   */
  function RemoveGlueFromEndOfParagraphs(items: seq<Item>): (r: seq<Item>)
    ensures forall i :: 0 <= i < |r| ==> !IsGlueWithStretch(r[i], MAX_COST)
    ensures |r| + CountGlueWithStretch(items, MAX_COST) == |items|
    ensures forall x :: x in items && !IsGlueWithStretch(x, MAX_COST) ==> x in r
  {
    RemoveGlueWithStretch(items, MAX_COST)
  }

  /**
   * `itemToString(item)`: a box's text (`None` for JavaScript's `undefined`),
   * a space for glue, and for a penalty a hyphen exactly when it is flagged.
   */
  function ItemToString(item: Item): (r: Option<string>)
    ensures r.None? <==> item.Box? && item.text.None?
    ensures !item.Box? ==> r.Some? && |r.value| <= 1
    ensures item.Penalty? ==> (r == Some("-") <==> IsSoftHyphen(Some(item)))
    ensures item.Glue? ==> r == Some(" ")
    ensures item.Box? ==> r == item.text
    ensures item.Penalty? && !item.flagged ==> r == Some("")
  {
    match item
    case Box(_, text) => text
    case Glue(_, _, _, _) => Some(" ")
    case Penalty(_, _, flagged) => if flagged then Some("-") else Some("")
  }

  /** `items.map(itemToString)`. */
  function Pieces(items: seq<Item>): (r: seq<Option<string>>)
    ensures |r| == |items| && forall i :: 0 <= i < |items| ==> r[i] == ItemToString(items[i])
  {
    if items == [] then [] else [ItemToString(items[0])] + Pieces(items[1..])
  }

  /**
   * The sliding windows of width `width`, one per start position that
   * leaves room for a whole window.
   */
  function Windows<T>(xs: seq<T>, width: nat): (r: seq<seq<T>>)
    ensures |r| == Seqs.Max(0, |xs| - width + 1)
    ensures forall i :: 0 <= i < |r| ==> i + width <= |xs| && r[i] == xs[i..i + width]
    decreases |xs|
  {
    if |xs| < width then []
    else if xs == [] then [[]]
    else
      var rest := Windows(xs[1..], width);
      assert forall i :: 0 <= i < |rest| ==> rest[i] == xs[i + 1..i + 1 + width];
      [xs[..width]] + rest
  }

  /** `chunk(breakpoints, width)`: the loop that pushes every window. */
  method Chunk<T>(breakpoints: seq<T>, width: nat) returns (chunks: seq<seq<T>>)
    ensures |chunks| == Seqs.Max(0, |breakpoints| - width + 1)
    ensures forall i :: 0 <= i < |chunks| ==> i + width <= |breakpoints| && chunks[i] == breakpoints[i..i + width]
    ensures chunks == Windows(breakpoints, width)
  {
    chunks := [];
    var i := 0;
    while i <= |breakpoints| - width
      invariant 0 <= i <= Seqs.Max(0, |breakpoints| - width + 1)
      invariant |chunks| == i
      invariant forall j :: 0 <= j < i ==> chunks[j] == breakpoints[j..j + width]
    {
      chunks := chunks + [breakpoints[i..i + width]];
      i := i + 1;
    }
    var windows := Windows(breakpoints, width);
    assert |chunks| == |windows|;
    assert forall j :: 0 <= j < |chunks| ==> chunks[j] == windows[j];
  }

  /** `Array.prototype.slice(from, to)` with non-negative bounds: clamped, possibly empty. */
  function JsSlice<T>(s: seq<T>, from: nat, to: nat): (r: seq<T>)
    ensures from <= to <= |s| ==> r == s[from..to]
    ensures to <= from ==> r == []
    ensures from <= |s| < to ==> r == s[from..]
    ensures |s| < from ==> r == []
  {
    var lo := if from < |s| then from else |s|;
    var hi := if to < |s| then to else |s|;
    if lo < hi then s[lo..hi] else []
  }

  /** The non-hyphen pieces of `pieces`, in order. */
  function KeepNonHyphens(pieces: seq<Option<string>>): (r: seq<Option<string>>)
    ensures |r| <= |pieces|
    ensures forall j :: 0 <= j < |r| ==> r[j] != Some("-")
    ensures forall x :: x in r ==> x in pieces
    ensures forall x :: x in pieces && x != Some("-") ==> x in r
  {
    if pieces == [] then []
    else
      var rest := KeepNonHyphens(pieces[1..]);
      assert forall x :: x in pieces ==> x == pieces[0] || x in pieces[1..];
      if pieces[0] == Some("-") then rest else [pieces[0]] + rest
  }

  /** A single piece is kept exactly when it is not "-". */
  lemma KeepNonHyphensOne(x: Option<string>)
    ensures KeepNonHyphens([x]) == if x == Some("-") then [] else [x]
  {
    assert [x][1..] == [];
  }

  /** The filter distributes over concatenation: kept pieces keep their order and multiplicity. */
  lemma {:induction false} KeepNonHyphensAppend(a: seq<Option<string>>, b: seq<Option<string>>)
    ensures KeepNonHyphens(a + b) == KeepNonHyphens(a) + KeepNonHyphens(b)
    decreases |a|
  {
    if a == [] {
      assert a + b == b;
    } else {
      assert (a + b)[0] == a[0];
      assert (a + b)[1..] == a[1..] + b;
      KeepNonHyphensAppend(a[1..], b);
    }
  }

  lemma {:induction false} KeepNonHyphensNoop(pieces: seq<Option<string>>)
    requires forall j :: 0 <= j < |pieces| ==> pieces[j] != Some("-")
    ensures KeepNonHyphens(pieces) == pieces
  {
    if pieces != [] {
      KeepNonHyphensNoop(pieces[1..]);
    }
  }

  /**
   * `.filter((w, i, ary) => w !== '-' || i === ary.length - 1)`: every
   * hyphen but the last piece goes, the rest stays in order.
   */
  function DropInnerHyphens(pieces: seq<Option<string>>): (r: seq<Option<string>>)
    ensures |r| <= |pieces|
    ensures forall j :: 0 <= j < |r| - 1 ==> r[j] != Some("-")
    ensures pieces != [] ==> r != [] && r[|r| - 1] == pieces[|pieces| - 1]
    ensures pieces == [] ==> r == []
    ensures forall x :: x in r ==> x in pieces
    ensures pieces != [] ==> r == KeepNonHyphens(pieces[..|pieces| - 1]) + [pieces[|pieces| - 1]]
  {
    if pieces == [] then []
    else KeepNonHyphens(pieces[..|pieces| - 1]) + [pieces[|pieces| - 1]]
  }

  /** `Array.prototype.join('')`; `undefined` joins as the empty string. */
  function JoinPieces(pieces: seq<Option<string>>): string {
    if pieces == [] then "" else pieces[0].GetOr("") + JoinPieces(pieces[1..])
  }

  lemma {:induction false} JoinPiecesAppend(a: seq<Option<string>>, b: seq<Option<string>>)
    ensures JoinPieces(a + b) == JoinPieces(a) + JoinPieces(b)
  {
    if a == [] {
      assert a + b == b;
    } else {
      assert (a + b)[1..] == a[1..] + b;
      JoinPiecesAppend(a[1..], b);
    }
  }

  /** The characters JavaScript's `String.prototype.trim` removes. */
  predicate IsJsWhitespace(c: char) {
    c in {'\t', '\n', '\U{000B}', '\U{000C}', '\r', ' ', '\U{00A0}', '\U{1680}',
          '\U{2000}', '\U{2001}', '\U{2002}', '\U{2003}', '\U{2004}', '\U{2005}',
          '\U{2006}', '\U{2007}', '\U{2008}', '\U{2009}', '\U{200A}', '\U{2028}',
          '\U{2029}', '\U{202F}', '\U{205F}', '\U{3000}', '\U{FEFF}'}
  }

  /** Length of the whitespace prefix of `s`. */
  function LeadingWhitespace(s: string): (n: nat)
    ensures n <= |s|
    ensures forall i :: 0 <= i < n ==> IsJsWhitespace(s[i])
    ensures n < |s| ==> !IsJsWhitespace(s[n])
  {
    if s == [] || !IsJsWhitespace(s[0]) then 0 else 1 + LeadingWhitespace(s[1..])
  }

  /** Length of the whitespace suffix of `s`. */
  function TrailingWhitespace(s: string): (n: nat)
    ensures n <= |s|
    ensures forall i :: |s| - n <= i < |s| ==> IsJsWhitespace(s[i])
    ensures n < |s| ==> !IsJsWhitespace(s[|s| - n - 1])
  {
    if s == [] || !IsJsWhitespace(s[|s| - 1]) then 0 else 1 + TrailingWhitespace(s[..|s| - 1])
  }

  /**
   * `String.prototype.trim`: the infix left after removing whitespace from
   * both ends; it neither starts nor ends with whitespace.
   */
  function Trim(s: string): (r: string)
    ensures exists lo, hi ::
              && 0 <= lo <= hi <= |s| && r == s[lo..hi]
              && (forall i :: 0 <= i < lo ==> IsJsWhitespace(s[i]))
              && (forall i :: hi <= i < |s| ==> IsJsWhitespace(s[i]))
    ensures r != [] ==> !IsJsWhitespace(r[0]) && !IsJsWhitespace(r[|r| - 1])
  {
    var lo := LeadingWhitespace(s);
    var n := TrailingWhitespace(s[lo..]);
    TrailingWhitespaceOfSuffix(s, lo);
    s[lo..|s| - n]
  }

  /** The trailing whitespace of a suffix, read in the whole string. */
  lemma TrailingWhitespaceOfSuffix(s: string, lo: nat)
    requires lo <= |s|
    ensures var n := TrailingWhitespace(s[lo..]);
      && lo <= |s| - n
      && (forall i :: |s| - n <= i < |s| ==> IsJsWhitespace(s[i]))
      && (lo < |s| - n ==> !IsJsWhitespace(s[|s| - n - 1]))
  {
    var rest := s[lo..];
    var n := TrailingWhitespace(rest);
    forall i | |s| - n <= i < |s|
      ensures IsJsWhitespace(s[i])
    {
      assert s[i] == rest[i - lo];
    }
    if lo < |s| - n {
      assert s[|s| - n - 1] == rest[|rest| - n - 1];
    }
  }

  /** A string without whitespace at its ends is its own trim. */
  lemma TrimNoop(s: string)
    requires s != [] ==> !IsJsWhitespace(s[0]) && !IsJsWhitespace(s[|s| - 1])
    ensures Trim(s) == s
  {
    if s != [] {
      assert LeadingWhitespace(s) == 0;
      assert TrailingWhitespace(s) == 0;
    }
  }

  /** Trailing whitespace goes whatever its amount. */
  lemma {:induction false} TrimDropsTrailingSpace(s: string)
    requires s != [] && !IsJsWhitespace(s[0]) && !IsJsWhitespace(s[|s| - 1])
    ensures Trim(s + " ") == s
  {
    var t := s + " ";
    assert LeadingWhitespace(t) == 0;
    assert t[..|t| - 1] == s;
    assert TrailingWhitespace(s) == 0;
    assert TrailingWhitespace(t) == 1;
  }

  /** Where line `(a, b)` starts: item 0 for a = 0, else just after the break. */
  function LineStart(pos: nat): nat {
    if pos == 0 then 0 else pos + 1
  }

  /**
   * The text of the line between breakpoints `a` and `b`: the pieces from
   * LineStart(a) to `b` inclusive, inner hyphens dropped, joined and trimmed.
   */
  function LineString(pieces: seq<Option<string>>, a: nat, b: nat): string {
    LineText(JsSlice(pieces, LineStart(a), b + 1))
  }

  /** A line string is the text of the pieces its breakpoints select. */
  lemma LineStringOfSlice(pieces: seq<Option<string>>, a: nat, b: nat, slice: seq<Option<string>>, text: string)
    requires JsSlice(pieces, LineStart(a), b + 1) == slice
    requires LineText(slice) == text
    ensures LineString(pieces, a, b) == text
  {
  }

  /** The text of a line's pieces: inner hyphens dropped, joined and trimmed. */
  function LineText(slice: seq<Option<string>>): string {
    Trim(JoinPieces(DropInnerHyphens(slice)))
  }

  /**
   * `lineStrings(items, breakpoints)`: one string per pair of consecutive
   * breakpoints.
   */
  function LineStrings(items: seq<Item>, breakpoints: seq<nat>): (r: seq<string>)
    ensures |r| == Seqs.Max(0, |breakpoints| - 1)
    ensures forall k :: 0 <= k < |r| ==> r[k] == LineString(Pieces(items), breakpoints[k], breakpoints[k + 1])
    ensures forall k :: 0 <= k < |r| && r[k] != [] ==> !IsJsWhitespace(r[k][0]) && !IsJsWhitespace(r[k][|r[k]| - 1])
  {
    var pieces := Pieces(items);
    var pairs := Windows(breakpoints, 2);
    seq(|pairs|, k requires 0 <= k < |pairs| => LineString(pieces, pairs[k][0], pairs[k][1]))
  }

  /** Trimming keeps a last character that is not whitespace. */
  lemma TrimKeepsLast(s: string)
    requires s != [] && !IsJsWhitespace(s[|s| - 1])
    ensures var t := Trim(s); t != [] && t[|t| - 1] == s[|s| - 1]
  {
    var lo := LeadingWhitespace(s);
    assert lo < |s|;
    var rest := s[lo..];
    assert rest[|rest| - 1] == s[|s| - 1];
    assert TrailingWhitespace(rest) == 0;
  }

  /** Pieces that end with a hyphen give a line text that ends with one. */
  lemma LineTextEndsWithHyphen(slice: seq<Option<string>>)
    requires slice != [] && slice[|slice| - 1] == Some("-")
    ensures var line := LineText(slice); |line| > 0 && line[|line| - 1] == '-'
  {
    var kept := DropInnerHyphens(slice);
    assert kept == kept[..|kept| - 1] + [Some("-")];
    JoinPiecesAppend(kept[..|kept| - 1], [Some("-")]);
    assert JoinPieces([Some("-")]) == "-" + JoinPieces([]);
    var joined := JoinPieces(kept);
    assert joined[|joined| - 1] == '-';
    assert !IsJsWhitespace('-');
    TrimKeepsLast(joined);
  }

  /**
   * A line that ends at a flagged penalty shows its hyphen at the end; inside
   * the line a flagged penalty shows nothing.
   */
  lemma HyphenAtLineEnd(items: seq<Item>, a: nat, b: nat)
    requires LineStart(a) <= b < |items|
    requires IsSoftHyphen(Some(items[b]))
    ensures var line := LineString(Pieces(items), a, b); |line| > 0 && line[|line| - 1] == '-'
  {
    var pieces := Pieces(items);
    var item := items[b];
    assert ItemToString(item) == Some("-");
    assert pieces[b] == ItemToString(item);
    var slice := pieces[LineStart(a)..b + 1];
    assert slice[|slice| - 1] == pieces[b];
    LineTextEndsWithHyphen(slice);
    LineStringOfSlice(pieces, a, b, slice, LineText(slice));
  }
}
