/**
 * `getElementLineWidth` (src/html/lineWidthDOM.ts): the line widths of a
 * paragraph element, narrowed on the lines that floating elements overlap.
 *
 * The computed style and the bounding rectangles the browser reports are
 * inputs here, already parsed to numbers (`parseFloat`/`parseInt` giving 0
 * where JavaScript gives NaN, which the source treats as falsy). The lookup
 * is `getLineWidth` of module LineWidths.
 */
module LineWidthDom {
  import opened Wrappers
  import opened LineWidths

  datatype Rect = Rect(left: real, right: real, top: real, bottom: real, width: real)

  datatype FloatSide = FloatLeft | FloatRight | FloatNone

  /** A floating element: its rectangle, its `float` and its margins. */
  datatype FloatingElement = FloatingElement(
    rect: Rect, float: FloatSide,
    marginTop: real, marginBottom: real, marginLeft: real, marginRight: real)

  /** The paragraph's computed style, as numbers. */
  datatype ElementStyle = ElementStyle(
    width: real, borderBox: bool, paddingLeft: real, paddingRight: real,
    textIndent: int, lineHeight: real)

  /** The lines a floating element overlaps and by how much it narrows them. */
  datatype Placement = Placement(firstLine: int, lastLine: int, xAxisOverlap: real)

  /** The element width, less the paddings under `box-sizing: border-box`. */
  function DefaultLineWidth(style: ElementStyle): (r: real)
    ensures !style.borderBox ==> r == style.width
    ensures style.borderBox ==> r + style.paddingLeft + style.paddingRight == style.width
  {
    if style.borderBox then style.width - style.paddingLeft - style.paddingRight else style.width
  }

  /** Only the first line is indented, and only by a non-zero indent. */
  function InitialEntries(style: ElementStyle): (r: map<nat, real>)
    ensures r.Keys <= {0}
    ensures 0 in r <==> style.textIndent != 0
    ensures 0 in r ==> r[0] == DefaultLineWidth(style) - style.textIndent as real
  {
    if style.textIndent != 0 then map[0 := DefaultLineWidth(style) - style.textIndent as real] else map[]
  }

  /** `options.ignoreFloatingElements`, when it is a function, keeps the elements it accepts. */
  function Filtered(floating: Option<seq<FloatingElement>>, ignore: Option<FloatingElement -> bool>): (r: Option<seq<FloatingElement>>)
    ensures r.Some? <==> floating.Some?
    ensures r.Some? && ignore.None? ==> r == floating
    ensures r.Some? ==> |r.value| <= |floating.value| && forall f :: f in r.value ==> f in floating.value
    ensures r.Some? && ignore.Some? ==> forall f :: f in r.value ==> ignore.value(f)
  {
    match floating
    case None => None
    case Some(fs) =>
      match ignore
      case None => floating
      case Some(keep) => Some(Keep(fs, keep))
  }

  function Keep(fs: seq<FloatingElement>, keep: FloatingElement -> bool): (r: seq<FloatingElement>)
    ensures |r| <= |fs|
    ensures forall f :: f in r ==> f in fs && keep(f)
    ensures forall f :: f in fs && keep(f) ==> f in r
  {
    if fs == [] then []
    else
      var rest := Keep(fs[1..], keep);
      assert forall f :: f in fs ==> f == fs[0] || f in fs[1..];
      (if keep(fs[0]) then [fs[0]] else []) + rest
  }

  /** One float more: `filter` keeps it at the end exactly when it is accepted, so the input order survives. */
  lemma {:induction false} KeepSnoc(fs: seq<FloatingElement>, f: FloatingElement, keep: FloatingElement -> bool)
    ensures Keep(fs + [f], keep) == Keep(fs, keep) + (if keep(f) then [f] else [])
  {
    if fs == [] {
      assert Keep([f], keep) == (if keep(f) then [f] else []) + Keep([], keep);
    } else {
      assert (fs + [f])[0] == fs[0];
      assert (fs + [f])[1..] == fs[1..] + [f];
      KeepSnoc(fs[1..], f, keep);
    }
  }

  /**
   * How far the element's margin box reaches into the paragraph from its
   * side, and the lines from its top margin edge to its bottom margin edge.
   */
  function PlacementOf(paragraph: Rect, f: FloatingElement, lineHeight: real): (r: Placement)
    requires lineHeight != 0.0
    ensures f.float == FloatNone ==> r.xAxisOverlap == 0.0
    ensures f.float == FloatRight ==> r.xAxisOverlap == (paragraph.left + paragraph.width) - (f.rect.left - f.marginLeft)
    ensures f.float == FloatLeft ==> r.xAxisOverlap == (f.rect.right + f.marginRight) - (paragraph.right - paragraph.width)
    ensures r.firstLine as real <= (f.rect.top - f.marginTop - paragraph.top) / lineHeight < r.firstLine as real + 1.0
    ensures r.lastLine as real <= (f.rect.bottom + f.marginBottom - paragraph.top) / lineHeight < r.lastLine as real + 1.0
  {
    var overlap :=
      match f.float
      case FloatRight => paragraph.width - (f.rect.left - f.marginLeft - paragraph.left)
      case FloatLeft => paragraph.width - (paragraph.right - f.rect.right - f.marginRight)
      case FloatNone => 0.0;
    Placement(
      ((f.rect.top - f.marginTop - paragraph.top) / lineHeight).Floor,
      ((f.rect.bottom + f.marginBottom - paragraph.top) / lineHeight).Floor,
      overlap)
  }

  /** The width of `line` in the table `m` with default `d`. */
  function WidthIn(m: map<nat, real>, d: real, line: nat): real {
    GetLineWidth(Sparse(m, d), line)
  }

  /** The loop over lines `first` .. `next - 1`: each line that is not negative is narrowed. */
  function ApplyLines(m: map<nat, real>, d: real, first: int, next: int, overlap: real): map<nat, real>
    requires first <= next
    decreases next - first
  {
    if next == first then m
    else
      var prev := ApplyLines(m, d, first, next - 1, overlap);
      if next - 1 < 0 then prev else prev[next - 1 := WidthIn(prev, d, next - 1) - overlap]
  }

  /** One floating element: nothing when it ends above the paragraph, else its lines. */
  function ApplyFloat(m: map<nat, real>, d: real, p: Placement): map<nat, real> {
    if p.lastLine < 0 || p.lastLine < p.firstLine then m
    else ApplyLines(m, d, p.firstLine, p.lastLine + 1, p.xAxisOverlap)
  }

  /** The floating elements in order. */
  function ApplyFloats(m: map<nat, real>, d: real, ps: seq<Placement>): map<nat, real>
    decreases |ps|
  {
    if ps == [] then m
    else ApplyFloat(ApplyFloats(m, d, ps[..|ps| - 1]), d, ps[|ps| - 1])
  }

  function Placements(paragraph: Rect, fs: seq<FloatingElement>, lineHeight: real): (r: seq<Placement>)
    requires lineHeight != 0.0
    ensures |r| == |fs| && forall i :: 0 <= i < |fs| ==> r[i] == PlacementOf(paragraph, fs[i], lineHeight)
  {
    seq(|fs|, i requires 0 <= i < |fs| => PlacementOf(paragraph, fs[i], lineHeight))
  }

  /** The entries `getElementLineWidth` returns beside its default. */
  function ElementEntries(paragraph: Rect, style: ElementStyle, floating: Option<seq<FloatingElement>>,
                          ignore: Option<FloatingElement -> bool>): map<nat, real>
  {
    var fs := Filtered(floating, ignore);
    var init := InitialEntries(style);
    if fs.Some? && |fs.value| > 0 && style.lineHeight != 0.0 then
      ApplyFloats(init, DefaultLineWidth(style), Placements(paragraph, fs.value, style.lineHeight))
    else init
  }

  /** `getElementLineWidth(paragraphElement, floatingElements, options)`. */
  method GetElementLineWidth(paragraph: Rect, style: ElementStyle, floating: Option<seq<FloatingElement>>,
                             ignore: Option<FloatingElement -> bool>)
    returns (lineWidths: LineWidth)
    ensures lineWidths == Sparse(ElementEntries(paragraph, style, floating, ignore), DefaultLineWidth(style))
  {
    var floatingElements := floating;
    if ignore.Some? && floating.Some? {
      floatingElements := Some(Keep(floating.value, ignore.value));
    }
    var defaultLineWidth := style.width;
    if style.borderBox {
      defaultLineWidth := defaultLineWidth - style.paddingLeft;
      defaultLineWidth := defaultLineWidth - style.paddingRight;
    }
    assert floatingElements == Filtered(floating, ignore);
    assert defaultLineWidth == DefaultLineWidth(style);
    var entries: map<nat, real> := map[];
    var indentationOfFirstLine := style.textIndent;
    if indentationOfFirstLine != 0 {
      entries := entries[0 := defaultLineWidth - indentationOfFirstLine as real];
    }
    assert entries == InitialEntries(style);
    if floatingElements.Some? && |floatingElements.value| > 0 {
      var lh := style.lineHeight;
      if lh != 0.0 {
        var fs := floatingElements.value;
        ghost var ps := Placements(paragraph, fs, lh);
        var f := 0;
        while f < |fs|
          invariant 0 <= f <= |fs|
          invariant entries == ApplyFloats(InitialEntries(style), defaultLineWidth, ps[..f])
        {
          entries := NarrowForFloat(entries, defaultLineWidth, PlacementOf(paragraph, fs[f], lh));
          assert ps[..f + 1][..f] == ps[..f];
          f := f + 1;
        }
        assert ps[..|fs|] == ps;
      }
    }
    lineWidths := Sparse(entries, defaultLineWidth);
  }

  /** The `forEach` callback for one floating element, once its placement is known. */
  method NarrowForFloat(entries: map<nat, real>, defaultLineWidth: real, p: Placement) returns (r: map<nat, real>)
    ensures r == ApplyFloat(entries, defaultLineWidth, p)
  {
    r := entries;
    if p.lastLine < 0 {
      return;
    }
    var lineIndex := p.firstLine;
    while lineIndex <= p.lastLine
      invariant p.firstLine <= lineIndex
      invariant lineIndex <= p.lastLine + 1 || lineIndex == p.firstLine
      invariant r == ApplyLines(entries, defaultLineWidth, p.firstLine, lineIndex, p.xAxisOverlap)
      decreases p.lastLine + 1 - lineIndex
    {
      if lineIndex >= 0 {
        r := r[lineIndex := GetLineWidth(Sparse(r, defaultLineWidth), lineIndex) - p.xAxisOverlap];
      }
      lineIndex := lineIndex + 1;
    }
  }

  // ----- what the narrowing does -----

  /**
   * Over lines `first` .. `next - 1`, every non-negative line is narrowed by
   * `overlap` from the width it had before, and every other line keeps its
   * entry, or its absence.
   */
  lemma {:induction false} ApplyLinesAt(m: map<nat, real>, d: real, first: int, next: int, overlap: real, k: nat)
    requires first <= next
    ensures first <= k < next ==>
      k in ApplyLines(m, d, first, next, overlap) && ApplyLines(m, d, first, next, overlap)[k] == WidthIn(m, d, k) - overlap
    ensures !(first <= k < next) ==>
      (k in ApplyLines(m, d, first, next, overlap) <==> k in m) && (k in m ==> ApplyLines(m, d, first, next, overlap)[k] == m[k])
    decreases next - first
  {
    if next > first {
      ApplyLinesAt(m, d, first, next - 1, overlap, k);
      if k == next - 1 {
        var prev := ApplyLines(m, d, first, next - 1, overlap);
        assert WidthIn(prev, d, k) == WidthIn(m, d, k);
      }
    }
  }

  /** A floating element narrows exactly the lines it overlaps that are not above the paragraph. */
  lemma FloatNarrowsItsLines(m: map<nat, real>, d: real, p: Placement, k: nat)
    ensures p.firstLine <= k <= p.lastLine ==>
      k in ApplyFloat(m, d, p) && ApplyFloat(m, d, p)[k] == WidthIn(m, d, k) - p.xAxisOverlap
    ensures !(p.firstLine <= k <= p.lastLine) ==>
      (k in ApplyFloat(m, d, p) <==> k in m) && (k in m ==> ApplyFloat(m, d, p)[k] == m[k])
  {
    if !(p.lastLine < 0 || p.lastLine < p.firstLine) {
      ApplyLinesAt(m, d, p.firstLine, p.lastLine + 1, p.xAxisOverlap, k);
    }
  }

  /**
   * Two elements over the same line narrow it twice, unless the first one
   * brings it to exactly 0, which the lookup reads as "no entry" and
   * replaces by the default.
   */
  lemma OverlapsAccumulate(m: map<nat, real>, d: real, p: Placement, q: Placement, line: nat)
    requires p.firstLine <= line <= p.lastLine && q.firstLine <= line <= q.lastLine
    ensures var once := WidthIn(m, d, line) - p.xAxisOverlap;
      line in ApplyFloats(m, d, [p, q]) && ApplyFloats(m, d, [p, q])[line] == (if once != 0.0 then once else d) - q.xAxisOverlap
  {
    var r1 := ApplyFloat(m, d, p);
    FloatNarrowsItsLines(m, d, p, line);
    FloatNarrowsItsLines(r1, d, q, line);
    assert [p, q][..1] == [p];
    assert [p][..0] == [];
    assert ApplyFloats(m, d, [p]) == r1;
    assert ApplyFloats(m, d, [p, q]) == ApplyFloat(r1, d, q);
  }

  /** Without floating elements, or without a line height, only the indent is recorded. */
  lemma NoFloatsOnlyIndent(paragraph: Rect, style: ElementStyle, floating: Option<seq<FloatingElement>>,
                           ignore: Option<FloatingElement -> bool>)
    requires floating.None? || floating.value == [] || style.lineHeight == 0.0
    ensures ElementEntries(paragraph, style, floating, ignore) == InitialEntries(style)
  {
  }

  /** A line that no floating element overlaps keeps its entry, or its absence. */
  lemma {:induction false} FloatsKeepUnaffectedLines(m: map<nat, real>, d: real, ps: seq<Placement>, k: nat)
    requires forall i :: 0 <= i < |ps| ==> !(ps[i].firstLine <= k <= ps[i].lastLine)
    ensures (k in ApplyFloats(m, d, ps) <==> k in m)
    ensures k in m ==> ApplyFloats(m, d, ps)[k] == m[k]
    decreases |ps|
  {
    if ps != [] {
      var prefix := ps[..|ps| - 1];
      FloatsKeepUnaffectedLines(m, d, prefix, k);
      FloatNarrowsItsLines(ApplyFloats(m, d, prefix), d, ps[|ps| - 1], k);
    }
  }
}
