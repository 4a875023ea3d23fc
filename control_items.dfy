/**
 * src/html/getItemsFromDOM/controlItems.ts: temporary control items that the
 * DOM itemizer interleaves with real items, and the pass of
 * `processControlItems` that removes them, recording for each marker the
 * output position where it stood.
 *
 * The first pass of `processControlItems`, which moves boxes next to their
 * neighbours, is not part of this model; the set of items it deleted is an
 * input, by item identity (`Content.id`). The helpers the recorded positions
 * are handed to (`makeGlueAtBeginningZeroWidth`, `makeGlueAtEndZeroWidth`,
 * `makeNonBreaking`) are not part of this model either: the pass returns
 * the positions and the argument pairs it passes to them.
 */
module ControlItems {
  import opened Wrappers
  import opened Items

  datatype ControlKind =
    | IgnoreWhitespaceAfter
    | IgnoreWhitespaceBefore
    | StartNonBreakingRange
    | EndNonBreakingRange
    | MoveThisBoxAdjacentToNextBox
    | MoveThisBoxAdjacentToPreviousBox

  /** An entry of the itemizer's list: a real item with its identity, or a control item. */
  datatype Entry = Content(id: nat, item: Item) | Control(kind: ControlKind)

  /** The `type` field of an entry. */
  function TypeOf(e: Entry): (r: string)
    ensures r != ""
  {
    match e
    case Content(_, item) => TypeName(item)
    case Control(kind) =>
      match kind
      case IgnoreWhitespaceAfter => "IGNORE_WHITESPACE_AFTER"
      case IgnoreWhitespaceBefore => "IGNORE_WHITESPACE_BEFORE"
      case StartNonBreakingRange => "START_NON_BREAKING_RANGE"
      case EndNonBreakingRange => "END_NON_BREAKING_RANGE"
      case MoveThisBoxAdjacentToNextBox => "MOVE_THIS_BOX_ADJACENT_TO_NEXT_BOX"
      case MoveThisBoxAdjacentToPreviousBox => "MOVE_THIS_BOX_ADJACENT_TO_PREVIOUS_BOX"
  }

  /** `isControlItem`: the type is set and is none of the three item types. */
  predicate IsControlItem(e: Entry) {
    TypeOf(e) != "" && TypeOf(e) !in ["box", "glue", "penalty"]
  }

  /** Exactly the control entries are control items. */
  lemma ControlItemsAreControls(e: Entry)
    ensures IsControlItem(e) <==> e.Control?
  {
    if e.Control? {
      var t := TypeOf(e);
      assert t[0] != 'b' && t[0] != 'g' && t[0] != 'p';
    }
  }

  // ----- ordered maps (JavaScript `Map`: keys in insertion order) -----

  /** The value at key `k` of an association list. */
  function Lookup(m: seq<(nat, nat)>, k: nat): Option<nat> {
    if m == [] then None
    else if m[0].0 == k then Some(m[0].1)
    else Lookup(m[1..], k)
  }

  predicate UniqueKeys(m: seq<(nat, nat)>) {
    forall i, j :: 0 <= i < j < |m| ==> m[i].0 != m[j].0
  }

  /**
   * `map.set(k, v)`: a new key goes last, an existing key keeps its place
   * and takes the new value.
   */
  function MapSet(m: seq<(nat, nat)>, k: nat, v: nat): (r: seq<(nat, nat)>)
    ensures Lookup(r, k) == Some(v)
    ensures forall k' :: k' != k ==> Lookup(r, k') == Lookup(m, k')
    ensures Lookup(m, k).None? ==> r == m + [(k, v)]
    ensures Lookup(m, k).Some? ==> |r| == |m|
  {
    if m == [] then [(k, v)]
    else if m[0].0 == k then [(k, v)] + m[1..]
    else [m[0]] + MapSet(m[1..], k, v)
  }

  /**
   * `map.set(k, v)` in place: with unique keys, entry `i` of the old map is
   * still entry `i`, the one with key `k` now holding `v`.
   */
  lemma {:induction false} MapSetInPlace(m: seq<(nat, nat)>, k: nat, v: nat, i: nat)
    requires UniqueKeys(m) && i < |m|
    ensures i < |MapSet(m, k, v)|
    ensures MapSet(m, k, v)[i] == if m[i].0 == k then (k, v) else m[i]
    decreases i
  {
    if m[0].0 != k && i > 0 {
      assert UniqueKeys(m[1..]) by {
        forall a, b | 0 <= a < b < |m[1..]| ensures m[1..][a].0 != m[1..][b].0 {
          assert m[1..][a] == m[a + 1] && m[1..][b] == m[b + 1];
        }
      }
      MapSetInPlace(m[1..], k, v, i - 1);
    } else if m[0].0 == k && i > 0 {
      assert m[0].0 != m[i].0;
    }
  }

  /** Every entry after `map.set(k, v)` is the new one or an old one. */
  lemma {:induction false} MapSetEntries(m: seq<(nat, nat)>, k: nat, v: nat)
    ensures forall i :: 0 <= i < |MapSet(m, k, v)| ==> MapSet(m, k, v)[i] == (k, v) || MapSet(m, k, v)[i] in m
  {
    if m != [] && m[0].0 != k {
      MapSetEntries(m[1..], k, v);
      var r := MapSet(m, k, v);
      forall i | 0 <= i < |r|
        ensures r[i] == (k, v) || r[i] in m
      {
        if i > 0 {
          assert r[i] == MapSet(m[1..], k, v)[i - 1];
        }
      }
    }
  }

  /** `map.set` keeps keys unique. */
  lemma {:induction false} MapSetUnique(m: seq<(nat, nat)>, k: nat, v: nat)
    requires UniqueKeys(m)
    ensures UniqueKeys(MapSet(m, k, v))
  {
    if m != [] && m[0].0 != k {
      var rest := MapSet(m[1..], k, v);
      MapSetUnique(m[1..], k, v);
      MapSetEntries(m[1..], k, v);
      var r := MapSet(m, k, v);
      forall i, j | 0 <= i < j < |r|
        ensures r[i].0 != r[j].0
      {
        if i == 0 {
          var x := rest[j - 1];
          if x != (k, v) {
            var t :| 0 <= t < |m[1..]| && m[1..][t] == x;
            assert m[t + 1] == x;
          }
        } else {
          assert r[i] == rest[i - 1] && r[j] == rest[j - 1];
        }
      }
    } else if m != [] {
      var r := MapSet(m, k, v);
      forall i, j | 0 <= i < j < |r|
        ensures r[i].0 != r[j].0
      {
        assert r[j] == m[j];
        if i > 0 {
          assert r[i] == m[i];
        }
      }
    }
  }

  // ----- the whitespace and non-breaking pass -----

  /** What the pass has gathered so far. */
  datatype State = State(
    output: seq<Item>,
    ignoreWhitespaceAfter: set<nat>,
    ignoreWhitespaceBefore: set<nat>,
    openNonBreakingRanges: seq<nat>,
    nonBreakingRanges: seq<(nat, nat)>)

  /** `ignoreWhitespaceAfter` starts out holding position 0. */
  function Init(): State {
    State([], {0}, {}, [], [])
  }

  /** The pass on one entry. */
  function Step(st: State, e: Entry, deleted: set<nat>): State {
    var here := |st.output|;
    match e
    case Content(id, item) =>
      if id in deleted then st else st.(output := st.output + [item])
    case Control(kind) =>
      match kind
      case IgnoreWhitespaceAfter => st.(ignoreWhitespaceAfter := st.ignoreWhitespaceAfter + {here})
      case IgnoreWhitespaceBefore => st.(ignoreWhitespaceBefore := st.ignoreWhitespaceBefore + {here})
      case StartNonBreakingRange => st.(openNonBreakingRanges := st.openNonBreakingRanges + [here])
      case EndNonBreakingRange =>
        var open := st.openNonBreakingRanges;
        if open == [] then st
        else st.(openNonBreakingRanges := open[..|open| - 1],
                 nonBreakingRanges := MapSet(st.nonBreakingRanges, open[|open| - 1], here))
      case MoveThisBoxAdjacentToNextBox => st
      case MoveThisBoxAdjacentToPreviousBox => st
  }

  /** The pass over `entries`, starting from `st`. */
  function RunFrom(st: State, entries: seq<Entry>, deleted: set<nat>): State
    decreases |entries|
  {
    if entries == [] then st
    else Step(RunFrom(st, entries[..|entries| - 1], deleted), entries[|entries| - 1], deleted)
  }

  function Run(entries: seq<Entry>, deleted: set<nat>): State {
    RunFrom(Init(), entries, deleted)
  }

  /** The argument pairs `(startIndex, endIndex)` handed to `makeNonBreaking`, one per range. */
  function NonBreakingCalls(ranges: seq<(nat, nat)>): (r: seq<(nat, nat)>)
    ensures |r| == |ranges|
    ensures forall i :: 0 <= i < |r| ==> r[i].0 == ranges[i].0 && r[i].1 == ranges[i].1
  {
    seq(|ranges|, i requires 0 <= i < |ranges| => (ranges[i].0, ranges[i].1))
  }

  /**
   * The pairs as the source passes them: `Map.prototype.forEach` hands its
   * callback the value before the key, so the parameter named `startIndex`
   * receives the end of the range and `endIndex` its start.
   */
  function NonBreakingCallsAsWritten(ranges: seq<(nat, nat)>): (r: seq<(nat, nat)>)
    ensures |r| == |ranges|
    ensures forall i :: 0 <= i < |r| ==> r[i].0 == ranges[i].1 && r[i].1 == ranges[i].0
  {
    seq(|ranges|, i requires 0 <= i < |ranges| => (ranges[i].1, ranges[i].0))
  }

  /**
   * The second pass of `processControlItems`: the kept items, the positions
   * whose whitespace is to be ignored, and the `makeNonBreaking` calls.
   */
  method ProcessControlItems(entries: seq<Entry>, deleted: set<nat>)
    returns (output: seq<Item>, ignoreWhitespaceAfter: set<nat>, ignoreWhitespaceBefore: set<nat>,
             nonBreakingCalls: seq<(nat, nat)>)
    ensures output == Run(entries, deleted).output
    ensures ignoreWhitespaceAfter == Run(entries, deleted).ignoreWhitespaceAfter
    ensures ignoreWhitespaceBefore == Run(entries, deleted).ignoreWhitespaceBefore
    ensures nonBreakingCalls == NonBreakingCalls(Run(entries, deleted).nonBreakingRanges)
    ensures forall i :: 0 <= i < |nonBreakingCalls| ==> nonBreakingCalls[i].0 <= nonBreakingCalls[i].1 <= |output|
  {
    ignoreWhitespaceAfter := {0};
    ignoreWhitespaceBefore := {};
    var nonBreakingRanges: seq<(nat, nat)> := [];
    var openNonBreakingRanges: seq<nat> := [];
    output := [];
    var i := 0;
    while i < |entries|
      invariant 0 <= i <= |entries|
      invariant State(output, ignoreWhitespaceAfter, ignoreWhitespaceBefore, openNonBreakingRanges, nonBreakingRanges)
             == RunFrom(Init(), entries[..i], deleted)
    {
      var e := entries[i];
      if !e.Control? {
        if e.id !in deleted {
          output := output + [e.item];
        }
      } else {
        match e.kind
        case IgnoreWhitespaceAfter =>
          ignoreWhitespaceAfter := ignoreWhitespaceAfter + {|output|};
        case IgnoreWhitespaceBefore =>
          ignoreWhitespaceBefore := ignoreWhitespaceBefore + {|output|};
        case StartNonBreakingRange =>
          openNonBreakingRanges := openNonBreakingRanges + [|output|];
        case EndNonBreakingRange =>
          if openNonBreakingRanges != [] {
            var start := openNonBreakingRanges[|openNonBreakingRanges| - 1];
            openNonBreakingRanges := openNonBreakingRanges[..|openNonBreakingRanges| - 1];
            nonBreakingRanges := MapSet(nonBreakingRanges, start, |output|);
          }
        case MoveThisBoxAdjacentToNextBox =>
        case MoveThisBoxAdjacentToPreviousBox =>
      }
      assert entries[..i + 1][..i] == entries[..i];
      i := i + 1;
    }
    assert entries[..|entries|] == entries;
    RunWellFormed(entries, deleted);
    nonBreakingCalls := NonBreakingCalls(nonBreakingRanges);
  }

  // ----- what the pass promises -----

  /** The real items that were not deleted, in order. */
  function Kept(entries: seq<Entry>, deleted: set<nat>): (r: seq<Item>)
    ensures |r| <= |entries|
  {
    if entries == [] then []
    else
      var e := entries[0];
      (if e.Content? && e.id !in deleted then [e.item] else []) + Kept(entries[1..], deleted)
  }

  lemma {:induction false} KeptSnoc(entries: seq<Entry>, e: Entry, deleted: set<nat>)
    ensures Kept(entries + [e], deleted) == Kept(entries, deleted) + (if e.Content? && e.id !in deleted then [e.item] else [])
    decreases |entries|
  {
    if entries == [] {
      assert [e][1..] == [];
    } else {
      assert (entries + [e])[1..] == entries[1..] + [e];
      KeptSnoc(entries[1..], e, deleted);
    }
  }

  /** The output is the non-deleted real items, in order; control items never reach it. */
  lemma {:induction false} OutputIsKept(entries: seq<Entry>, deleted: set<nat>)
    ensures Run(entries, deleted).output == Kept(entries, deleted)
    decreases |entries|
  {
    if entries != [] {
      var prefix := entries[..|entries| - 1];
      OutputIsKept(prefix, deleted);
      KeptSnoc(prefix, entries[|entries| - 1], deleted);
      assert prefix + [entries[|entries| - 1]] == entries;
    }
  }

  /**
   * The invariant the pass keeps: every recorded position is a position of
   * the output, open ranges are stacked in order, and every range starts at
   * or before its end.
   */
  predicate WellFormed(st: State) {
    && 0 in st.ignoreWhitespaceAfter
    && (forall p :: p in st.ignoreWhitespaceAfter ==> p <= |st.output|)
    && (forall p :: p in st.ignoreWhitespaceBefore ==> p <= |st.output|)
    && (forall i :: 0 <= i < |st.openNonBreakingRanges| ==> st.openNonBreakingRanges[i] <= |st.output|)
    && (forall i, j :: 0 <= i < j < |st.openNonBreakingRanges| ==> st.openNonBreakingRanges[i] <= st.openNonBreakingRanges[j])
    && (forall i :: 0 <= i < |st.nonBreakingRanges| ==> st.nonBreakingRanges[i].0 <= st.nonBreakingRanges[i].1 <= |st.output|)
    && UniqueKeys(st.nonBreakingRanges)
  }

  lemma PushWellFormed(st: State, item: Item)
    requires WellFormed(st)
    ensures WellFormed(st.(output := st.output + [item]))
  {
  }

  lemma CloseRangeWellFormed(st: State)
    requires WellFormed(st) && st.openNonBreakingRanges != []
    ensures var open := st.openNonBreakingRanges;
      WellFormed(st.(openNonBreakingRanges := open[..|open| - 1],
                     nonBreakingRanges := MapSet(st.nonBreakingRanges, open[|open| - 1], |st.output|)))
  {
    var open := st.openNonBreakingRanges;
    var r := MapSet(st.nonBreakingRanges, open[|open| - 1], |st.output|);
    MapSetEntries(st.nonBreakingRanges, open[|open| - 1], |st.output|);
    MapSetUnique(st.nonBreakingRanges, open[|open| - 1], |st.output|);
    assert forall i :: 0 <= i < |r| ==> r[i].0 <= r[i].1 <= |st.output|;
  }

  lemma StepWellFormed(st: State, e: Entry, deleted: set<nat>)
    requires WellFormed(st)
    ensures WellFormed(Step(st, e, deleted))
    ensures |Step(st, e, deleted).output| >= |st.output|
  {
    match e
    case Content(id, item) =>
      if id !in deleted {
        PushWellFormed(st, item);
      }
    case Control(kind) =>
      if kind == EndNonBreakingRange && st.openNonBreakingRanges != [] {
        CloseRangeWellFormed(st);
      }
  }

  lemma {:induction false} RunFromWellFormed(st: State, entries: seq<Entry>, deleted: set<nat>)
    requires WellFormed(st)
    ensures WellFormed(RunFrom(st, entries, deleted))
    decreases |entries|
  {
    if entries != [] {
      RunFromWellFormed(st, entries[..|entries| - 1], deleted);
      StepWellFormed(RunFrom(st, entries[..|entries| - 1], deleted), entries[|entries| - 1], deleted);
    }
  }

  /** After the whole pass, 0 is still a whitespace-after position and every recorded position and range lies within the output. */
  lemma RunWellFormed(entries: seq<Entry>, deleted: set<nat>)
    ensures WellFormed(Run(entries, deleted))
  {
    RunFromWellFormed(Init(), entries, deleted);
  }

  /** Running over two lists in turn is running over their concatenation. */
  lemma {:induction false} RunFromAppend(st: State, a: seq<Entry>, b: seq<Entry>, deleted: set<nat>)
    ensures RunFrom(st, a + b, deleted) == RunFrom(RunFrom(st, a, deleted), b, deleted)
    decreases |b|
  {
    if b == [] {
      assert a + b == a;
    } else {
      assert (a + b)[..|a + b| - 1] == a + b[..|b| - 1];
      RunFromAppend(st, a, b[..|b| - 1], deleted);
    }
  }

  /** Neither START nor END of a non-breaking range. */
  predicate NoRangeMarkers(entries: seq<Entry>) {
    forall k :: 0 <= k < |entries| ==> entries[k] != Control(StartNonBreakingRange) && entries[k] != Control(EndNonBreakingRange)
  }

  /** A stretch without range markers leaves the open ranges and the recorded ranges alone. */
  lemma {:induction false} PlainStretch(st: State, mid: seq<Entry>, deleted: set<nat>)
    requires NoRangeMarkers(mid)
    ensures RunFrom(st, mid, deleted).openNonBreakingRanges == st.openNonBreakingRanges
    ensures RunFrom(st, mid, deleted).nonBreakingRanges == st.nonBreakingRanges
    ensures RunFrom(st, mid, deleted).output == st.output + Kept(mid, deleted)
    decreases |mid|
  {
    if mid != [] {
      var prefix := mid[..|mid| - 1];
      assert NoRangeMarkers(prefix) by {
        forall k | 0 <= k < |prefix| ensures prefix[k] == mid[k] {}
      }
      PlainStretch(st, prefix, deleted);
      KeptSnoc(prefix, mid[|mid| - 1], deleted);
      assert prefix + [mid[|mid| - 1]] == mid;
      assert mid[|mid| - 1] != Control(StartNonBreakingRange);
    }
  }

  /**
   * An END closes the range of the START before it: a START, a stretch
   * without range markers and an END record the range from the output
   * position of the START to that of the END, and leave the stack of open
   * ranges as it was.
   */
  lemma MatchedRange(st: State, mid: seq<Entry>, deleted: set<nat>)
    requires NoRangeMarkers(mid)
    ensures var r := RunFrom(st, [Control(StartNonBreakingRange)] + mid + [Control(EndNonBreakingRange)], deleted);
      && r.openNonBreakingRanges == st.openNonBreakingRanges
      && r.nonBreakingRanges == MapSet(st.nonBreakingRanges, |st.output|, |st.output| + |Kept(mid, deleted)|)
      && r.output == st.output + Kept(mid, deleted)
  {
    var start := [Control(StartNonBreakingRange)];
    var s1 := RunFrom(st, start, deleted);
    assert start[..0] == [];
    assert s1 == Step(st, Control(StartNonBreakingRange), deleted);
    RunFromAppend(st, start, mid, deleted);
    PlainStretch(s1, mid, deleted);
    var s2 := RunFrom(s1, mid, deleted);
    var all := start + mid + [Control(EndNonBreakingRange)];
    assert all[..|all| - 1] == start + mid;
    assert RunFrom(st, all, deleted) == Step(s2, Control(EndNonBreakingRange), deleted);
    var open := st.openNonBreakingRanges + [|st.output|];
    assert s2.openNonBreakingRanges == open;
    assert open[..|open| - 1] == st.openNonBreakingRanges;
  }

  /**
   * A START that is never closed records no range: after a START and a
   * stretch without range markers the recorded ranges are unchanged and the
   * START's output position stays on the open stack.
   */
  lemma UnclosedStart(st: State, mid: seq<Entry>, deleted: set<nat>)
    requires NoRangeMarkers(mid)
    ensures var r := RunFrom(st, [Control(StartNonBreakingRange)] + mid, deleted);
      && r.nonBreakingRanges == st.nonBreakingRanges
      && r.openNonBreakingRanges == st.openNonBreakingRanges + [|st.output|]
      && r.output == st.output + Kept(mid, deleted)
  {
    var start := [Control(StartNonBreakingRange)];
    var s1 := RunFrom(st, start, deleted);
    assert start[..0] == [];
    assert s1 == Step(st, Control(StartNonBreakingRange), deleted);
    RunFromAppend(st, start, mid, deleted);
    PlainStretch(s1, mid, deleted);
  }

  /** An END with no open range is ignored. */
  lemma UnmatchedEndIgnored(st: State, deleted: set<nat>)
    requires st.openNonBreakingRanges == []
    ensures Step(st, Control(EndNonBreakingRange), deleted) == st
  {
  }

  /** The box-moving markers play no part in this pass. */
  lemma MoveMarkersIgnored(st: State, deleted: set<nat>)
    ensures Step(st, Control(MoveThisBoxAdjacentToNextBox), deleted) == st
    ensures Step(st, Control(MoveThisBoxAdjacentToPreviousBox), deleted) == st
  {
  }

  /** A marker for ignoring whitespace records the output position it stands at. */
  lemma WhitespaceMarkers(st: State, deleted: set<nat>)
    ensures Step(st, Control(IgnoreWhitespaceAfter), deleted).ignoreWhitespaceAfter == st.ignoreWhitespaceAfter + {|st.output|}
    ensures Step(st, Control(IgnoreWhitespaceBefore), deleted).ignoreWhitespaceBefore == st.ignoreWhitespaceBefore + {|st.output|}
    ensures Step(st, Control(IgnoreWhitespaceAfter), deleted).output == st.output
    ensures Step(st, Control(IgnoreWhitespaceBefore), deleted).output == st.output
  {
  }

  /**
   * An independent description of the positions a marker records: for each
   * marker of `kind`, the number of kept items before it.
   */
  function MarkerPositions(entries: seq<Entry>, deleted: set<nat>, kind: ControlKind): set<nat> {
    set k | 0 <= k < |entries| && entries[k] == Control(kind) :: |Kept(entries[..k], deleted)|
  }

  lemma MarkerAt(entries: seq<Entry>, deleted: set<nat>, kind: ControlKind, k: nat)
    requires k < |entries| && entries[k] == Control(kind)
    ensures |Kept(entries[..k], deleted)| in MarkerPositions(entries, deleted, kind)
  {
  }

  lemma MarkerPositionsSnocGrows(entries: seq<Entry>, e: Entry, deleted: set<nat>, kind: ControlKind)
    ensures MarkerPositions(entries + [e], deleted, kind)
         <= MarkerPositions(entries, deleted, kind) + (if e == Control(kind) then {|Kept(entries, deleted)|} else {})
  {
    var all := entries + [e];
    forall x | x in MarkerPositions(all, deleted, kind)
      ensures x in MarkerPositions(entries, deleted, kind) || (e == Control(kind) && x == |Kept(entries, deleted)|)
    {
      var k :| 0 <= k < |all| && all[k] == Control(kind) && x == |Kept(all[..k], deleted)|;
      if k < |entries| {
        assert all[..k] == entries[..k];
        MarkerAt(entries, deleted, kind, k);
      } else {
        assert all[..k] == entries;
      }
    }
  }

  lemma MarkerPositionsSnocKeeps(entries: seq<Entry>, e: Entry, deleted: set<nat>, kind: ControlKind)
    ensures MarkerPositions(entries, deleted, kind) + (if e == Control(kind) then {|Kept(entries, deleted)|} else {})
         <= MarkerPositions(entries + [e], deleted, kind)
  {
    var all := entries + [e];
    forall x | x in MarkerPositions(entries, deleted, kind)
      ensures x in MarkerPositions(all, deleted, kind)
    {
      var k :| 0 <= k < |entries| && entries[k] == Control(kind) && x == |Kept(entries[..k], deleted)|;
      assert all[..k] == entries[..k];
      MarkerAt(all, deleted, kind, k);
    }
    if e == Control(kind) {
      assert all[..|entries|] == entries;
      MarkerAt(all, deleted, kind, |entries|);
    }
  }

  lemma MarkerPositionsSnoc(entries: seq<Entry>, e: Entry, deleted: set<nat>, kind: ControlKind)
    ensures MarkerPositions(entries + [e], deleted, kind)
         == MarkerPositions(entries, deleted, kind) + (if e == Control(kind) then {|Kept(entries, deleted)|} else {})
  {
    MarkerPositionsSnocGrows(entries, e, deleted, kind);
    MarkerPositionsSnocKeeps(entries, e, deleted, kind);
  }

  /**
   * The whitespace-after positions are 0 and, for every such marker, the
   * number of kept items before it: the output index of the item that
   * follows the marker.
   */
  lemma {:induction false} WhitespaceAfterPositions(entries: seq<Entry>, deleted: set<nat>)
    ensures Run(entries, deleted).ignoreWhitespaceAfter == {0} + MarkerPositions(entries, deleted, IgnoreWhitespaceAfter)
    decreases |entries|
  {
    if entries == [] {
      assert MarkerPositions(entries, deleted, IgnoreWhitespaceAfter) == {};
    } else {
      var prefix := entries[..|entries| - 1];
      var e := entries[|entries| - 1];
      assert prefix + [e] == entries;
      assert Run(entries, deleted) == Step(Run(prefix, deleted), e, deleted);
      WhitespaceAfterPositions(prefix, deleted);
      OutputIsKept(prefix, deleted);
      MarkerPositionsSnoc(prefix, e, deleted, IgnoreWhitespaceAfter);
    }
  }

  /** The whitespace-before positions: for every such marker, the number of kept items before it. */
  lemma {:induction false} WhitespaceBeforePositions(entries: seq<Entry>, deleted: set<nat>)
    ensures Run(entries, deleted).ignoreWhitespaceBefore == MarkerPositions(entries, deleted, IgnoreWhitespaceBefore)
    decreases |entries|
  {
    if entries == [] {
      assert MarkerPositions(entries, deleted, IgnoreWhitespaceBefore) == {};
    } else {
      var prefix := entries[..|entries| - 1];
      var e := entries[|entries| - 1];
      assert prefix + [e] == entries;
      assert Run(entries, deleted) == Step(Run(prefix, deleted), e, deleted);
      WhitespaceBeforePositions(prefix, deleted);
      OutputIsKept(prefix, deleted);
      MarkerPositionsSnoc(prefix, e, deleted, IgnoreWhitespaceBefore);
    }
  }

  /**
   * START, a box, END: the range is (0, 1), so `makeNonBreaking` should be
   * called with start 0 and end 1, but as written it receives (1, 0).
   */
  lemma SwappedRangeArguments(b: Item)
    ensures var r := Run([Control(StartNonBreakingRange), Content(0, b), Control(EndNonBreakingRange)], {});
      && r.nonBreakingRanges == [(0, 1)]
      && NonBreakingCallsAsWritten(r.nonBreakingRanges) == [(1, 0)]
      && NonBreakingCalls(r.nonBreakingRanges) == [(0, 1)]
  {
    var es := [Control(StartNonBreakingRange), Content(0, b), Control(EndNonBreakingRange)];
    assert es[..2][..1] == [Control(StartNonBreakingRange)];
    assert es[..2][..1][..0] == [];
    assert es[..2] == [Control(StartNonBreakingRange), Content(0, b)];
    var s1 := Step(Init(), Control(StartNonBreakingRange), {});
    assert s1.openNonBreakingRanges == [0];
    var s2 := Step(s1, Content(0, b), {});
    assert s2.output == [b];
    assert RunFrom(Init(), es[..2][..1], {}) == s1;
    assert RunFrom(Init(), es[..2], {}) == s2;
    assert Run(es, {}) == Step(s2, Control(EndNonBreakingRange), {});
  }

  /** Every `makeNonBreaking` call of the corrected pass names a range start no later than its end, inside the output. */
  lemma CallsWithinOutput(entries: seq<Entry>, deleted: set<nat>)
    ensures var r := Run(entries, deleted);
      forall i :: 0 <= i < |NonBreakingCalls(r.nonBreakingRanges)| ==>
        NonBreakingCalls(r.nonBreakingRanges)[i].0 <= NonBreakingCalls(r.nonBreakingRanges)[i].1 <= |r.output|
  {
    RunWellFormed(entries, deleted);
  }
}
