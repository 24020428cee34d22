/** The width-bounded text wrapper of crates/app/src/presentation.rs. The
    display width of a text is the sum of its characters' widths. */
module Wrap {
  import opened Text
  import opened Results
  import opened Sequences

  type Widths = char -> nat

  function Width(cw: Widths, s: string): nat {
    if s == "" then 0 else cw(s[0]) + Width(cw, s[1..])
  }

  lemma {:induction false} WidthConcat(cw: Widths, a: string, b: string)
    ensures Width(cw, a + b) == Width(cw, a) + Width(cw, b)
  {
    if a == "" {
      assert a + b == b;
    } else {
      assert (a + b)[1..] == a[1..] + b;
      WidthConcat(cw, a[1..], b);
    }
  }

  lemma WidthTrimEnd(cw: Widths, s: string)
    ensures Width(cw, TrimEnd(s)) <= Width(cw, s)
  {
    var pad := TrimEndParts(s);
    WidthConcat(cw, TrimEnd(s), pad);
  }

  // ------------------------------------------------------------ fitting prefix

  /** How many leading characters fit into `room`. */
  function FitCount(cw: Widths, text: string, room: nat): (n: nat)
    ensures n <= |text|
  {
    if text == "" || cw(text[0]) > room then 0 else 1 + FitCount(cw, text[1..], room - cw(text[0]))
  }

  /** At least one character is always taken. */
  function TakeCount(cw: Widths, text: string, room: nat): (n: nat)
    ensures n <= |text| && (text != "" ==> n > 0)
  {
    if FitCount(cw, text, room) == 0 && text != "" then 1 else FitCount(cw, text, room)
  }

  lemma {:induction false} FitCountFits(cw: Widths, text: string, room: nat)
    ensures var n := FitCount(cw, text, room);
      && Width(cw, text[..n]) <= room
      && (n < |text| ==> Width(cw, text[..n + 1]) > room)
  {
    if text == "" {
    } else {
      var n := FitCount(cw, text, room);
      if n == 0 {
        assert text[..1][1..] == "";
      } else {
        FitCountFits(cw, text[1..], room - cw(text[0]));
        assert text[..n][1..] == text[1..][..n - 1];
        if n < |text| {
          assert text[..n + 1][1..] == text[1..][..n];
        }
      }
    }
  }

  /** `take_fitting_prefix`: the longest prefix that fits, or one character. */
  method TakeFittingPrefix(cw: Widths, text: string, maxWidth: nat) returns (end: nat)
    ensures end == TakeCount(cw, text, maxWidth)
  {
    var used := 0;
    end := 0;
    while end < |text|
      invariant end <= |text| && used <= maxWidth
      invariant FitCount(cw, text, maxWidth) == end + FitCount(cw, text[end..], maxWidth - used)
    {
      var charWidth := cw(text[end]);
      if used + charWidth > maxWidth {
        break;
      }
      assert text[end..][1..] == text[end + 1..];
      used := used + charWidth;
      end := end + 1;
    }
    if end == 0 {
      end := if text == "" then 0 else 1;
    }
  }

  // ------------------------------------------------------------------ wrapping

  datatype Layout = Layout(prefix: string, continuation: string, separator: string, width: nat)

  /** The width the wrapper works with. */
  function Effective(cw: Widths, p: Layout): nat {
    Greater(p.width, Greater(Width(cw, TrimEnd(p.prefix)), Width(cw, p.continuation)))
  }

  /** A continuation line has room for something. */
  predicate HasRoom(cw: Widths, p: Layout) {
    Effective(cw, p) > Width(cw, p.continuation)
  }

  datatype Page = Page(lines: seq<string>, current: string, hasContent: bool)

  function Joiner(p: Layout, g: Page): string {
    if g.hasContent then p.separator else ""
  }

  function Available(cw: Widths, p: Layout, g: Page): nat {
    var used := Width(cw, g.current) + Width(cw, Joiner(p, g));
    if used >= Effective(cw, p) then 0 else Effective(cw, p) - used
  }

  /** What one pass of the inner loop does with the text left of a segment:
      the page after it, and the text still to place, if any. */
  function Pass(cw: Widths, p: Layout, g: Page, remaining: string): (Page, Option<string>) {
    var room := Available(cw, p, g);
    if Width(cw, remaining) <= room then
      (g.(current := g.current + Joiner(p, g) + remaining, hasContent := true), None)
    else if g.hasContent then
      (Page(g.lines + [TrimEnd(g.current)], p.continuation, false), Some(remaining))
    else if room == 0 then
      (Page(if TrimEnd(g.current) == "" then g.lines else g.lines + [TrimEnd(g.current)], p.continuation, false), Some(remaining))
    else
      var k := TakeCount(cw, remaining, room);
      (Page(g.lines + [TrimEnd(g.current + remaining[..k])], p.continuation, false), Some(remaining[k..]))
  }

  /** Passes that can follow before a character is placed. */
  function Phase(cw: Widths, p: Layout, g: Page): nat {
    if g.hasContent then 2 else if Width(cw, g.current) >= Effective(cw, p) then 1 else 0
  }

  lemma PassProgress(cw: Widths, p: Layout, g: Page, remaining: string)
    requires HasRoom(cw, p) && Pass(cw, p, g, remaining).1.Some?
    ensures var (g', left) := Pass(cw, p, g, remaining);
      && Phase(cw, p, g') == 0
      && (|left.value| < |remaining| || (left.value == remaining && Phase(cw, p, g) > 0))
  {
    assert Width(cw, "") == 0;
  }

  /** The inner loop with a bounded number of passes. */
  function PlaceWithin(cw: Widths, p: Layout, g: Page, remaining: string, passes: nat): Option<Page>
    decreases passes
  {
    if passes == 0 then None
    else
      var (g', left) := Pass(cw, p, g, remaining);
      if left.None? then Some(g') else PlaceWithin(cw, p, g', left.value, passes - 1)
  }

  /** Placing a segment ends after some number of passes. */
  ghost predicate Ends(cw: Widths, p: Layout, g: Page, segment: string) {
    exists passes: nat :: PlaceWithin(cw, p, g, segment, passes).Some?
  }

  /** The page after a whole segment has been placed. */
  ghost function Place(cw: Widths, p: Layout, g: Page, segment: string): Page
    requires Ends(cw, p, g, segment)
  {
    var passes: nat :| PlaceWithin(cw, p, g, segment, passes).Some?;
    PlaceWithin(cw, p, g, segment, passes).value
  }

  lemma {:induction false} PlaceUnique(cw: Widths, p: Layout, g: Page, remaining: string, n: nat, m: nat)
    requires PlaceWithin(cw, p, g, remaining, n).Some? && PlaceWithin(cw, p, g, remaining, m).Some?
    ensures PlaceWithin(cw, p, g, remaining, n) == PlaceWithin(cw, p, g, remaining, m)
    decreases n
  {
    hide Pass;
    var (g', left) := Pass(cw, p, g, remaining);
    if left.Some? {
      PlaceUnique(cw, p, g', left.value, n - 1, m - 1);
    }
  }

  lemma PlaceIs(cw: Widths, p: Layout, g: Page, segment: string, passes: nat)
    requires PlaceWithin(cw, p, g, segment, passes).Some?
    ensures Ends(cw, p, g, segment)
    ensures Place(cw, p, g, segment) == PlaceWithin(cw, p, g, segment, passes).value
  {
    var n: nat :| PlaceWithin(cw, p, g, segment, n).Some? &&
      PlaceWithin(cw, p, g, segment, n).value == Place(cw, p, g, segment);
    PlaceUnique(cw, p, g, segment, n, passes);
  }

  /** The inner loop ends on every segment in turn. */
  ghost predicate AllEnd(cw: Widths, p: Layout, g: Page, segments: seq<string>)
    decreases |segments|, 0
  {
    segments == [] || (
      var before, last := segments[..|segments| - 1], segments[|segments| - 1];
      AllEnd(cw, p, g, before) && (last == "" || Ends(cw, p, PlaceAll(cw, p, g, before), last)))
  }

  ghost function PlaceAll(cw: Widths, p: Layout, g: Page, segments: seq<string>): Page
    requires AllEnd(cw, p, g, segments)
    decreases |segments|, 1
  {
    if segments == [] then g
    else
      var before, last := segments[..|segments| - 1], segments[|segments| - 1];
      if last == "" then PlaceAll(cw, p, g, before) else Place(cw, p, PlaceAll(cw, p, g, before), last)
  }

  function Finish(g: Page): seq<string> {
    if g.hasContent || g.lines == [] then g.lines + [TrimEnd(g.current)] else g.lines
  }

  function Start(p: Layout): Page {
    Page([], p.prefix, false)
  }

  /** Wrapping terminates on these segments. */
  ghost predicate Terminates(cw: Widths, p: Layout, segments: seq<string>) {
    AllEnd(cw, p, Start(p), segments)
  }

  ghost function Wrapped(cw: Widths, p: Layout, segments: seq<string>): seq<string>
    requires Terminates(cw, p, segments)
  {
    Finish(PlaceAll(cw, p, Start(p), segments))
  }

  /** `render_wrapped_segments`. Empty segments are skipped. */
  method RenderWrappedSegments(cw: Widths, prefix: string, continuation: string, segments: seq<string>,
                               separator: string, width: nat) returns (lines: seq<string>)
    requires Terminates(cw, Layout(prefix, continuation, separator, width), segments)
    ensures lines == Wrapped(cw, Layout(prefix, continuation, separator, width), segments)
  {
    hide Effective, Width, TrimEnd, TakeCount, PlaceWithin, Place, Ends, AllEnd, PlaceAll;
    var p := Layout(prefix, continuation, separator, width);
    var effective := Effective(cw, p);
    var currentLine, lineHasContent := prefix, false;
    lines := [];
    NothingPlaced(cw, p, Start(p));
    AllPrefixesEnd(cw, p, Start(p), segments);
    assert segments[..0] == [];
    for i := 0 to |segments|
      invariant Page(lines, currentLine, lineHasContent) == PlaceAll(cw, p, Start(p), segments[..i])
    {
      assert segments[..i + 1] == segments[..i] + [segments[i]];
      PlaceAllSnoc(cw, p, Start(p), segments[..i], segments[i]);
      if segments[i] != "" {
        ghost var target := Place(cw, p, Page(lines, currentLine, lineHasContent), segments[i]);
        ghost var passes := EnoughPasses(cw, p, Page(lines, currentLine, lineHasContent), segments[i]);
        var remaining := segments[i];
        var placed := false;
        while !placed
          invariant if placed then Page(lines, currentLine, lineHasContent) == target
            else PlaceWithin(cw, p, Page(lines, currentLine, lineHasContent), remaining, passes) == Some(target)
          decreases !placed, passes
        {
          OnePass(cw, p, Page(lines, currentLine, lineHasContent), remaining, passes);
          var joiner := if lineHasContent then separator else "";
          var used := Width(cw, currentLine) + Width(cw, joiner);
          var available := if used >= effective then 0 else effective - used;
          if Width(cw, remaining) <= available {
            currentLine := currentLine + joiner + remaining;
            lineHasContent := true;
            placed := true;
          } else if lineHasContent {
            lines := lines + [TrimEnd(currentLine)];
            currentLine, lineHasContent := continuation, false;
          } else if available == 0 {
            var prefixLine := TrimEnd(currentLine);
            if prefixLine != "" {
              lines := lines + [prefixLine];
            }
            currentLine, lineHasContent := continuation, false;
          } else {
            var split := TakeFittingPrefix(cw, remaining, available);
            lines := lines + [TrimEnd(currentLine + remaining[..split])];
            currentLine, lineHasContent := continuation, false;
            remaining := remaining[split..];
          }
          passes := passes - 1;
        }
      }
    }
    assert segments[..|segments|] == segments;
    if lineHasContent || lines == [] {
      lines := lines + [TrimEnd(currentLine)];
    }
  }

  lemma NothingPlaced(cw: Widths, p: Layout, g: Page)
    ensures AllEnd(cw, p, g, []) && PlaceAll(cw, p, g, []) == g
  {
  }

  lemma PlaceAllSnoc(cw: Widths, p: Layout, g: Page, segments: seq<string>, last: string)
    requires AllEnd(cw, p, g, segments + [last])
    ensures AllEnd(cw, p, g, segments)
    ensures last != "" ==> Ends(cw, p, PlaceAll(cw, p, g, segments), last)
    ensures PlaceAll(cw, p, g, segments + [last]) ==
      if last == "" then PlaceAll(cw, p, g, segments) else Place(cw, p, PlaceAll(cw, p, g, segments), last)
  {
    hide Ends, Place;
    assert (segments + [last])[..|segments|] == segments;
  }

  lemma {:induction false} AllPrefixesEnd(cw: Widths, p: Layout, g: Page, segments: seq<string>)
    requires AllEnd(cw, p, g, segments)
    ensures forall i :: 0 <= i <= |segments| ==> AllEnd(cw, p, g, segments[..i])
  {
    hide Ends, Place;
    assert segments[..|segments|] == segments;
    if segments == [] {
    } else {
      var before := segments[..|segments| - 1];
      AllPrefixesEnd(cw, p, g, before);
      assert forall i :: 0 <= i < |segments| ==> segments[..i] == before[..i];
    }
  }

  lemma EnoughPasses(cw: Widths, p: Layout, g: Page, segment: string) returns (passes: nat)
    requires Ends(cw, p, g, segment)
    ensures PlaceWithin(cw, p, g, segment, passes) == Some(Place(cw, p, g, segment))
  {
    passes :| PlaceWithin(cw, p, g, segment, passes).Some?;
    PlaceIs(cw, p, g, segment, passes);
  }

  lemma OnePass(cw: Widths, p: Layout, g: Page, remaining: string, passes: nat)
    requires PlaceWithin(cw, p, g, remaining, passes).Some?
    ensures passes > 0
    ensures var (g', left) := Pass(cw, p, g, remaining);
      PlaceWithin(cw, p, g, remaining, passes) ==
      if left.None? then Some(g') else PlaceWithin(cw, p, g', left.value, passes - 1)
  {
    hide Pass;
  }

  // -------------------------------------------------------------- conservation

  /** The non-space characters on the page so far. */
  ghost function Shown(g: Page): string {
    Visible(Concat(g.lines)) + Visible(g.current)
  }

  lemma ShownFlush(lines: seq<string>, text: string, continuation: string)
    requires IsBlank(continuation)
    ensures Shown(Page(lines + [TrimEnd(text)], continuation, false)) == Visible(Concat(lines)) + Visible(text)
  {
    ConcatSnoc(lines, TrimEnd(text));
    VisibleConcat(Concat(lines), TrimEnd(text));
    VisibleTrim(text);
    VisibleBlank(continuation);
  }

  lemma PassConserves(cw: Widths, p: Layout, g: Page, remaining: string)
    requires IsBlank(p.continuation) && IsBlank(p.separator)
    ensures var (g', left) := Pass(cw, p, g, remaining);
      Shown(g') + (if left.None? then "" else Visible(left.value)) == Shown(g) + Visible(remaining)
  {
    hide Width, TrimEnd, TakeCount, Visible, Concat, Effective;
    var room := Available(cw, p, g);
    if Width(cw, remaining) <= room {
      ShownPlaced(g, Joiner(p, g), remaining);
    } else if g.hasContent || room == 0 {
      ShownFlush(g.lines, g.current, p.continuation);
      if TrimEnd(g.current) == "" {
        ShownDropped(g.lines, g.current, p.continuation);
      }
    } else {
      var k := TakeCount(cw, remaining, room);
      ShownFlush(g.lines, g.current + remaining[..k], p.continuation);
      VisibleConcat(g.current, remaining[..k]);
      VisibleConcat(remaining[..k], remaining[k..]);
      assert remaining[..k] + remaining[k..] == remaining;
      Assoc4(Visible(Concat(g.lines)), Visible(g.current), Visible(remaining[..k]), Visible(remaining[k..]));
    }
  }

  lemma Assoc4(a: string, b: string, c: string, d: string)
    ensures a + (b + c) + d == a + b + (c + d)
  {
  }

  lemma ShownPlaced(g: Page, joiner: string, remaining: string)
    requires IsBlank(joiner)
    ensures Shown(g.(current := g.current + joiner + remaining, hasContent := true)) + "" == Shown(g) + Visible(remaining)
  {
    hide Visible, Concat;
    VisibleConcat(g.current + joiner, remaining);
    VisibleConcat(g.current, joiner);
    VisibleBlank(joiner);
    assert Visible(g.current) + "" == Visible(g.current);
    Assoc4(Visible(Concat(g.lines)), Visible(g.current), Visible(remaining), "");
    assert Visible(remaining) + "" == Visible(remaining);
  }

  lemma ShownDropped(lines: seq<string>, text: string, continuation: string)
    requires IsBlank(continuation) && TrimEnd(text) == ""
    ensures Shown(Page(lines, continuation, false)) == Visible(Concat(lines)) + Visible(text)
  {
    VisibleTrim(text);
    VisibleBlank(continuation);
  }

  lemma {:induction false} PlaceConserves(cw: Widths, p: Layout, g: Page, remaining: string, passes: nat)
    requires IsBlank(p.continuation) && IsBlank(p.separator) && PlaceWithin(cw, p, g, remaining, passes).Some?
    ensures Shown(PlaceWithin(cw, p, g, remaining, passes).value) == Shown(g) + Visible(remaining)
    decreases passes
  {
    hide Pass, Shown;
    PassConserves(cw, p, g, remaining);
    var (g', left) := Pass(cw, p, g, remaining);
    if left.Some? {
      PlaceConserves(cw, p, g', left.value, passes - 1);
    }
  }

  lemma {:induction false} PlaceAllConserves(cw: Widths, p: Layout, g: Page, segments: seq<string>)
    requires AllEnd(cw, p, g, segments) && IsBlank(p.continuation) && IsBlank(p.separator)
    ensures Shown(PlaceAll(cw, p, g, segments)) == Shown(g) + Visible(Concat(segments))
  {
    hide Shown, Place, Ends, PlaceWithin, Visible, Concat;
    EmptyTexts();
    if segments == [] {
      assert Shown(g) + Visible("") == Shown(g);
    } else {
      var n := |segments| - 1;
      PlaceAllConserves(cw, p, g, segments[..n]);
      assert segments == segments[..n] + [segments[n]];
      ConcatSnoc(segments[..n], segments[n]);
      VisibleConcat(Concat(segments[..n]), segments[n]);
      if segments[n] != "" {
        var before := PlaceAll(cw, p, g, segments[..n]);
        var passes := EnoughPasses(cw, p, before, segments[n]);
        PlaceConserves(cw, p, before, segments[n], passes);
      } else {
        assert Concat(segments[..n]) + "" == Concat(segments[..n]);
      }
    }
  }

  /** Only the current line of a page without content is dropped at the end,
      and then it is the blank continuation. */
  lemma {:induction false} PlaceAllCurrent(cw: Widths, p: Layout, segments: seq<string>)
    requires Terminates(cw, p, segments)
    ensures var g := PlaceAll(cw, p, Start(p), segments);
      g.hasContent || g == Start(p)
  {
    hide Place, Ends, PlaceWithin;
    if segments == [] {
    } else {
      var n := |segments| - 1;
      PlaceAllCurrent(cw, p, segments[..n]);
      if segments[n] != "" {
        var before := PlaceAll(cw, p, Start(p), segments[..n]);
        var passes := EnoughPasses(cw, p, before, segments[n]);
        PlaceHasContent(cw, p, before, segments[n], passes);
      }
    }
  }

  lemma {:induction false} PlaceHasContent(cw: Widths, p: Layout, g: Page, remaining: string, passes: nat)
    requires PlaceWithin(cw, p, g, remaining, passes).Some?
    ensures PlaceWithin(cw, p, g, remaining, passes).value.hasContent
    decreases passes
  {
    var (g', left) := Pass(cw, p, g, remaining);
    if left.Some? {
      PlaceHasContent(cw, p, g', left.value, passes - 1);
    }
  }

  /** With a blank continuation prefix and separator, wrapping keeps exactly the
      non-space characters of the prefix and of the segments, in order, for
      all character widths. */
  lemma WrappedConserves(cw: Widths, p: Layout, segments: seq<string>)
    requires Terminates(cw, p, segments) && IsBlank(p.continuation) && IsBlank(p.separator)
    ensures Visible(Concat(Wrapped(cw, p, segments))) == Visible(p.prefix) + Visible(Concat(segments))
  {
    hide PlaceAll, AllEnd;
    PlaceAllConserves(cw, p, Start(p), segments);
    PlaceAllCurrent(cw, p, segments);
    var g := PlaceAll(cw, p, Start(p), segments);
    ShownFlush(g.lines, g.current, "");
    assert Shown(Start(p)) == Visible(p.prefix);
    assert Shown(Page(g.lines + [TrimEnd(g.current)], "", false)) == Visible(Concat(g.lines + [TrimEnd(g.current)]));
  }

  // --------------------------------------------------------------- width bound

  ghost predicate NoWider(cw: Widths, most: nat) {
    forall c: char :: cw(c) <= most
  }

  ghost predicate LinesWithin(cw: Widths, lines: seq<string>, bound: nat) {
    forall line :: line in lines ==> Width(cw, line) <= bound
  }

  /** A segment that is not skipped although it takes no columns. */
  predicate TakesNoRoom(cw: Widths, segment: string) {
    segment != "" && Width(cw, segment) == 0
  }

  /** How wide lines can get: the effective width, but each segment that takes
      no columns can bring a separator onto a full line, and can keep the spaces
      at the end of a wide prefix from being trimmed. */
  function Reach(cw: Widths, p: Layout, segments: seq<string>): nat {
    if segments == [] then Effective(cw, p)
    else
      var before, last := Reach(cw, p, segments[..|segments| - 1]), segments[|segments| - 1];
      if TakesNoRoom(cw, last) then Greater(before, Width(cw, p.prefix)) + Width(cw, p.separator) else before
  }

  lemma {:induction false} ReachMeaning(cw: Widths, p: Layout, segments: seq<string>)
    ensures Reach(cw, p, segments) >= Effective(cw, p)
    ensures (forall s :: s in segments ==> !TakesNoRoom(cw, s)) ==> Reach(cw, p, segments) == Effective(cw, p)
  {
    hide TakesNoRoom, Effective;
    if segments == [] {
    } else {
      ReachMeaning(cw, p, segments[..|segments| - 1]);
      assert segments[|segments| - 1] in segments;
    }
  }

  /** Every finished line is within `reach` and one wide character, a current
      line with content is within `reach`; otherwise the current line is one of
      the two prefixes. */
  ghost predicate Narrow(cw: Widths, p: Layout, g: Page, reach: nat, most: nat)
    requires most >= 1
  {
    && LinesWithin(cw, g.lines, reach + most - 1)
    && (g.hasContent ==> Width(cw, g.current) <= reach)
    && (!g.hasContent ==> g.current == p.prefix || g.current == p.continuation)
  }

  lemma SnocWithin(cw: Widths, lines: seq<string>, text: string, bound: nat)
    requires LinesWithin(cw, lines, bound) && Width(cw, TrimEnd(text)) <= bound
    ensures LinesWithin(cw, lines + [TrimEnd(text)], bound)
  {
  }

  lemma TakeWidth(cw: Widths, text: string, room: nat, most: nat)
    requires NoWider(cw, most) && text != ""
    ensures Width(cw, text[..TakeCount(cw, text, room)]) <= Greater(room, most)
  {
    FitCountFits(cw, text, room);
    if FitCount(cw, text, room) == 0 {
      assert text[..1][1..] == "";
    }
  }

  lemma PrefixesFit(cw: Widths, p: Layout)
    ensures Width(cw, TrimEnd(p.prefix)) <= Effective(cw, p) && Width(cw, p.continuation) <= Effective(cw, p)
  {
  }

  lemma PassNarrow(cw: Widths, p: Layout, g: Page, remaining: string, reach: nat, most: nat)
    requires most >= 1 && NoWider(cw, most) && Narrow(cw, p, g, reach, most) && reach >= Effective(cw, p)
    requires Width(cw, remaining) == 0 ==> !g.hasContent && g.current == p.continuation
    ensures var (g', left) := Pass(cw, p, g, remaining);
      && Narrow(cw, p, g', reach, most)
      && (left.Some? ==> !g'.hasContent && g'.current == p.continuation)
  {
    hide Effective;
    PrefixesFit(cw, p);
    var bound := reach + most - 1;
    WidthTrimEnd(cw, g.current);
    var room := Available(cw, p, g);
    if Width(cw, remaining) <= room {
      WidthConcat(cw, g.current + Joiner(p, g), remaining);
      WidthConcat(cw, g.current, Joiner(p, g));
    } else if g.hasContent || room == 0 {
      SnocWithin(cw, g.lines, g.current, bound);
    } else {
      var k := TakeCount(cw, remaining, room);
      TakeWidth(cw, remaining, room, most);
      WidthConcat(cw, g.current, remaining[..k]);
      WidthTrimEnd(cw, g.current + remaining[..k]);
      SnocWithin(cw, g.lines, g.current + remaining[..k], bound);
    }
  }

  lemma {:induction false} PlaceNarrow(cw: Widths, p: Layout, g: Page, remaining: string, reach: nat, most: nat, passes: nat)
    requires most >= 1 && NoWider(cw, most) && Narrow(cw, p, g, reach, most) && reach >= Effective(cw, p)
    requires Width(cw, remaining) == 0 ==> !g.hasContent && g.current == p.continuation
    requires PlaceWithin(cw, p, g, remaining, passes).Some?
    ensures Narrow(cw, p, PlaceWithin(cw, p, g, remaining, passes).value, reach, most)
    decreases passes
  {
    hide Narrow, NoWider, Pass, Effective, Width;
    PassNarrow(cw, p, g, remaining, reach, most);
    var (g', left) := Pass(cw, p, g, remaining);
    if left.Some? {
      PlaceNarrow(cw, p, g', left.value, reach, most, passes - 1);
    }
  }

  /** A segment without width is placed in one pass, wherever the line ends. */
  lemma EmptyNarrow(cw: Widths, p: Layout, g: Page, segment: string, reach: nat, most: nat, passes: nat)
    requires most >= 1 && Narrow(cw, p, g, reach, most) && reach >= Effective(cw, p)
    requires Width(cw, segment) == 0 && PlaceWithin(cw, p, g, segment, passes).Some?
    ensures Narrow(cw, p, PlaceWithin(cw, p, g, segment, passes).value,
                   Greater(reach, Width(cw, p.prefix)) + Width(cw, p.separator), most)
  {
    hide Effective;
    PrefixesFit(cw, p);
    WidthConcat(cw, g.current + Joiner(p, g), segment);
    WidthConcat(cw, g.current, Joiner(p, g));
    assert Width(cw, "") == 0;
  }

  lemma {:induction false} PlaceAllNarrow(cw: Widths, p: Layout, segments: seq<string>, most: nat)
    requires Terminates(cw, p, segments) && most >= 1 && NoWider(cw, most)
    ensures Narrow(cw, p, PlaceAll(cw, p, Start(p), segments), Reach(cw, p, segments), most)
  {
    hide NoWider, Place, Ends, PlaceWithin, Effective, Width;
    if segments == [] {
      StartNarrow(cw, p, most);
    } else {
      var n := |segments| - 1;
      PlaceAllNarrow(cw, p, segments[..n], most);
      ReachMeaning(cw, p, segments[..n]);
      if segments[n] != "" {
        var before, reach := PlaceAll(cw, p, Start(p), segments[..n]), Reach(cw, p, segments[..n]);
        var passes := EnoughPasses(cw, p, before, segments[n]);
        if Width(cw, segments[n]) == 0 {
          EmptyNarrow(cw, p, before, segments[n], reach, most, passes);
        } else {
          PlaceNarrow(cw, p, before, segments[n], reach, most, passes);
        }
      }
    }
  }

  lemma StartNarrow(cw: Widths, p: Layout, most: nat)
    requires most >= 1
    ensures Narrow(cw, p, Start(p), Effective(cw, p), most)
  {
  }

  /** When no character is wider than `most` columns, no line exceeds its reach
      by more than `most - 1` columns: a single wide character may stick out.
      If every segment has some width the reach is the effective width, so
      lines of one-column characters always fit. */
  lemma WrappedFits(cw: Widths, p: Layout, segments: seq<string>, most: nat)
    requires Terminates(cw, p, segments) && most >= 1 && NoWider(cw, most)
    ensures LinesWithin(cw, Wrapped(cw, p, segments), Reach(cw, p, segments) + most - 1)
    ensures (forall s :: s in segments ==> !TakesNoRoom(cw, s)) ==>
      LinesWithin(cw, Wrapped(cw, p, segments), Effective(cw, p) + most - 1)
  {
    hide PlaceAll, AllEnd, NoWider, Effective, Reach, TakesNoRoom;
    PrefixesFit(cw, p);
    ReachMeaning(cw, p, segments);
    PlaceAllNarrow(cw, p, segments, most);
    PlaceAllCurrent(cw, p, segments);
    var g := PlaceAll(cw, p, Start(p), segments);
    WidthTrimEnd(cw, g.current);
    SnocWithin(cw, g.lines, g.current, Reach(cw, p, segments) + most - 1);
  }

  function ZeroOrOne(c: char): nat {
    if c == '\U{200B}' then 0 else 1
  }

  const EXAMPLE := Layout("", "", " ", 2)

  lemma ExamplePlaced()
    ensures
      var g, h := Page([], "ab", true), Page([], "ab \U{200B}", true);
      && Ends(ZeroOrOne, EXAMPLE, Start(EXAMPLE), "ab") && Place(ZeroOrOne, EXAMPLE, Start(EXAMPLE), "ab") == g
      && Ends(ZeroOrOne, EXAMPLE, g, "\U{200B}") && Place(ZeroOrOne, EXAMPLE, g, "\U{200B}") == h
  {
    hide Width, TrimEnd, TakeCount;
    ExampleWidths();
    var g, h := Page([], "ab", true), Page([], "ab \U{200B}", true);
    assert "" + "" + "ab" == "ab" && "ab" + " " + "\U{200B}" == "ab \U{200B}";
    assert Pass(ZeroOrOne, EXAMPLE, Start(EXAMPLE), "ab") == (g, None);
    assert Pass(ZeroOrOne, EXAMPLE, g, "\U{200B}") == (h, None);
    PlaceIs(ZeroOrOne, EXAMPLE, Start(EXAMPLE), "ab", 1);
    PlaceIs(ZeroOrOne, EXAMPLE, g, "\U{200B}", 1);
  }

  /** The reach is reached: behind a full line a segment without width still gets
      its separator. */
  lemma ZeroWidthSticksOut()
    ensures
      var segments := ["ab", "\U{200B}"];
      && Terminates(ZeroOrOne, EXAMPLE, segments)
      && Wrapped(ZeroOrOne, EXAMPLE, segments) == ["ab \U{200B}"]
      && Width(ZeroOrOne, "ab \U{200B}") == 3 == Reach(ZeroOrOne, EXAMPLE, segments)
      && Effective(ZeroOrOne, EXAMPLE) == 2
  {
    hide Width, TrimEnd, Place, Ends;
    ExampleWidths();
    ExamplePlaced();
    assert ["ab"][..0] == [] && ["ab", "\U{200B}"][..1] == ["ab"];
    NothingPlaced(ZeroOrOne, EXAMPLE, Start(EXAMPLE));
    assert PlaceAll(ZeroOrOne, EXAMPLE, Start(EXAMPLE), ["ab"]) == Page([], "ab", true);
    assert Reach(ZeroOrOne, EXAMPLE, ["ab"]) == 2;
  }

  lemma ExampleWidths()
    ensures Width(ZeroOrOne, "") == 0 && Width(ZeroOrOne, " ") == 1 && Width(ZeroOrOne, "\U{200B}") == 0
    ensures Width(ZeroOrOne, "ab") == 2 && Width(ZeroOrOne, "ab \U{200B}") == 3
    ensures TrimEnd("") == "" && TrimEnd("ab \U{200B}") == "ab \U{200B}"
  {
    assert "ab"[1..] == "b" && "b"[1..] == "" && " "[1..] == "" && "\U{200B}"[1..] == "";
    assert "ab \U{200B}"[1..] == "b \U{200B}" && "b \U{200B}"[1..] == " \U{200B}" && " \U{200B}"[1..] == "\U{200B}";
    assert Width(ZeroOrOne, "b") == 1;
    assert Width(ZeroOrOne, " \U{200B}") == 1;
    assert Width(ZeroOrOne, "b \U{200B}") == 2;
  }

  // --------------------------------------------------------------- termination

  lemma {:induction false} RoomEnds(cw: Widths, p: Layout, g: Page, remaining: string, passes: nat)
    requires HasRoom(cw, p) && passes > 3 * |remaining| + Phase(cw, p, g)
    ensures PlaceWithin(cw, p, g, remaining, passes).Some?
    decreases passes
  {
    hide HasRoom, Pass, Phase;
    PhaseBound(cw, p, g);
    var (g', left) := Pass(cw, p, g, remaining);
    if left.Some? {
      PassProgress(cw, p, g, remaining);
      RoomEnds(cw, p, g', left.value, passes - 1);
    }
  }

  lemma PhaseBound(cw: Widths, p: Layout, g: Page)
    ensures Phase(cw, p, g) <= 2
  {
  }

  /** With room on a continuation line, wrapping terminates on all segments. */
  lemma {:induction false} RoomSuffices(cw: Widths, p: Layout, segments: seq<string>)
    requires HasRoom(cw, p)
    ensures Terminates(cw, p, segments)
  {
    hide HasRoom, PlaceWithin, Place, Phase;
    if segments == [] {
    } else {
      var n := |segments| - 1;
      RoomSuffices(cw, p, segments[..n]);
      var before := PlaceAll(cw, p, Start(p), segments[..n]);
      RoomEnds(cw, p, before, segments[n], 3 * |segments[n]| + Phase(cw, p, before) + 1);
    }
  }

  lemma {:induction false} StallsForever(cw: Widths, p: Layout, g: Page, remaining: string, passes: nat)
    requires !HasRoom(cw, p) && g.current == p.continuation && !g.hasContent && Width(cw, remaining) > 0
    ensures PlaceWithin(cw, p, g, remaining, passes) == None
    decreases passes
  {
    if passes == 0 {
    } else {
      var (g', left) := Pass(cw, p, g, remaining);
      assert Available(cw, p, g) == 0;
      StallsForever(cw, p, g', remaining, passes - 1);
    }
  }

  /** Without room on continuation lines a segment must fit here, or be cut on a
      line without content so that nothing with width is left. */
  ghost predicate EndsHere(cw: Widths, p: Layout, g: Page, segment: string) {
    var room := Available(cw, p, g);
    || Width(cw, segment) <= room
    || (!g.hasContent && room > 0 && Width(cw, segment[TakeCount(cw, segment, room)..]) == 0)
  }

  lemma EndsExactlyWhen(cw: Widths, p: Layout, g: Page, segment: string)
    ensures Ends(cw, p, g, segment) <==> HasRoom(cw, p) || EndsHere(cw, p, g, segment)
  {
    if HasRoom(cw, p) {
      RoomEnds(cw, p, g, segment, 3 * |segment| + Phase(cw, p, g) + 1);
    } else {
      NoRoomEnds(cw, p, g, segment);
    }
  }

  lemma NoRoomEnds(cw: Widths, p: Layout, g: Page, segment: string)
    requires !HasRoom(cw, p)
    ensures Ends(cw, p, g, segment) <==> EndsHere(cw, p, g, segment)
  {
    hide HasRoom, Width, TakeCount, TrimEnd, Effective;
    var (g', left) := Pass(cw, p, g, segment);
    if EndsHere(cw, p, g, segment) {
      var passes := if left.None? then 1 else 2;
      assert PlaceWithin(cw, p, g, segment, passes).Some?;
    } else {
      forall passes: nat ensures PlaceWithin(cw, p, g, segment, passes) == None {
        if passes > 0 {
          StallsForever(cw, p, g', left.value, passes - 1);
        }
      }
    }
  }

  /** Wrapping one more segment terminates exactly when it did before and there
      is room on continuation lines or the segment ends where the line is. */
  lemma TerminatesStep(cw: Widths, p: Layout, segments: seq<string>, last: string)
    ensures Terminates(cw, p, segments + [last]) <==>
      && Terminates(cw, p, segments)
      && (last == "" || HasRoom(cw, p) || EndsHere(cw, p, PlaceAll(cw, p, Start(p), segments), last))
  {
    hide HasRoom, EndsHere, Ends, Place;
    assert (segments + [last])[..|segments|] == segments;
    if Terminates(cw, p, segments) {
      EndsExactlyWhen(cw, p, PlaceAll(cw, p, Start(p), segments), last);
    }
  }

  function Repeat(c: char, n: nat): string {
    seq(n, _ => c)
  }

  lemma {:induction false} RepeatWidth(cw: Widths, c: char, n: nat)
    requires cw(c) > 0
    ensures Width(cw, Repeat(c, n)) >= n
  {
    if n == 0 {
    } else {
      assert Repeat(c, n)[1..] == Repeat(c, n - 1);
      RepeatWidth(cw, c, n - 1);
    }
  }

  lemma RepeatTake(cw: Widths, c: char, n: nat, room: nat)
    requires cw(c) > 0 && room + 1 < n
    ensures var k := TakeCount(cw, Repeat(c, n), room);
      k < n && Repeat(c, n)[k..] == Repeat(c, n - k)
  {
    var s := Repeat(c, n);
    var fit := FitCount(cw, s, room);
    FitCountFits(cw, s, room);
    assert s[..fit] == Repeat(c, fit);
    RepeatWidth(cw, c, fit);
  }

  /** A segment too long for a first line stalls when continuation lines have
      no room. */
  lemma LongSegmentStalls(cw: Widths, p: Layout, c: char)
    requires !HasRoom(cw, p) && cw(c) > 0
    ensures !Ends(cw, p, Start(p), Repeat(c, Effective(cw, p) + 2))
  {
    hide HasRoom, Effective, TakeCount, Width, Repeat;
    var n := Effective(cw, p) + 2;
    var s := Repeat(c, n);
    RepeatWidth(cw, c, n);
    var room := Available(cw, p, Start(p));
    RepeatTake(cw, c, n, room);
    var k := TakeCount(cw, s, room);
    RepeatWidth(cw, c, n - k);
    var (g', left) := Pass(cw, p, Start(p), s);
    forall passes: nat ensures PlaceWithin(cw, p, Start(p), s, passes) == None {
      if passes > 0 {
        StallsForever(cw, p, g', left.value, passes - 1);
      }
    }
  }

  lemma LongTextStalls(cw: Widths, p: Layout, c: char)
    requires !HasRoom(cw, p) && cw(c) > 0
    ensures !Terminates(cw, p, [Repeat(c, Effective(cw, p) + 2)])
  {
    LongSegmentStalls(cw, p, c);
    hide HasRoom, Effective, Ends, Place, Repeat;
    var s := Repeat(c, Effective(cw, p) + 2);
    RepeatNotEmpty(c, Effective(cw, p) + 2);
    assert [s][..0] == [];
    NothingPlaced(cw, p, Start(p));
  }

  lemma RepeatNotEmpty(c: char, n: nat)
    requires n > 0
    ensures Repeat(c, n) != ""
  {
  }

  /** Wrapping terminates on all segments exactly when the effective width
      exceeds the width of the continuation prefix; otherwise a long segment
      makes the loop go round on an empty continuation line for ever. */
  lemma TerminatesExactlyWhen(cw: Widths, p: Layout, c: char)
    requires cw(c) > 0
    ensures HasRoom(cw, p) <==> forall segments: seq<string> :: Terminates(cw, p, segments)
  {
    hide HasRoom, Terminates;
    if HasRoom(cw, p) {
      forall segments: seq<string> ensures Terminates(cw, p, segments) {
        RoomSuffices(cw, p, segments);
      }
    } else {
      LongTextStalls(cw, p, c);
    }
  }
}
