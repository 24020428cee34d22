/** Exactly when all wrapped lines fit the effective width. */
module WrapWidths {
  import opened Text
  import opened Results
  import opened Wrap

  ghost predicate Fits(cw: Widths, p: Layout, segments: seq<string>)
    requires Terminates(cw, p, segments)
  {
    LinesWithin(cw, Wrapped(cw, p, segments), Effective(cw, p))
  }

  /** A line that starts with `start` has no room at all, or room for every
      character. */
  predicate NoNarrowRoom(cw: Widths, p: Layout, start: string, most: nat) {
    Width(cw, start) >= Effective(cw, p) || Effective(cw, p) - Width(cw, start) >= most
  }

  /** No wide character can meet a rest of a line that is too narrow for it. */
  predicate WideSafe(cw: Widths, p: Layout, most: nat) {
    NoNarrowRoom(cw, p, p.prefix, most) && NoNarrowRoom(cw, p, p.continuation, most)
  }

  /** Segments without width cannot widen a line. */
  predicate ZeroSafe(cw: Widths, p: Layout) {
    Width(cw, p.separator) == 0 && Width(cw, p.prefix) <= Effective(cw, p)
  }

  ghost predicate AllHaveWidth(cw: Widths, segments: seq<string>) {
    forall s :: s in segments ==> !TakesNoRoom(cw, s)
  }

  // ---------------------------------------------------------------- sufficiency

  lemma PassTight(cw: Widths, p: Layout, g: Page, remaining: string, most: nat)
    requires NoWider(cw, most) && WideSafe(cw, p, most) && Narrow(cw, p, g, Effective(cw, p), 1)
    requires Width(cw, remaining) == 0 ==> !g.hasContent && g.current == p.continuation
    ensures var (g', left) := Pass(cw, p, g, remaining);
      && Narrow(cw, p, g', Effective(cw, p), 1)
      && (left.Some? ==> !g'.hasContent && g'.current == p.continuation)
  {
    hide Effective;
    PrefixesFit(cw, p);
    WidthTrimEnd(cw, g.current);
    var room := Available(cw, p, g);
    if Width(cw, remaining) <= room {
      WidthConcat(cw, g.current + Joiner(p, g), remaining);
      WidthConcat(cw, g.current, Joiner(p, g));
    } else if g.hasContent || room == 0 {
      SnocWithin(cw, g.lines, g.current, Effective(cw, p));
    } else {
      var k := TakeCount(cw, remaining, room);
      TakeWidth(cw, remaining, room, most);
      WidthConcat(cw, g.current, remaining[..k]);
      WidthTrimEnd(cw, g.current + remaining[..k]);
      assert Width(cw, "") == 0;
      SnocWithin(cw, g.lines, g.current + remaining[..k], Effective(cw, p));
    }
  }

  lemma {:induction false} PlaceTight(cw: Widths, p: Layout, g: Page, remaining: string, most: nat, passes: nat)
    requires NoWider(cw, most) && WideSafe(cw, p, most) && Narrow(cw, p, g, Effective(cw, p), 1)
    requires Width(cw, remaining) == 0 ==> !g.hasContent && g.current == p.continuation
    requires PlaceWithin(cw, p, g, remaining, passes).Some?
    ensures Narrow(cw, p, PlaceWithin(cw, p, g, remaining, passes).value, Effective(cw, p), 1)
    decreases passes
  {
    hide Narrow, NoWider, WideSafe, Pass, Effective, Width;
    PassTight(cw, p, g, remaining, most);
    var (g', left) := Pass(cw, p, g, remaining);
    if left.Some? {
      PlaceTight(cw, p, g', left.value, most, passes - 1);
    }
  }

  lemma ZeroTight(cw: Widths, p: Layout, g: Page, segment: string, passes: nat)
    requires ZeroSafe(cw, p) && Narrow(cw, p, g, Effective(cw, p), 1)
    requires Width(cw, segment) == 0 && PlaceWithin(cw, p, g, segment, passes).Some?
    ensures Narrow(cw, p, PlaceWithin(cw, p, g, segment, passes).value, Effective(cw, p), 1)
  {
    hide Narrow, Effective, PlaceWithin;
    EmptyNarrow(cw, p, g, segment, Effective(cw, p), 1, passes);
  }

  lemma {:induction false} PlaceAllTight(cw: Widths, p: Layout, segments: seq<string>, most: nat)
    requires NoWider(cw, most) && WideSafe(cw, p, most) && Terminates(cw, p, segments)
    requires AllHaveWidth(cw, segments) || ZeroSafe(cw, p)
    ensures Narrow(cw, p, PlaceAll(cw, p, Start(p), segments), Effective(cw, p), 1)
  {
    hide NoWider, WideSafe, ZeroSafe, Place, Ends, PlaceWithin, Effective, Width;
    if segments == [] {
      StartNarrow(cw, p, 1);
    } else {
      var n := |segments| - 1;
      assert segments[n] in segments;
      PlaceAllTight(cw, p, segments[..n], most);
      if segments[n] != "" {
        var before := PlaceAll(cw, p, Start(p), segments[..n]);
        var passes := EnoughPasses(cw, p, before, segments[n]);
        if Width(cw, segments[n]) == 0 {
          ZeroTight(cw, p, before, segments[n], passes);
        } else {
          PlaceTight(cw, p, before, segments[n], most, passes);
        }
      }
    }
  }

  lemma SafeFits(cw: Widths, p: Layout, segments: seq<string>, most: nat)
    requires NoWider(cw, most) && WideSafe(cw, p, most) && Terminates(cw, p, segments)
    requires AllHaveWidth(cw, segments) || ZeroSafe(cw, p)
    ensures Fits(cw, p, segments)
  {
    hide PlaceAll, AllEnd, NoWider, WideSafe, ZeroSafe, AllHaveWidth, Effective;
    PrefixesFit(cw, p);
    PlaceAllTight(cw, p, segments, most);
    PlaceAllCurrent(cw, p, segments);
    var g := PlaceAll(cw, p, Start(p), segments);
    WidthTrimEnd(cw, g.current);
    SnocWithin(cw, g.lines, g.current, Effective(cw, p));
  }

  // ---------------------------------------------------------- lines that stick out

  lemma {:induction false} LinesStay(cw: Widths, p: Layout, g: Page, remaining: string, passes: nat)
    requires PlaceWithin(cw, p, g, remaining, passes).Some?
    ensures g.lines <= PlaceWithin(cw, p, g, remaining, passes).value.lines
    decreases passes
  {
    hide TrimEnd, TakeCount, Width, Available;
    var (g', left) := Pass(cw, p, g, remaining);
    if left.Some? {
      LinesStay(cw, p, g', left.value, passes - 1);
    }
  }

  lemma OneSegment(cw: Widths, p: Layout, segment: string)
    requires segment != ""
    ensures Terminates(cw, p, [segment]) <==> Ends(cw, p, Start(p), segment)
    ensures Ends(cw, p, Start(p), segment) ==>
      Wrapped(cw, p, [segment]) == Finish(Place(cw, p, Start(p), segment))
  {
    hide Ends, Place;
    assert [segment][..0] == [];
    NothingPlaced(cw, p, Start(p));
  }

  lemma KeptWide(text: string, w: char)
    requires !IsWhitespace(w)
    ensures TrimEnd(text + [w]) == text + [w]
  {
  }

  /** On a line with some room, but too little for `w`, the first `w` sticks out. */
  lemma CutSticksOut(cw: Widths, p: Layout, g: Page, w: char, n: nat)
    requires !g.hasContent && 0 < Available(cw, p, g) < cw(w) && n > 0 && !IsWhitespace(w)
    ensures Pass(cw, p, g, Repeat(w, n)) ==
      (Page(g.lines + [g.current + [w]], p.continuation, false), Some(Repeat(w, n - 1)))
  {
    var s := Repeat(w, n);
    RepeatHead(w, n);
    KeptWide(g.current, w);
    assert Width(cw, s) == cw(w) + Width(cw, s[1..]);
    assert TakeCount(cw, s, Available(cw, p, g)) == 1;
    assert s[..1] == [w];
  }

  lemma RepeatHead(c: char, n: nat)
    requires n > 0
    ensures Repeat(c, n)[0] == c && Repeat(c, n)[1..] == Repeat(c, n - 1)
  {
  }

  lemma WiderThan(cw: Widths, p: Layout, g: Page, w: char)
    requires !g.hasContent && 0 < Available(cw, p, g) < cw(w)
    ensures Width(cw, g.current + [w]) > Effective(cw, p)
  {
    hide Effective;
    WidthConcat(cw, g.current, [w]);
    assert [w][1..] == "" && Width(cw, [w]) == cw(w);
    assert Width(cw, "") == 0;
  }

  lemma RoomOnStart(cw: Widths, p: Layout, g: Page)
    requires !g.hasContent
    ensures Available(cw, p, g) ==
      if Width(cw, g.current) >= Effective(cw, p) then 0 else Effective(cw, p) - Width(cw, g.current)
  {
    assert Width(cw, "") == 0;
  }

  lemma FinishedLine(cw: Widths, p: Layout, segment: string, line: string)
    requires segment != "" && Ends(cw, p, Start(p), segment)
    requires line in Place(cw, p, Start(p), segment).lines && Width(cw, line) > Effective(cw, p)
    ensures Terminates(cw, p, [segment]) && !Fits(cw, p, [segment])
  {
    hide Ends, Place, Terminates, Wrapped, Effective, Width;
    OneSegment(cw, p, segment);
    assert line in Wrapped(cw, p, [segment]);
  }

  /** Too little room behind the prefix: one character is enough. */
  lemma PrefixSticksOut(cw: Widths, p: Layout, w: char)
    requires !NoNarrowRoom(cw, p, p.prefix, cw(w)) && !IsWhitespace(w)
    ensures Terminates(cw, p, [[w]]) && !Fits(cw, p, [[w]])
  {
    hide Effective, TrimEnd, Width;
    var g := Start(p);
    RoomOnStart(cw, p, g);
    assert [w] == Repeat(w, 1) && "" == Repeat(w, 0);
    CutSticksOut(cw, p, g, w, 1);
    assert g.lines + [g.current + [w]] == [p.prefix + [w]];
    WiderThan(cw, p, g, w);
    var g1 := Page([p.prefix + [w]], p.continuation, false);
    assert Pass(cw, p, g, [w]) == (g1, Some(""));
    NothingLeft(cw, p, g1);
    PlaceIs(cw, p, g, [w], 2);
    FinishedLine(cw, p, [w], p.prefix + [w]);
  }

  lemma NothingLeft(cw: Widths, p: Layout, g: Page)
    ensures Pass(cw, p, g, "").1 == None && Pass(cw, p, g, "").0.lines == g.lines
  {
    assert Width(cw, "") == 0;
  }

  /** Too little room on continuation lines: a text of that character that does
      not fit the first line. */
  lemma ContinuationSticksOut(cw: Widths, p: Layout, w: char)
    requires !NoNarrowRoom(cw, p, p.continuation, cw(w)) && !IsWhitespace(w)
    ensures Terminates(cw, p, [Repeat(w, Effective(cw, p) + 2)]) && !Fits(cw, p, [Repeat(w, Effective(cw, p) + 2)])
  {
    hide Effective, TrimEnd, Width, TakeCount, Repeat, PlaceWithin, Phase;
    var n := Effective(cw, p) + 2;
    var s := Repeat(w, n);
    RepeatNotEmpty(w, n);
    var g := Start(p);
    RepeatWidth(cw, w, n);
    RoomOnStart(cw, p, g);
    RepeatTake(cw, w, n, Available(cw, p, g));
    var (g1, left) := Pass(cw, p, g, s);
    var k := if Available(cw, p, g) == 0 then 0 else TakeCount(cw, s, Available(cw, p, g));
    assert left == Some(Repeat(w, n - k)) && g1.current == p.continuation && !g1.hasContent;
    RoomOnStart(cw, p, g1);
    CutSticksOut(cw, p, g1, w, n - k);
    WiderThan(cw, p, g1, w);
    var (g2, left2) := Pass(cw, p, g1, left.value);
    var passes := 3 * |s| + Phase(cw, p, g) + 3;
    RoomEnds(cw, p, g, s, passes);
    PlaceIs(cw, p, g, s, passes);
    ThirdOn(cw, p, g, s, passes);
    LinesStay(cw, p, g2, left2.value, passes - 2);
    var line := p.continuation + [w];
    assert line == g2.lines[|g2.lines| - 1];
    assert line in Place(cw, p, g, s).lines;
    FinishedLine(cw, p, s, line);
  }

  lemma ThirdOn(cw: Widths, p: Layout, g: Page, s: string, passes: nat)
    requires PlaceWithin(cw, p, g, s, passes).Some?
    requires Pass(cw, p, g, s).1.Some?
    requires var (g1, left) := Pass(cw, p, g, s); Pass(cw, p, g1, left.value).1.Some?
    ensures passes > 2
    ensures var (g1, left) := Pass(cw, p, g, s);
      var (g2, left2) := Pass(cw, p, g1, left.value);
      PlaceWithin(cw, p, g, s, passes) == PlaceWithin(cw, p, g2, left2.value, passes - 2)
  {
    hide Pass;
    OnePass(cw, p, g, s, passes);
    var (g1, left) := Pass(cw, p, g, s);
    OnePass(cw, p, g1, left.value, passes - 1);
    var (g2, left2) := Pass(cw, p, g1, left.value);
    OnePass(cw, p, g2, left2.value, passes - 2);
  }

  // -------------------------------------------------------------- the two theorems

  /** When no character is wider than `w`, all texts whose segments have width fit
      the effective width exactly when the prefix and the continuation leave
      either no room at all or room for `w`. */
  lemma WideFitsExactlyWhen(cw: Widths, p: Layout, w: char)
    requires NoWider(cw, cw(w)) && cw(w) >= 1 && !IsWhitespace(w)
    ensures WideSafe(cw, p, cw(w)) <==>
      forall segments :: Terminates(cw, p, segments) && AllHaveWidth(cw, segments) ==> Fits(cw, p, segments)
  {
    hide Terminates, Fits, AllHaveWidth, NoWider, NoNarrowRoom, Repeat;
    if WideSafe(cw, p, cw(w)) {
      forall segments | Terminates(cw, p, segments) && AllHaveWidth(cw, segments) ensures Fits(cw, p, segments) {
        SafeFits(cw, p, segments, cw(w));
      }
    } else if !NoNarrowRoom(cw, p, p.prefix, cw(w)) {
      PrefixSticksOut(cw, p, w);
      HasWidth(cw, w, 1);
      assert Repeat(w, 1) == [w] by {
        RepeatOne(w);
      }
    } else {
      ContinuationSticksOut(cw, p, w);
      HasWidth(cw, w, Effective(cw, p) + 2);
    }
  }

  lemma RepeatOne(c: char)
    ensures Repeat(c, 1) == [c]
  {
  }

  lemma HasWidth(cw: Widths, w: char, n: nat)
    requires cw(w) >= 1 && n > 0
    ensures AllHaveWidth(cw, [Repeat(w, n)])
  {
    RepeatWidth(cw, w, n);
  }

  lemma {:induction false} WidthOfOnes(cw: Widths, x: char, n: nat)
    requires cw(x) == 1
    ensures Width(cw, Repeat(x, n)) == n
  {
    if n == 0 {
    } else {
      RepeatHead(x, n);
      WidthOfOnes(cw, x, n - 1);
    }
  }

  /** Fills the first line exactly, then adds a segment without width. */
  function Filling(cw: Widths, p: Layout, z: char, x: char): seq<string>
    requires Width(cw, p.prefix) <= Effective(cw, p)
  {
    [Repeat(x, Effective(cw, p) - Width(cw, p.prefix)) + [z], [z]]
  }

  lemma TwoPlaced(cw: Widths, p: Layout, a: string, b: string, g: Page, h: Page)
    requires a != "" && b != ""
    requires Pass(cw, p, Start(p), a) == (g, None) && Pass(cw, p, g, b) == (h, None)
    ensures Terminates(cw, p, [a, b]) && Wrapped(cw, p, [a, b]) == Finish(h)
  {
    hide Pass;
    PlaceIs(cw, p, Start(p), a, 1);
    PlaceIs(cw, p, g, b, 1);
    assert [a][..0] == [] && [a, b][..1] == [a];
    NothingPlaced(cw, p, Start(p));
    PlaceAllTwo(cw, p, a, b, g);
  }

  lemma PlaceAllTwo(cw: Widths, p: Layout, a: string, b: string, g: Page)
    requires a != "" && b != ""
    requires Ends(cw, p, Start(p), a) && Place(cw, p, Start(p), a) == g && Ends(cw, p, g, b)
    ensures AllEnd(cw, p, Start(p), [a, b]) && PlaceAll(cw, p, Start(p), [a, b]) == Place(cw, p, g, b)
  {
    hide Ends, Place;
    assert [a][..0] == [] && [a, b][..1] == [a];
    NothingPlaced(cw, p, Start(p));
    assert AllEnd(cw, p, Start(p), [a]) && PlaceAll(cw, p, Start(p), [a]) == g;
  }

  lemma SeparatorSticksOut(cw: Widths, p: Layout, z: char, x: char)
    requires cw(z) == 0 && !IsWhitespace(z) && cw(x) == 1
    requires Width(cw, p.prefix) <= Effective(cw, p) && Width(cw, p.separator) > 0
    ensures Terminates(cw, p, Filling(cw, p, z, x)) && !Fits(cw, p, Filling(cw, p, z, x))
  {
    var n := Effective(cw, p) - Width(cw, p.prefix);
    FillingWidths(cw, p, z, x, n);
    hide Effective, TrimEnd, Width, TakeCount, Repeat;
    var a := Repeat(x, n) + [z];
    var g := Page([], p.prefix + "" + a, true);
    var h := Page([], g.current + p.separator + [z], true);
    RoomOnStart(cw, p, Start(p));
    assert Pass(cw, p, Start(p), a) == (g, None);
    assert Pass(cw, p, g, [z]) == (h, None);
    TwoPlaced(cw, p, a, [z], g, h);
    KeptWide(g.current + p.separator, z);
    WidthConcat(cw, g.current + p.separator, [z]);
    WidthConcat(cw, g.current, p.separator);
    assert h.current in Wrapped(cw, p, [a, [z]]);
  }

  lemma FillingWidths(cw: Widths, p: Layout, z: char, x: char, n: nat)
    requires cw(z) == 0 && cw(x) == 1
    ensures Width(cw, [z]) == 0 && Width(cw, Repeat(x, n) + [z]) == n
    ensures Width(cw, p.prefix + "" + (Repeat(x, n) + [z])) == Width(cw, p.prefix) + n
  {
    hide Repeat;
    assert [z][1..] == "" && Width(cw, "") == 0;
    WidthOfOnes(cw, x, n);
    WidthConcat(cw, Repeat(x, n), [z]);
    assert p.prefix + "" == p.prefix;
    WidthConcat(cw, p.prefix, Repeat(x, n) + [z]);
  }

  lemma WidePrefixSticksOut(cw: Widths, p: Layout, z: char)
    requires cw(z) == 0 && !IsWhitespace(z) && Width(cw, p.prefix) > Effective(cw, p)
    ensures Terminates(cw, p, [[z]]) && !Fits(cw, p, [[z]])
  {
    hide Effective, TrimEnd, TakeCount;
    var g := Page([], p.prefix + "" + [z], true);
    assert [z][1..] == "" && Width(cw, [z]) == 0;
    assert Pass(cw, p, Start(p), [z]) == (g, None);
    PlaceIs(cw, p, Start(p), [z], 1);
    OneSegment(cw, p, [z]);
    assert p.prefix + "" == p.prefix;
    KeptWide(p.prefix, z);
    WidthConcat(cw, p.prefix, [z]);
    assert g.current in Wrapped(cw, p, [[z]]);
  }

  /** When wide characters are no danger, all texts fit exactly when the separator
      takes no columns and the prefix is no wider than the line. */
  lemma ZeroFitsExactlyWhen(cw: Widths, p: Layout, most: nat, z: char, x: char)
    requires NoWider(cw, most) && WideSafe(cw, p, most)
    requires cw(z) == 0 && !IsWhitespace(z) && cw(x) == 1
    ensures ZeroSafe(cw, p) <==> forall segments :: Terminates(cw, p, segments) ==> Fits(cw, p, segments)
  {
    hide Terminates, Fits, AllHaveWidth, NoWider, WideSafe, Filling;
    if ZeroSafe(cw, p) {
      forall segments | Terminates(cw, p, segments) ensures Fits(cw, p, segments) {
        SafeFits(cw, p, segments, most);
      }
    } else if Width(cw, p.prefix) > Effective(cw, p) {
      WidePrefixSticksOut(cw, p, z);
    } else {
      SeparatorSticksOut(cw, p, z, x);
    }
  }

  /** The two together: given a widest character, one without width and one of one
      column, all texts fit exactly when neither kind is a danger. */
  lemma FitsExactlyWhen(cw: Widths, p: Layout, w: char, z: char, x: char)
    requires NoWider(cw, cw(w)) && cw(w) >= 1 && !IsWhitespace(w)
    requires cw(z) == 0 && !IsWhitespace(z) && cw(x) == 1
    ensures WideSafe(cw, p, cw(w)) && ZeroSafe(cw, p) <==>
      forall segments :: Terminates(cw, p, segments) ==> Fits(cw, p, segments)
  {
    hide Terminates, Fits, AllHaveWidth, NoWider, WideSafe, ZeroSafe;
    WideFitsExactlyWhen(cw, p, w);
    if WideSafe(cw, p, cw(w)) {
      ZeroFitsExactlyWhen(cw, p, cw(w), z, x);
    }
  }

  /** With characters of at most one column wide characters are never a danger. */
  lemma OnesAreSafe(cw: Widths, p: Layout)
    ensures WideSafe(cw, p, 1)
  {
  }

  /** So where no character is wider than one column only text without width can
      stick out: all texts fit exactly when the separator takes no columns and the
      prefix is no wider than the line. */
  lemma OnesFitExactlyWhen(cw: Widths, p: Layout, z: char, x: char)
    requires NoWider(cw, 1) && cw(z) == 0 && !IsWhitespace(z) && cw(x) == 1
    ensures ZeroSafe(cw, p) <==> forall segments :: Terminates(cw, p, segments) ==> Fits(cw, p, segments)
  {
    hide Terminates, Fits, NoWider, WideSafe, ZeroSafe;
    OnesAreSafe(cw, p);
    ZeroFitsExactlyWhen(cw, p, 1, z, x);
  }

  // ------------------------------------------------------------------- a wide example

  const HAN: char := '\U{6F22}'

  function OneOrTwo(c: char): nat {
    if c == HAN then 2 else 1
  }

  /** Three columns, a prefix of two, and a character of two: the line takes four,
      and an empty line follows. */
  lemma WideSticksOut()
    ensures
      var p := Layout("- ", "  ", " ", 3);
      && Effective(OneOrTwo, p) == 3
      && Terminates(OneOrTwo, p, [[HAN]])
      && Wrapped(OneOrTwo, p, [[HAN]]) == ["- " + [HAN], ""]
      && Width(OneOrTwo, "- " + [HAN]) == 4
  {
    var p := Layout("- ", "  ", " ", 3);
    HanWidths();
    hide Width, TrimEnd, TakeCount;
    var g := Start(p);
    var g1 := Page(["- " + [HAN]], "  ", false);
    RoomOnStart(OneOrTwo, p, g);
    CutSticksOut(OneOrTwo, p, g, HAN, 1);
    assert [HAN] == Repeat(HAN, 1) && "" == Repeat(HAN, 0);
    assert g.lines + [g.current + [HAN]] == ["- " + [HAN]];
    assert Pass(OneOrTwo, p, g, [HAN]) == (g1, Some(""));
    assert "  " + "" + "" == "  ";
    assert Pass(OneOrTwo, p, g1, "") == (Page(["- " + [HAN]], "  ", true), None);
    PlaceIs(OneOrTwo, p, g, [HAN], 2);
    OneSegment(OneOrTwo, p, [HAN]);
  }

  lemma HanWidths()
    ensures Width(OneOrTwo, "") == 0 && Width(OneOrTwo, "- ") == 2 && Width(OneOrTwo, "  ") == 2
    ensures Width(OneOrTwo, [HAN]) == 2 && Width(OneOrTwo, "- " + [HAN]) == 4
    ensures TrimEnd("- ") == "-" && Width(OneOrTwo, "-") == 1 && TrimEnd("  ") == ""
    ensures !IsWhitespace(HAN)
  {
    assert [HAN][1..] == "" && "-"[1..] == "" && " "[1..] == "" && "- "[1..] == " " && "  "[1..] == " ";
    assert Width(OneOrTwo, " ") == 1;
    WidthConcat(OneOrTwo, "- ", [HAN]);
    assert "- "[..1] == "-" && "  "[..1] == " " && " "[..0] == "";
  }
}
