/** `render_wrapped_text_line_with_continuation` of crates/app/src/presentation.rs:
    the words of a text, wrapped, and exactly when they stay whole. */
module WrapWords {
  import opened Text
  import opened Results
  import opened Wrap

  /** `str::split_whitespace` */
  function SplitWhitespace(s: string): seq<string>
    decreases |s|
  {
    var t := TrimStart(s);
    if t == "" then []
    else
      var k := WordLength(t);
      ShorterTail(s);
      [t[..k]] + SplitWhitespace(t[k..])
  }

  function WordLength(s: string): (k: nat)
    ensures k <= |s|
    ensures s != "" && !IsWhitespace(s[0]) ==> k > 0
    ensures forall i :: 0 <= i < k ==> !IsWhitespace(s[i])
  {
    if s == "" || IsWhitespace(s[0]) then 0 else 1 + WordLength(s[1..])
  }

  lemma ShorterTail(s: string)
    ensures |TrimStart(s)| <= |s|
    ensures TrimStart(s) != "" ==> !IsWhitespace(TrimStart(s)[0]) && WordLength(TrimStart(s)) > 0
  {
    var pad := TrimStartParts(s);
  }

  lemma {:induction false} VisibleWord(s: string)
    requires forall i :: 0 <= i < |s| ==> !IsWhitespace(s[i])
    ensures Visible(s) == s
  {
    if s == "" {
    } else {
      VisibleWord(s[1..]);
    }
  }

  lemma {:induction false} SplitWhitespaceKeeps(s: string)
    ensures Visible(Concat(SplitWhitespace(s))) == Visible(s)
    decreases |s|
  {
    hide Visible, TrimStart, WordLength, Concat, IsBlank;
    var pad := TrimStartParts(s);
    var t := TrimStart(s);
    VisibleConcat(pad, t);
    VisibleBlank(pad);
    EmptyTexts();
    if t == "" {
    } else {
      ShorterTail(s);
      var k := WordLength(t);
      SplitWhitespaceKeeps(t[k..]);
      assert t == t[..k] + t[k..];
      VisibleConcat(t[..k], t[k..]);
      ConcatCons(t[..k], SplitWhitespace(t[k..]));
      VisibleConcat(t[..k], Concat(SplitWhitespace(t[k..])));
    }
  }

  // --------------------------------------------------------------------- words

  predicate IsWord(w: string) {
    w != "" && forall i :: 0 <= i < |w| ==> !IsWhitespace(w[i])
  }

  ghost predicate AreWords(words: seq<string>) {
    forall w :: w in words ==> IsWord(w)
  }

  /** The words of a text with what stands before, between and after them. */
  function Spaced(words: seq<string>, gaps: seq<string>): string
    requires |gaps| == |words| + 1
  {
    if words == [] then gaps[0] else gaps[0] + words[0] + Spaced(words[1..], gaps[1..])
  }

  /** All gaps are blank, and those between two words are not empty. */
  ghost predicate AreGaps(gaps: seq<string>) {
    && (forall i :: 0 <= i < |gaps| ==> IsBlank(gaps[i]))
    && (forall i :: 0 < i < |gaps| - 1 ==> gaps[i] != "")
  }

  /** The text is its words with blanks between them. */
  lemma {:induction false} SplitWhitespaceMeaning(s: string) returns (gaps: seq<string>)
    ensures AreWords(SplitWhitespace(s))
    ensures |gaps| == |SplitWhitespace(s)| + 1 && AreGaps(gaps) && Spaced(SplitWhitespace(s), gaps) == s
    decreases |s|
  {
    hide TrimStart, IsBlank, IsWord, AreGaps, Spaced, WordLength;
    var pad := TrimStartParts(s);
    var t := TrimStart(s);
    if t == "" {
      gaps := [pad];
      NoWords(pad);
      assert pad + "" == pad;
    } else {
      ShorterTail(s);
      FirstWord(t);
      var k := WordLength(t);
      var word, rest := t[..k], t[k..];
      var tail := SplitWhitespaceMeaning(rest);
      gaps := [pad] + tail;
      SpacedCons(pad, word, rest, SplitWhitespace(rest), tail);
      assert s == pad + word + rest by {
        assert pad + t == pad + (word + rest);
      }
    }
  }

  lemma NoWords(pad: string)
    requires IsBlank(pad)
    ensures AreGaps([pad]) && Spaced([], [pad]) == pad
  {
  }

  lemma FirstWord(s: string)
    requires s != "" && !IsWhitespace(s[0])
    ensures 0 < WordLength(s) <= |s| && IsWord(s[..WordLength(s)])
    ensures WordLength(s) < |s| ==> IsWhitespace(s[WordLength(s)])
  {
    WordEnds(s);
  }

  lemma SpacedCons(gap: string, word: string, rest: string, words: seq<string>, gaps: seq<string>)
    requires IsBlank(gap) && AreWords(words) && |gaps| == |words| + 1 && AreGaps(gaps) && Spaced(words, gaps) == rest
    requires rest != "" ==> IsWhitespace(rest[0])
    ensures AreGaps([gap] + gaps) && Spaced([word] + words, [gap] + gaps) == gap + word + rest
  {
    hide IsBlank, IsWord;
    GapAfterWord(words, gaps, rest);
    assert ([word] + words)[1..] == words && ([gap] + gaps)[1..] == gaps;
  }

  lemma {:induction false} WordEnds(s: string)
    ensures WordLength(s) < |s| ==> IsWhitespace(s[WordLength(s)])
  {
    if s == "" || IsWhitespace(s[0]) {
    } else {
      WordEnds(s[1..]);
    }
  }

  /** A text that does not start with a word starts with a gap. */
  lemma GapAfterWord(words: seq<string>, gaps: seq<string>, s: string)
    requires |gaps| == |words| + 1 && Spaced(words, gaps) == s && AreWords(words)
    requires s != "" ==> IsWhitespace(s[0])
    ensures words != [] ==> gaps[0] != ""
  {
    assert words != [] ==> IsWord(words[0]);
  }

  lemma {:induction false} WordLengthOf(word: string, rest: string)
    requires forall i :: 0 <= i < |word| ==> !IsWhitespace(word[i])
    requires rest != "" ==> IsWhitespace(rest[0])
    ensures WordLength(word + rest) == |word|
  {
    if word == "" {
      assert word + rest == rest;
    } else {
      assert (word + rest)[1..] == word[1..] + rest;
      WordLengthOf(word[1..], rest);
    }
  }

  /** The first word of a text. */
  lemma SplitFirst(gap: string, word: string, rest: string)
    requires IsBlank(gap) && IsWord(word) && (rest != "" ==> IsWhitespace(rest[0]))
    ensures SplitWhitespace(gap + word + rest) == [word] + SplitWhitespace(rest)
  {
    hide TrimStart, IsBlank;
    TrimStartOf(gap, word + rest);
    assert gap + (word + rest) == gap + word + rest;
    WordLengthOf(word, rest);
    assert (word + rest)[..|word|] == word && (word + rest)[|word|..] == rest;
  }

  /** And no other list of words gives the text. */
  lemma {:induction false} SplitWhitespaceOf(words: seq<string>, gaps: seq<string>)
    requires AreWords(words) && |gaps| == |words| + 1 && AreGaps(gaps)
    ensures SplitWhitespace(Spaced(words, gaps)) == words
  {
    if words == [] {
      TrimStartOf(gaps[0], "");
      assert gaps[0] + "" == gaps[0];
    } else {
      hide SplitWhitespace, IsBlank, IsWord;
      assert words[0] in words;
      assert forall w :: w in words[1..] ==> w in words;
      SplitWhitespaceOf(words[1..], gaps[1..]);
      StartsBlank(words[1..], gaps[1..]);
      SplitFirst(gaps[0], words[0], Spaced(words[1..], gaps[1..]));
      assert words == [words[0]] + words[1..];
    }
  }

  lemma StartsBlank(words: seq<string>, gaps: seq<string>)
    requires |gaps| == |words| + 1 && IsBlank(gaps[0]) && (words != [] ==> gaps[0] != "")
    ensures var s := Spaced(words, gaps); s != "" ==> IsWhitespace(s[0])
  {
  }

  // -------------------------------------------------------------- lines of words

  datatype Line = Line(start: string, words: seq<string>)

  function LineText(line: Line, separator: string): string {
    line.start + Join(line.words, separator)
  }

  /** The words of the lines, in order. */
  function WordsOf(ls: seq<Line>): seq<string> {
    if ls == [] then [] else WordsOf(ls[..|ls| - 1]) + ls[|ls| - 1].words
  }

  /** The columns the next word of a line would end at. */
  function Needed(cw: Widths, p: Layout, line: Line, word: string): nat {
    Width(cw, LineText(line, p.separator)) + (if line.words == [] then 0 else Width(cw, p.separator)) + Width(cw, word)
  }

  /** A line of a layout. The first starts with the prefix and stays without words
      only if the prefix leaves no room; the others start with the continuation,
      and the line before each ends since its next word does not fit there. A line
      of words that have width is not too wide. */
  ghost predicate LineOk(cw: Widths, p: Layout, ls: seq<Line>, i: nat)
    requires i < |ls|
  {
    && ls[i].start == (if i == 0 then p.prefix else p.continuation)
    && (i > 0 ==> ls[i].words != [] && Needed(cw, p, ls[i - 1], ls[i].words[0]) > Effective(cw, p))
    && (ls[i].words == [] ==> Width(cw, p.prefix) >= Effective(cw, p))
    && (ls[i].words != [] && HaveWidth(cw, ls[i].words) ==> Width(cw, LineText(ls[i], p.separator)) <= Effective(cw, p))
  }

  ghost predicate HaveWidth(cw: Widths, words: seq<string>) {
    forall w :: w in words ==> Width(cw, w) > 0
  }

  /** Whole words on lines, in order, with the separator between two of a line. */
  ghost predicate IsLayout(cw: Widths, p: Layout, words: seq<string>, ls: seq<Line>) {
    && ls != [] && WordsOf(ls) == words && words != []
    && forall i :: 0 <= i < |ls| ==> LineOk(cw, p, ls, i)
  }

  /** What is shown: a line of blanks in front of the first word is left out. */
  function Rendered(p: Layout, ls: seq<Line>): seq<string> {
    if ls == [] then []
    else
      var last := ls[|ls| - 1];
      var text := if last.words == [] then TrimEnd(last.start) else LineText(last, p.separator);
      Rendered(p, ls[..|ls| - 1]) + (if last.words == [] && text == "" then [] else [text])
  }

  /** Every word is on one line as a whole. */
  ghost predicate KeepsWords(cw: Widths, p: Layout, words: seq<string>, lines: seq<string>) {
    if words == [] then lines == [TrimEnd(p.prefix)]
    else exists ls :: IsLayout(cw, p, words, ls) && lines == Rendered(p, ls)
  }

  /** A word is put on a line where it fits, alone on a continuation line if need
      be; the first word also has to fit behind the prefix, unless the prefix
      leaves no room. */
  ghost predicate FitsAlone(cw: Widths, p: Layout, words: seq<string>) {
    forall w :: w in words ==> Width(cw, p.continuation) + Width(cw, w) <= Effective(cw, p)
  }

  predicate FirstFits(cw: Widths, p: Layout, words: seq<string>) {
    || words == []
    || Width(cw, p.prefix) + Width(cw, words[0]) <= Effective(cw, p)
    || Width(cw, p.prefix) >= Effective(cw, p)
  }

  /** The page holds what has been laid out so far. */
  ghost predicate Holds(p: Layout, g: Page, ls: seq<Line>) {
    && ls != [] && g.lines == Rendered(p, ls[..|ls| - 1])
    && g.current == LineText(ls[|ls| - 1], p.separator)
    && (g.hasContent <==> ls[|ls| - 1].words != [])
  }

  lemma {:induction false} JoinSnoc(words: seq<string>, w: string, separator: string)
    ensures Join(words + [w], separator) == if words == [] then w else Join(words, separator) + separator + w
  {
    if words == [] {
      assert words + [w] == [w];
    } else {
      assert (words + [w])[1..] == words[1..] + [w];
      JoinSnoc(words[1..], w, separator);
    }
  }

  lemma {:induction false} JoinEnds(words: seq<string>, separator: string)
    requires words != [] && AreWords(words)
    ensures Join(words, separator) != "" && !IsWhitespace(Join(words, separator)[|Join(words, separator)| - 1])
  {
    assert IsWord(words[|words| - 1]);
    JoinSnoc(words[..|words| - 1], words[|words| - 1], separator);
    assert words == words[..|words| - 1] + [words[|words| - 1]];
  }

  /** The end of a line with words is not trimmed. */
  lemma LineIsTrimmed(line: Line, separator: string)
    requires line.words != [] && AreWords(line.words)
    ensures TrimEnd(LineText(line, separator)) == LineText(line, separator)
  {
    JoinEnds(line.words, separator);
    TrimEndOf(LineText(line, separator), "");
    assert LineText(line, separator) + "" == LineText(line, separator);
  }

  lemma WordsOfSnoc(ls: seq<Line>, line: Line)
    ensures WordsOf(ls + [line]) == WordsOf(ls) + line.words
  {
    assert (ls + [line])[..|ls|] == ls;
  }

  /** The next word joins the last line. */
  function Joined(ls: seq<Line>, w: string): seq<Line>
    requires ls != []
  {
    var n := |ls| - 1;
    ls[..n] + [Line(ls[n].start, ls[n].words + [w])]
  }

  lemma SameLines(cw: Widths, p: Layout, ls: seq<Line>, more: seq<Line>, n: nat)
    requires n <= |ls| && n <= |more| && ls[..n] == more[..n]
    ensures forall i :: 0 <= i < n ==> LineOk(cw, p, ls, i) == LineOk(cw, p, more, i)
  {
    hide Width, Effective, Needed, HaveWidth;
    assert forall i :: 0 <= i < n ==> ls[i] == ls[..n][i] && more[i] == more[..n][i];
  }

  lemma JoinedText(cw: Widths, p: Layout, line: Line, w: string)
    ensures var text := LineText(Line(line.start, line.words + [w]), p.separator);
      && text == LineText(line, p.separator) + (if line.words == [] then "" else p.separator) + w
      && Width(cw, text) == Needed(cw, p, line, w)
  {
    TextSnoc(line, w, p.separator);
    hide Join, LineText;
    var text := LineText(line, p.separator);
    WidthConcat(cw, text + (if line.words == [] then "" else p.separator), w);
    WidthConcat(cw, text, if line.words == [] then "" else p.separator);
    NoWidth(cw);
  }

  lemma TextSnoc(line: Line, w: string, separator: string)
    ensures LineText(Line(line.start, line.words + [w]), separator) ==
      LineText(line, separator) + (if line.words == [] then "" else separator) + w
  {
    JoinSnoc(line.words, w, separator);
    if line.words == [] {
      assert line.start + "" + "" + w == line.start + w;
    } else {
      hide Join;
      var joined := Join(line.words, separator);
      assert line.start + joined + separator + w == line.start + (joined + separator + w);
    }
  }

  lemma JoinedLine(cw: Widths, p: Layout, ls: seq<Line>, w: string)
    requires ls != [] && ls[|ls| - 1].words != [] && LineOk(cw, p, ls, |ls| - 1)
    requires Needed(cw, p, ls[|ls| - 1], w) <= Effective(cw, p) || Width(cw, w) == 0
    ensures LineOk(cw, p, Joined(ls, w), |ls| - 1)
  {
    hide Width, Effective, Needed, LineText;
    var n := |ls| - 1;
    JoinedText(cw, p, ls[n], w);
    assert w in Joined(ls, w)[n].words;
  }

  lemma JoinedWords(ls: seq<Line>, w: string)
    requires ls != []
    ensures WordsOf(Joined(ls, w)) == WordsOf(ls) + [w]
  {
    var n := |ls| - 1;
    assert ls == ls[..n] + [ls[n]];
    WordsOfSnoc(ls[..n], ls[n]);
    WordsOfSnoc(ls[..n], Joined(ls, w)[n]);
  }

  lemma JoinedLayout(cw: Widths, p: Layout, words: seq<string>, ls: seq<Line>, w: string)
    requires IsLayout(cw, p, words, ls) && ls[|ls| - 1].words != []
    requires Needed(cw, p, ls[|ls| - 1], w) <= Effective(cw, p) || Width(cw, w) == 0
    ensures IsLayout(cw, p, words + [w], Joined(ls, w))
  {
    hide Width, Effective, Needed, LineOk;
    var n := |ls| - 1;
    SameLines(cw, p, ls, Joined(ls, w), n);
    JoinedLine(cw, p, ls, w);
    JoinedWords(ls, w);
  }

  lemma NoWidth(cw: Widths)
    ensures Width(cw, "") == 0
  {
  }

  lemma OpenedLayout(cw: Widths, p: Layout, words: seq<string>, ls: seq<Line>, w: string)
    requires IsLayout(cw, p, words, ls)
    requires Needed(cw, p, ls[|ls| - 1], w) > Effective(cw, p)
    requires Width(cw, p.continuation) + Width(cw, w) <= Effective(cw, p)
    ensures IsLayout(cw, p, words + [w], ls + [Line(p.continuation, [w])])
  {
    hide Width, Effective, Needed, HaveWidth;
    var line := Line(p.continuation, [w]);
    SameLines(cw, p, ls, ls + [line], |ls|);
    WordsOfSnoc(ls, line);
    WidthConcat(cw, p.continuation, w);
    assert LineOk(cw, p, ls + [line], |ls|);
  }

  lemma JoinPlaces(cw: Widths, p: Layout, g: Page, w: string)
    requires Width(cw, w) <= Available(cw, p, g)
    ensures Ends(cw, p, g, w)
    ensures Place(cw, p, g, w) == g.(current := g.current + Joiner(p, g) + w, hasContent := true)
  {
    hide Width, Available;
    PlaceIs(cw, p, g, w, 1);
  }

  lemma OpenPlaces(cw: Widths, p: Layout, g: Page, w: string)
    requires Width(cw, w) > Available(cw, p, g) && (g.hasContent || Available(cw, p, g) == 0)
    requires Width(cw, p.continuation) + Width(cw, w) <= Effective(cw, p)
    ensures Ends(cw, p, g, w)
    ensures Place(cw, p, g, w) ==
      Page(if !g.hasContent && TrimEnd(g.current) == "" then g.lines else g.lines + [TrimEnd(g.current)],
           p.continuation + w, true)
  {
    hide Effective, TrimEnd;
    NoWidth(cw);
    assert p.continuation + "" + w == p.continuation + w;
    hide Width;
    PlaceIs(cw, p, g, w, 2);
  }

  /** The first word: behind the prefix, or on a line of its own. */
  lemma PlaceFirst(cw: Widths, p: Layout, w: string) returns (ls: seq<Line>)
    requires Width(cw, p.continuation) + Width(cw, w) <= Effective(cw, p) && FirstFits(cw, p, [w])
    ensures Ends(cw, p, Start(p), w) && Holds(p, Place(cw, p, Start(p), w), ls) && IsLayout(cw, p, [w], ls)
    ensures ls[|ls| - 1].words != []
  {
    hide Width, Effective, TrimEnd;
    NoWidth(cw);
    var g, empty := Start(p), Line(p.prefix, []);
    JoinedText(cw, p, empty, w);
    assert empty.start + "" == empty.start && p.prefix + "" + w == p.prefix + w;
    if Width(cw, w) <= Available(cw, p, g) {
      ls := [Line(p.prefix, [w])];
      JoinPlaces(cw, p, g, w);
      OneLine(p, ls[0]);
      SingleText(p.prefix, w, p.separator);
      assert ls[..0] == [];
      assert w in ls[0].words;
      assert LineOk(cw, p, ls, 0);
    } else {
      ls := [empty, Line(p.continuation, [w])];
      OpenPlaces(cw, p, g, w);
      WidthConcat(cw, p.continuation, w);
      OneLine(p, empty);
      WordsOfSnoc([empty], ls[1]);
      SingleText(p.continuation, w, p.separator);
      assert ls[..1] == [empty] && [empty] + [ls[1]] == ls;
      assert LineOk(cw, p, ls, 0) && LineOk(cw, p, ls, 1);
    }
  }

  /** One more word keeps the page and the layout in step. */
  lemma PlaceWord(cw: Widths, p: Layout, words: seq<string>, ls: seq<Line>, g: Page, w: string) returns (more: seq<Line>)
    requires Holds(p, g, ls) && IsLayout(cw, p, words, ls) && AreWords(words) && ls[|ls| - 1].words != []
    requires Width(cw, p.continuation) + Width(cw, w) <= Effective(cw, p)
    ensures Ends(cw, p, g, w) && Holds(p, Place(cw, p, g, w), more)
    ensures IsLayout(cw, p, words + [w], more) && more[|more| - 1].words != []
  {
    hide Width, Effective, TrimEnd, IsLayout, LineText;
    var n := |ls| - 1;
    JoinedText(cw, p, ls[n], w);
    if Width(cw, w) <= Available(cw, p, g) {
      more := Joined(ls, w);
      JoinedLayout(cw, p, words, ls, w);
      JoinPlaces(cw, p, g, w);
      assert more[..n] == ls[..n];
    } else {
      more := ls + [Line(p.continuation, [w])];
      OpenedLayout(cw, p, words, ls, w);
      OpenPlaces(cw, p, g, w);
      LastWords(cw, p, words, ls);
      LineIsTrimmed(ls[n], p.separator);
      SingleText(p.continuation, w, p.separator);
      assert more[..n + 1] == ls;
    }
  }

  lemma OneLine(p: Layout, line: Line)
    ensures WordsOf([line]) == line.words
    ensures line.words == [] ==>
      Rendered(p, [line]) == (if TrimEnd(line.start) == "" then [] else [TrimEnd(line.start)])
    ensures Rendered(p, []) == []
  {
    assert [line][..0] == [];
  }

  lemma SingleText(start: string, w: string, separator: string)
    ensures LineText(Line(start, [w]), separator) == start + w
  {
  }

  lemma LastWords(cw: Widths, p: Layout, words: seq<string>, ls: seq<Line>)
    requires IsLayout(cw, p, words, ls) && AreWords(words)
    ensures AreWords(ls[|ls| - 1].words)
  {
    hide LineOk, IsWord;
    assert forall w :: w in ls[|ls| - 1].words ==> w in WordsOf(ls);
  }

  lemma {:induction false} PlaceWords(cw: Widths, p: Layout, words: seq<string>) returns (ls: seq<Line>)
    requires words != [] && AreWords(words) && FitsAlone(cw, p, words) && FirstFits(cw, p, words)
    ensures Terminates(cw, p, words) && Holds(p, PlaceAll(cw, p, Start(p), words), ls)
    ensures IsLayout(cw, p, words, ls) && ls[|ls| - 1].words != []
  {
    hide Width, Effective, Holds, IsLayout, Place, Ends;
    var n := |words| - 1;
    var before, w := words[..n], words[n];
    assert words == before + [w] && w in words && IsWord(w);
    NothingPlaced(cw, p, Start(p));
    if n == 0 {
      assert before == [] && words == [w];
      ls := PlaceFirst(cw, p, w);
    } else {
      assert forall x :: x in before ==> x in words;
      var rest := PlaceWords(cw, p, before);
      ls := PlaceWord(cw, p, before, rest, PlaceAll(cw, p, Start(p), before), w);
    }
  }

  lemma Finished(p: Layout, g: Page, ls: seq<Line>)
    requires Holds(p, g, ls) && ls[|ls| - 1].words != [] && AreWords(ls[|ls| - 1].words)
    ensures Finish(g) == Rendered(p, ls)
  {
    hide LineText, TrimEnd;
    LineIsTrimmed(ls[|ls| - 1], p.separator);
  }

  /** Words that fit a continuation line stay whole if the first one fits behind
      the prefix or the prefix leaves no room. */
  lemma WordsStayWhole(cw: Widths, p: Layout, words: seq<string>)
    requires AreWords(words) && FitsAlone(cw, p, words) && FirstFits(cw, p, words)
    ensures Terminates(cw, p, words) && KeepsWords(cw, p, words, Wrapped(cw, p, words))
  {
    hide Width, Effective, Holds, IsLayout, Place, Ends;
    NothingPlaced(cw, p, Start(p));
    if words != [] {
      var ls := PlaceWords(cw, p, words);
      LastWords(cw, p, words, ls);
      Finished(p, PlaceAll(cw, p, Start(p), words), ls);
    }
  }

  /** And only then: otherwise the first word is cut although it would fit a line
      of its own. */
  lemma WordsStayWholeExactlyWhen(cw: Widths, p: Layout, words: seq<string>)
    requires AreWords(words) && FitsAlone(cw, p, words) && HaveWidth(cw, words) && Terminates(cw, p, words)
    ensures KeepsWords(cw, p, words, Wrapped(cw, p, words)) <==> FirstFits(cw, p, words)
  {
    hide Effective, Terminates, Wrapped;
    if FirstFits(cw, p, words) {
      WordsStayWhole(cw, p, words);
    }
    if words != [] && KeepsWords(cw, p, words, Wrapped(cw, p, words)) {
      var ls :| IsLayout(cw, p, words, ls) && Wrapped(cw, p, words) == Rendered(p, ls);
      FirstOnItsLine(cw, p, words, ls);
    }
  }

  lemma FirstOnItsLine(cw: Widths, p: Layout, words: seq<string>, ls: seq<Line>)
    requires IsLayout(cw, p, words, ls) && HaveWidth(cw, words)
    ensures FirstFits(cw, p, words)
  {
    hide Effective, Width;
    assert LineOk(cw, p, ls, 0);
    if ls[0].words != [] {
      FirstWords(ls);
      assert ls[0].words[0] == words[0];
      JoinStarts(cw, ls[0].words, p.separator);
      WidthConcat(cw, ls[0].start, Join(ls[0].words, p.separator));
      assert forall w :: w in ls[0].words ==> w in words;
    }
  }

  lemma {:induction false} FirstWords(ls: seq<Line>)
    requires ls != []
    ensures ls[0].words <= WordsOf(ls)
  {
    var n := |ls| - 1;
    if n == 0 {
      assert WordsOf(ls[..0]) == [];
    } else {
      FirstWords(ls[..n]);
    }
  }

  lemma JoinStarts(cw: Widths, words: seq<string>, separator: string)
    requires words != []
    ensures Width(cw, words[0]) <= Width(cw, Join(words, separator))
  {
    if |words| > 1 {
      WidthConcat(cw, words[0] + separator, Join(words[1..], separator));
      WidthConcat(cw, words[0], separator);
    }
  }

  /** `render_wrapped_text_line_with_continuation` */
  method RenderWrappedTextLine(cw: Widths, prefix: string, continuation: string, value: string, width: nat)
    returns (lines: seq<string>)
    requires Terminates(cw, Layout(prefix, continuation, " ", width), SplitWhitespace(value))
    ensures lines == Wrapped(cw, Layout(prefix, continuation, " ", width), SplitWhitespace(value))
    ensures IsBlank(continuation) ==> Visible(Concat(lines)) == Visible(prefix) + Visible(value)
    ensures var p, words := Layout(prefix, continuation, " ", width), SplitWhitespace(value);
      FitsAlone(cw, p, words) && FirstFits(cw, p, words) ==> KeepsWords(cw, p, words, lines)
  {
    hide Terminates, Wrapped, FitsAlone, FirstFits, KeepsWords;
    ghost var p, words := Layout(prefix, continuation, " ", width), SplitWhitespace(value);
    lines := RenderWrappedSegments(cw, prefix, continuation, SplitWhitespace(value), " ", width);
    if IsBlank(continuation) {
      WrappedConserves(cw, p, words);
      SplitWhitespaceKeeps(value);
    }
    ghost var gaps := SplitWhitespaceMeaning(value);
    if FitsAlone(cw, p, words) && FirstFits(cw, p, words) {
      WordsStayWhole(cw, p, words);
    }
  }

  function OneColumn(c: char): nat {
    1
  }

  const NARROW: Layout := Layout("abc ", "", " ", 6)

  /** A prefix of four columns in six: the word of five is cut, though it would fit
      the next line. */
  lemma FirstWordIsCut()
    ensures SplitWhitespace("hello") == ["hello"] && FitsAlone(OneColumn, NARROW, ["hello"])
    ensures Terminates(OneColumn, NARROW, ["hello"])
    ensures Wrapped(OneColumn, NARROW, ["hello"]) == ["abc he", "llo"]
  {
    OneWord();
    NarrowColumns();
    CutPasses();
    hide Width, TrimEnd, Effective, PlaceWithin, SplitWhitespace;
    PlaceIs(OneColumn, NARROW, Start(NARROW), "hello", 2);
    assert ["hello"][..0] == [];
    NothingPlaced(OneColumn, NARROW, Start(NARROW));
  }

  lemma OneWord()
    ensures SplitWhitespace("hello") == ["hello"]
  {
    assert Spaced(["hello"][1..], ["", ""][1..]) == "";
    assert "" + "hello" + "" == "hello";
    SplitWhitespaceOf(["hello"], ["", ""]);
  }

  lemma NarrowColumns()
    ensures Width(OneColumn, "abc ") == 4 && Width(OneColumn, "hello") == 5 && Width(OneColumn, "llo") == 3
    ensures Width(OneColumn, "") == 0 && Effective(OneColumn, NARROW) == 6
    ensures TrimEnd("abc he") == "abc he" && TrimEnd("llo") == "llo"
  {
    Columns("abc ");
    Columns("hello");
    Columns("llo");
    Columns("abc");
    TrimEndOf("abc", " ");
    assert "abc" + " " == "abc ";
    TrimEndOf("abc he", "");
    TrimEndOf("llo", "");
    assert "abc he" + "" == "abc he" && "llo" + "" == "llo";
  }

  lemma CutPasses()
    ensures PlaceWithin(OneColumn, NARROW, Start(NARROW), "hello", 2) == Some(Page(["abc he"], "llo", true))
  {
    NarrowColumns();
    FitsTwo();
    hide Width, TrimEnd, Effective, FitCount;
    assert "hello"[..2] == "he" && "hello"[2..] == "llo" && "abc " + "he" == "abc he" && "" + "" + "llo" == "llo";
    assert [] + ["abc he"] == ["abc he"];
    assert Available(OneColumn, NARROW, Start(NARROW)) == 2 && TakeCount(OneColumn, "hello", 2) == 2;
    var g := Page(["abc he"], "", false);
    assert Pass(OneColumn, NARROW, Start(NARROW), "hello") == (g, Some("llo"));
    assert Pass(OneColumn, NARROW, g, "llo") == (Page(["abc he"], "llo", true), None);
  }

  lemma FitsTwo()
    ensures FitCount(OneColumn, "hello", 2) == 2
  {
    assert "hello"[1..] == "ello" && "ello"[1..] == "llo";
    assert FitCount(OneColumn, "llo", 0) == 0;
    assert FitCount(OneColumn, "ello", 1) == 1;
  }

  lemma {:induction false} Columns(s: string)
    ensures Width(OneColumn, s) == |s|
  {
    if s == "" {
    } else {
      Columns(s[1..]);
    }
  }
}
