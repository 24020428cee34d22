/** Demoting governed Markdown headings in advisory text:
    crates/app/src/advisory_prompt.rs. */
module Advisory {
  import opened Text
  import opened Results

  const PREFIX: string := "Advisory reference heading: "

  const GOVERNED: set<string> := {
    "runtime self context", "standing instructions", "tool usage policy", "soul guidance", "user context",
    "resolved runtime identity", "session profile", "memory summary", "advisory durable recall", "identity",
    "imported identity.md", "imported identity.json"
  }

  // ------------------------------------------------------------------- headings

  function Depth(line: string): (d: nat)
    ensures d <= |line|
  {
    if line == "" || line[0] != '#' then 0 else 1 + Depth(line[1..])
  }

  function HeadingText(line: string): Option<string> {
    var d := Depth(line);
    if d == 0 || d > 6 || Trim(line[d..]) == "" then None else Some(Trim(line[d..]))
  }

  method MarkdownHeadingText(line: string) returns (heading: Option<string>)
    ensures heading == HeadingText(line)
  {
    hide Trim;
    var depth := 0;
    while depth < |line| && line[depth] == '#'
      invariant depth <= |line| && Depth(line) == depth + Depth(line[depth..])
    {
      assert line[depth..][1..] == line[depth + 1..];
      depth := depth + 1;
    }
    if depth == 0 || depth > 6 {
      return None;
    }
    var text := Trim(line[depth..]);
    heading := if text == "" then None else Some(text);
  }

  function DropHashes(s: string): string {
    if s != "" && s[|s| - 1] == '#' then DropHashes(s[..|s| - 1]) else s
  }

  /** A closing run of `#` counts only behind whitespace that follows text. */
  function StripClosing(heading: string): string {
    var kept := DropHashes(heading);
    if |kept| == |heading| || kept == "" || !IsWhitespace(kept[|kept| - 1]) || TrimEnd(kept) == "" then heading
    else TrimEnd(kept)
  }

  function DisplayText(heading: string): string {
    StripClosing(Trim(heading))
  }

  function NormalizedHeading(heading: string): string {
    AsciiLower(DisplayText(heading))
  }

  /** The heading of a raw line, if it is one. */
  function Heading(line: string): Option<string> {
    HeadingText(Trim(line))
  }

  function FirstHeading(lines: seq<string>): Option<nat> {
    if lines == [] then None
    else if Heading(lines[0]).Some? then Some(0)
    else
      match FirstHeading(lines[1..])
      case None => None
      case Some(k) => Some(k + 1)
  }

  predicate IsGoverned(line: string) {
    Heading(line).Some? && NormalizedHeading(Heading(line).value) in GOVERNED
  }

  predicate IsAllowedRoot(index: nat, line: string, allowed: set<string>, root: Option<nat>) {
    root == Some(index) && Heading(line).Some? && NormalizedHeading(Heading(line).value) in allowed
  }

  function DemoteLine(index: nat, line: string, allowed: set<string>, root: Option<nat>): string {
    if IsGoverned(line) && !IsAllowedRoot(index, line, allowed, root)
    then PREFIX + DisplayText(Heading(line).value)
    else line
  }

  function Demoted(lines: seq<string>, allowed: set<string>): (r: seq<string>)
    ensures |r| == |lines|
  {
    seq(|lines|, i requires 0 <= i < |lines| => DemoteLine(i, lines[i], allowed, FirstHeading(lines)))
  }

  method FirstMarkdownHeadingLineIndex(lines: seq<string>) returns (index: Option<nat>)
    ensures index == FirstHeading(lines)
  {
    hide Heading;
    assert lines[0..] == lines;
    var i := 0;
    while i < |lines|
      invariant i <= |lines|
      invariant FirstHeading(lines) ==
        match FirstHeading(lines[i..]) case None => None case Some(k) => Some(i + k)
    {
      assert lines[i..][1..] == lines[i + 1..];
      if IsHeading(lines[i]) {
        return Some(i);
      }
      i := i + 1;
    }
    index := None;
  }

  predicate IsHeading(line: string) {
    Heading(line).Some?
  }

  method DemoteGovernedHeadingLine(index: nat, line: string, allowed: set<string>, root: Option<nat>)
    returns (rendered: string)
    ensures rendered == DemoteLine(index, line, allowed, root)
  {
    hide Trim, NormalizedHeading, DisplayText, HeadingText;
    var heading := MarkdownHeadingText(Trim(line));
    if heading.None? {
      return line;
    }
    var name := NormalizedHeading(heading.value);
    if root == Some(index) && name in allowed {
      return line;
    }
    if name !in GOVERNED {
      return line;
    }
    rendered := PREFIX + DisplayText(heading.value);
  }

  function Demote(content: string, allowed: set<string>): string {
    Join(Demoted(Lines(content), allowed), "\n")
  }

  method DemoteGovernedHeadings(content: string, allowed: set<string>) returns (rendered: string)
    ensures rendered == Demote(content, allowed)
  {
    hide DemoteLine, Lines, FirstHeading;
    var lines := Lines(content);
    var root := FirstMarkdownHeadingLineIndex(lines);
    var renderedLines: seq<string> := [];
    while |renderedLines| < |lines|
      invariant |renderedLines| <= |lines|
      invariant renderedLines == Demoted(lines, allowed)[..|renderedLines|]
    {
      var i := |renderedLines|;
      var line := DemoteGovernedHeadingLine(i, lines[i], allowed, root);
      renderedLines := renderedLines + [line];
    }
    assert renderedLines == Demoted(lines, allowed);
    rendered := Join(renderedLines, "\n");
  }

  // ---------------------------------------------------------- what a heading is

  /** One to six marks, and behind them what trims to a text. */
  ghost predicate IsMarked(line: string, marks: nat, text: string) {
    && 1 <= marks <= 6 && marks <= |line| && (forall i :: 0 <= i < marks ==> line[i] == '#')
    && (marks < |line| ==> line[marks] != '#')
    && text != "" && text == Trim(line[marks..])
  }

  lemma {:induction false} DepthMeaning(line: string)
    ensures forall i :: 0 <= i < Depth(line) ==> line[i] == '#'
    ensures Depth(line) < |line| ==> line[Depth(line)] != '#'
  {
    if line == "" || line[0] != '#' {
    } else {
      DepthMeaning(line[1..]);
      assert forall i :: 0 < i < Depth(line) ==> line[i] == line[1..][i - 1];
    }
  }

  lemma HeadingTextMeaning(line: string, text: string)
    ensures HeadingText(line) == Some(text) <==> exists marks :: IsMarked(line, marks, text)
  {
    hide Trim;
    DepthMeaning(line);
    if HeadingText(line) == Some(text) {
      assert IsMarked(line, Depth(line), text);
    }
    if marks :| IsMarked(line, marks, text) {
      assert marks == Depth(line);
    }
  }

  /** The text of a heading with a closing run of marks behind whitespace. */
  ghost predicate IsClosed(heading: string, text: string) {
    exists gap: string, marks: string {:trigger text + gap + marks} ::
      && heading == text + gap + marks
      && text != "" && !IsWhitespace(text[|text| - 1])
      && gap != "" && IsBlank(gap)
      && marks != "" && forall i :: 0 <= i < |marks| ==> marks[i] == '#'
  }

  lemma {:induction false} DropHashesParts(s: string) returns (marks: string)
    ensures s == DropHashes(s) + marks && forall i :: 0 <= i < |marks| ==> marks[i] == '#'
    ensures DropHashes(s) != "" ==> DropHashes(s)[|DropHashes(s)| - 1] != '#'
  {
    if s != "" && s[|s| - 1] == '#' {
      var rest := DropHashesParts(s[..|s| - 1]);
      marks := rest + ['#'];
    } else {
      marks := "";
    }
  }

  lemma {:induction false} DropHashesOf(s: string, marks: string)
    requires s != "" && s[|s| - 1] != '#' && forall i :: 0 <= i < |marks| ==> marks[i] == '#'
    ensures DropHashes(s + marks) == s
  {
    if marks == "" {
      assert s + marks == s;
    } else {
      var fewer := marks[..|marks| - 1];
      assert (s + marks)[..|s + marks| - 1] == s + fewer;
      DropHashesOf(s, fewer);
    }
  }

  /** A closing run is dropped with the whitespace before it; without one, the
      heading is shown as it is. */
  lemma StripClosingMeaning(heading: string)
    ensures forall text :: IsClosed(heading, text) ==> StripClosing(heading) == text
    ensures (forall text :: !IsClosed(heading, text)) ==> StripClosing(heading) == heading
  {
    forall text | IsClosed(heading, text) ensures StripClosing(heading) == text {
      ClosedIsStripped(heading, text);
    }
    if StripClosing(heading) != heading {
      StrippedIsClosed(heading);
    }
  }

  lemma ClosedIsStripped(heading: string, text: string)
    requires IsClosed(heading, text)
    ensures StripClosing(heading) == text
  {
    var gap: string, marks: string :| heading == text + gap + marks
      && text != "" && !IsWhitespace(text[|text| - 1]) && gap != "" && IsBlank(gap)
      && marks != "" && forall i :: 0 <= i < |marks| ==> marks[i] == '#';
    var kept := text + gap;
    assert IsWhitespace(kept[|kept| - 1]);
    DropHashesOf(kept, marks);
    TrimEndOf(text, gap);
  }

  lemma StrippedIsClosed(heading: string)
    requires StripClosing(heading) != heading
    ensures IsClosed(heading, StripClosing(heading))
  {
    var marks := DropHashesParts(heading);
    var kept := DropHashes(heading);
    var gap := TrimEndParts(kept);
    var text := TrimEnd(kept);
    assert heading == text + gap + marks;
  }

  /** A line is governed when, trimmed, it is a heading whose text, without a
      closing run and in lower case, is one of these. */
  lemma GovernedMeaning(line: string)
    ensures
      var names := {
        "runtime self context", "standing instructions", "tool usage policy", "soul guidance", "user context",
        "resolved runtime identity", "session profile", "memory summary", "advisory durable recall", "identity",
        "imported identity.md", "imported identity.json"};
      IsGoverned(line) <==>
      exists marks, text :: IsMarked(Trim(line), marks, text) && AsciiLower(StripClosing(Trim(text))) in names
  {
    hide Trim, StripClosing, AsciiLower, HeadingText, IsMarked;
    if Heading(line).Some? {
      HeadingTextMeaning(Trim(line), Heading(line).value);
    }
    if marks, text :| IsMarked(Trim(line), marks, text) && AsciiLower(StripClosing(Trim(text))) in GOVERNED {
      HeadingTextMeaning(Trim(line), text);
    }
  }

  // --------------------------------------------------------------- the line laws

  lemma {:induction false} FirstHeadingMeaning(lines: seq<string>)
    ensures match FirstHeading(lines)
      case None => forall i :: 0 <= i < |lines| ==> !IsHeading(lines[i])
      case Some(k) => k < |lines| && IsHeading(lines[k]) && forall i :: 0 <= i < k ==> !IsHeading(lines[i])
  {
    hide Heading;
    if lines == [] {
    } else {
      FirstHeadingMeaning(lines[1..]);
      assert forall i :: 0 < i < |lines| ==> lines[i] == lines[1..][i - 1];
    }
  }

  lemma TrimKeepsFirst(s: string)
    requires s != "" && !IsWhitespace(s[0])
    ensures Trim(s) != "" && Trim(s)[0] == s[0]
  {
    hide TrimEnd;
    var pad := TrimEndParts(s);
    TrimBlank(s);
    assert !IsBlank(s);
    assert (TrimEnd(s) + pad)[0] == s[0];
  }

  /** A demoted line is no heading any more. */
  lemma DemotedIsPlain(display: string)
    ensures !IsHeading(PREFIX + display)
  {
    hide Trim;
    var s := PREFIX + display;
    assert s[0] == 'A';
    TrimKeepsFirst(s);
    assert Depth(Trim(s)) == 0;
  }

  ghost predicate IsDemoted(lines: seq<string>, allowed: set<string>, i: nat)
    requires i < |lines|
  {
    IsGoverned(lines[i]) && !IsAllowedRoot(i, lines[i], allowed, FirstHeading(lines))
  }

  /** What demotion does to each line: a governed heading other than an allowed
      first heading becomes plain advisory text that still shows its name, and
      every other line is kept. */
  lemma DemotedLine(lines: seq<string>, allowed: set<string>, i: nat)
    requires i < |lines|
    ensures var r := Demoted(lines, allowed)[i];
      && (IsDemoted(lines, allowed, i) ==>
           && r == PREFIX + DisplayText(Heading(lines[i]).value)
           && r == "Advisory reference heading: " + StripClosing(Trim(Heading(lines[i]).value))
           && !IsHeading(r) && r != lines[i])
      && (!IsDemoted(lines, allowed, i) ==> r == lines[i])
  {
    hide Heading, NormalizedHeading, StripClosing, Trim, FirstHeading;
    if IsDemoted(lines, allowed, i) {
      DemotedIsPlain(DisplayText(Heading(lines[i]).value));
    }
  }

  /** Nothing left to demote. */
  ghost predicate IsSettled(lines: seq<string>, allowed: set<string>) {
    forall i :: 0 <= i < |lines| ==> !IsDemoted(lines, allowed, i)
  }

  /** After demotion a governed heading can only be the first heading of the
      text, under an allowed name; it is where it was. */
  lemma DemotionSettles(lines: seq<string>, allowed: set<string>)
    ensures var r := Demoted(lines, allowed);
      && |r| == |lines| && IsSettled(r, allowed)
      && (forall i :: 0 <= i < |r| && IsGoverned(r[i]) ==>
           && FirstHeading(r) == Some(i) && FirstHeading(lines) == Some(i) && r[i] == lines[i]
           && NormalizedHeading(Heading(r[i]).value) in allowed)
  {
    hide Heading, NormalizedHeading, FirstHeading, Demoted;
    var r := Demoted(lines, allowed);
    forall i | 0 <= i < |r| && IsGoverned(r[i])
      ensures FirstHeading(r) == Some(i) && FirstHeading(lines) == Some(i) && r[i] == lines[i]
      ensures NormalizedHeading(Heading(r[i]).value) in allowed
    {
      DemotedLine(lines, allowed, i);
      assert IsAllowedRoot(i, lines[i], allowed, FirstHeading(lines));
      KeptRootIsFirst(lines, allowed, i);
    }
  }

  lemma KeptRootIsFirst(lines: seq<string>, allowed: set<string>, k: nat)
    requires FirstHeading(lines) == Some(k) && k < |lines| && !IsDemoted(lines, allowed, k)
    ensures FirstHeading(Demoted(lines, allowed)) == Some(k)
  {
    hide Heading, NormalizedHeading, FirstHeading, Demoted;
    var r := Demoted(lines, allowed);
    FirstHeadingMeaning(lines);
    FirstHeadingMeaning(r);
    DemotedLine(lines, allowed, k);
    forall i | 0 <= i < k ensures !IsHeading(r[i]) {
      DemotedLine(lines, allowed, i);
    }
  }

  lemma SettledIsFixed(lines: seq<string>, allowed: set<string>)
    requires IsSettled(lines, allowed)
    ensures Demoted(lines, allowed) == lines
  {
    hide IsGoverned, IsAllowedRoot, FirstHeading;
    forall i | 0 <= i < |lines| ensures Demoted(lines, allowed)[i] == lines[i] {
      assert !IsDemoted(lines, allowed, i);
    }
  }

  /** Demoting the lines twice is demoting them once, although the first pass can
      turn a later line into the first heading. */
  lemma DemotionIdempotent(lines: seq<string>, allowed: set<string>)
    ensures Demoted(Demoted(lines, allowed), allowed) == Demoted(lines, allowed)
  {
    DemotionSettles(lines, allowed);
    SettledIsFixed(Demoted(lines, allowed), allowed);
  }

  // -------------------------------------------------------------- on whole texts

  /** What splitting a joined text gives back: a carriage return before a line
      feed and an empty last line are lost. */
  function Reread(lines: seq<string>): seq<string> {
    if lines == [] || lines == [""] then []
    else if |lines| == 1 then lines
    else [DropCarriageReturn(lines[0])] + Reread(lines[1..])
  }

  lemma {:induction false} LinesOfJoin(lines: seq<string>)
    requires NoFeeds(lines)
    ensures Lines(Join(lines, "\n")) == Reread(lines)
  {
    if |lines| == 1 {
      assert lines == [lines[0]];
      assert lines[0] in lines;
      assert IndexOf(lines[0], '\n') == |lines[0]|;
    } else if |lines| > 1 {
      LinesOfJoin(lines[1..]);
      LinesCons(lines[0], Join(lines[1..], "\n"));
    }
  }

  predicate EndsInReturn(line: string) {
    line != "" && line[|line| - 1] == '\r'
  }

  /** Lines that survive joining and splitting. */
  ghost predicate Survives(lines: seq<string>) {
    && (forall i :: 0 <= i < |lines| - 1 ==> !EndsInReturn(lines[i]))
    && (|lines| <= 1 || lines[|lines| - 1] != "")
  }

  lemma JoinTwo(a: string, rest: seq<string>)
    requires rest != []
    ensures Join([a] + rest, "\n") == a + "\n" + Join(rest, "\n")
  {
    assert ([a] + rest)[1..] == rest;
  }

  lemma {:induction false} RereadJoin(lines: seq<string>)
    ensures |Join(Reread(lines), "\n")| <= |Join(lines, "\n")|
    ensures Join(Reread(lines), "\n") == Join(lines, "\n") <==> Survives(lines)
  {
    if |lines| > 1 {
      var a, rest := lines[0], lines[1..];
      assert lines == [a] + rest;
      RereadJoin(rest);
      SurvivesCons(a, rest);
      JoinTwo(a, rest);
      if Reread(rest) == [] {
        assert [DropCarriageReturn(a)] + Reread(rest) == [DropCarriageReturn(a)];
        RereadEmpty(rest);
      } else {
        JoinTwo(DropCarriageReturn(a), Reread(rest));
        SameSplit(a, DropCarriageReturn(a), Join(rest, "\n"), Join(Reread(rest), "\n"));
      }
    } else if |lines| == 1 {
      assert lines == [lines[0]];
    }
  }

  lemma SurvivesCons(a: string, rest: seq<string>)
    requires rest != []
    ensures Survives([a] + rest) <==> !EndsInReturn(a) && (Survives(rest) && rest != [""])
  {
    var all := [a] + rest;
    assert forall i :: 0 < i < |all| ==> all[i] == rest[i - 1];
    assert |rest| == 1 ==> rest == [rest[0]];
    if Survives(all) {
      forall i | 0 <= i < |rest| - 1 ensures !EndsInReturn(rest[i]) {
        assert !EndsInReturn(all[i + 1]);
      }
      assert !EndsInReturn(all[0]);
    }
  }

  lemma RereadEmpty(rest: seq<string>)
    requires rest != [] && Reread(rest) == []
    ensures rest == [""]
  {
  }

  lemma SameSplit(a: string, b: string, x: string, y: string)
    requires b == DropCarriageReturn(a) && |y| <= |x|
    ensures |b + "\n" + y| <= |a + "\n" + x|
    ensures b + "\n" + y == a + "\n" + x <==> !EndsInReturn(a) && y == x
  {
    var s, t := b + "\n" + y, a + "\n" + x;
    if s == t {
      assert |b| == |a| && |y| == |x|;
      assert s[|a| + 1..] == y && t[|a| + 1..] == x;
    }
  }

  lemma {:induction false} RereadLines(lines: seq<string>)
    ensures var r := Reread(lines);
      && |r| <= |lines| <= |r| + 1
      && (|r| < |lines| ==> lines[|r|] == "")
      && (forall i :: 0 <= i < |r| ==> r[i] == lines[i] || r[i] == DropCarriageReturn(lines[i]))
  {
    if |lines| <= 1 {
    } else {
      RereadLines(lines[1..]);
      assert forall i :: 0 < i < |lines| ==> lines[i] == lines[1..][i - 1];
    }
  }

  lemma SameHeading(line: string)
    ensures Heading(DropCarriageReturn(line)) == Heading(line)
    ensures !IsHeading("")
  {
    hide Trim;
    TrimBlank("");
    TrimDropped(line);
  }

  lemma RereadSettled(lines: seq<string>, allowed: set<string>)
    requires IsSettled(lines, allowed)
    ensures IsSettled(Reread(lines), allowed)
  {
    hide Heading, NormalizedHeading, FirstHeading, Reread;
    var r := Reread(lines);
    RereadLines(lines);
    forall i | 0 <= i < |r| ensures Heading(r[i]) == Heading(lines[i]) {
      SameHeading(lines[i]);
    }
    SameHeading("");
    FirstHeadingMeaning(lines);
    FirstHeadingMeaning(r);
    assert FirstHeading(r) == FirstHeading(lines);
    forall i | 0 <= i < |r| ensures !IsDemoted(r, allowed, i) {
      assert !IsDemoted(lines, allowed, i);
    }
  }

  /** When demoting a text a second time changes nothing: no line but the last
      keeps a trailing carriage return, and the text does not end in an empty
      line. */
  ghost predicate StableText(content: string, allowed: set<string>) {
    var lines := Lines(content);
    && (forall i :: 0 <= i < |lines| - 1 ==> EndsInReturn(lines[i]) ==> IsDemoted(lines, allowed, i))
    && (|lines| <= 1 || lines[|lines| - 1] != "")
  }

  lemma {:induction false} DropHashesEnd(s: string)
    ensures |DropHashes(s)| <= |s| && DropHashes(s) == s[..|DropHashes(s)|]
    ensures |DropHashes(s)| < |s| ==> s[|s| - 1] == '#'
  {
    if s != "" && s[|s| - 1] == '#' {
      DropHashesEnd(s[..|s| - 1]);
    }
  }

  lemma DisplayEnd(heading: string)
    requires Trim(heading) != ""
    ensures DisplayText(heading) != "" && !IsWhitespace(DisplayText(heading)[|DisplayText(heading)| - 1])
  {
    hide Trim, TrimEnd;
    TrimIdempotent(heading);
    var kept := DropHashes(Trim(heading));
    var r := TrimEndParts(kept);
  }

  lemma HeadingNotBlank(line: string)
    requires IsHeading(line)
    ensures Trim(Heading(line).value) != ""
  {
    hide Trim;
    var t := Trim(line);
    TrimIdempotent(t[Depth(t)..]);
  }

  lemma DemotedEnds(lines: seq<string>, allowed: set<string>, i: nat)
    requires i < |lines|
    ensures var r := Demoted(lines, allowed)[i];
      && (EndsInReturn(r) <==> EndsInReturn(lines[i]) && !IsDemoted(lines, allowed, i))
      && (r == "" <==> lines[i] == "")
  {
    SameHeading("");
    hide Heading, NormalizedHeading, FirstHeading, DisplayText, Demoted, Trim;
    DemotedLine(lines, allowed, i);
    if IsDemoted(lines, allowed, i) {
      HeadingNotBlank(lines[i]);
      var d := DisplayText(Heading(lines[i]).value);
      DisplayEnd(Heading(lines[i]).value);
      assert (PREFIX + d)[|PREFIX + d| - 1] == d[|d| - 1];
    }
  }

  lemma DemotedNoFeeds(lines: seq<string>, allowed: set<string>)
    requires NoFeeds(lines)
    ensures NoFeeds(Demoted(lines, allowed))
  {
    hide Heading, NormalizedHeading, FirstHeading, DisplayText, Demoted;
    var r := Demoted(lines, allowed);
    forall i | 0 <= i < |r| ensures '\n' !in r[i] {
      DemotedLine(lines, allowed, i);
      assert lines[i] in lines;
      if IsDemoted(lines, allowed, i) {
        DisplayNoFeed(lines[i]);
      }
    }
  }

  lemma TrimChars(s: string, c: char)
    requires c !in s
    ensures c !in Trim(s) && c !in TrimEnd(s)
  {
    hide Trim, TrimEnd;
    var l, r := TrimParts(s);
    var pad := TrimEndParts(s);
    assert forall x :: x in Trim(s) ==> x in l + Trim(s) + r;
    assert forall x :: x in TrimEnd(s) ==> x in TrimEnd(s) + pad;
  }

  lemma DisplayChars(heading: string, c: char)
    requires c !in heading
    ensures c !in DisplayText(heading)
  {
    hide Trim, TrimEnd;
    var m := Trim(heading);
    TrimChars(heading, c);
    DropHashesEnd(m);
    assert c !in DropHashes(m);
    TrimChars(DropHashes(m), c);
  }

  lemma DisplayNoFeed(line: string)
    requires '\n' !in line && IsHeading(line)
    ensures '\n' !in PREFIX + DisplayText(Heading(line).value)
  {
    hide Trim, TrimEnd, DisplayText, Depth;
    var t := Trim(line);
    TrimChars(line, '\n');
    TrimChars(t[Depth(t)..], '\n');
    DisplayChars(Heading(line).value, '\n');
    assert '\n' !in PREFIX;
  }

  /** The demoted text, read again line by line, has nothing left to demote: a
      governed heading can only be its first heading, under an allowed name. */
  lemma RereadIsSettled(content: string, allowed: set<string>)
    ensures IsSettled(Lines(Demote(content, allowed)), allowed)
    ensures Lines(Demote(content, allowed)) == Reread(Demoted(Lines(content), allowed))
  {
    hide Lines, Demoted, Join, Reread, IsSettled;
    LinesHaveNoFeed(content);
    DemotedNoFeeds(Lines(content), allowed);
    LinesOfJoin(Demoted(Lines(content), allowed));
    DemotionSettles(Lines(content), allowed);
    RereadSettled(Demoted(Lines(content), allowed), allowed);
  }

  /** Demoting a whole text twice is demoting it once exactly for stable texts. */
  lemma DemoteTwice(content: string, allowed: set<string>)
    ensures Demote(Demote(content, allowed), allowed) == Demote(content, allowed) <==> StableText(content, allowed)
  {
    hide Lines, Demoted, Join, Reread, IsSettled, IsDemoted, EndsInReturn;
    var lines := Lines(content);
    var r := Demoted(lines, allowed);
    RereadIsSettled(content, allowed);
    SettledIsFixed(Reread(r), allowed);
    RereadJoin(r);
    assert Survives(r) <==> StableText(content, allowed) by {
      forall i | 0 <= i < |r|
        ensures EndsInReturn(r[i]) <==> EndsInReturn(lines[i]) && !IsDemoted(lines, allowed, i)
        ensures r[i] == "" <==> lines[i] == ""
      {
        DemotedEnds(lines, allowed, i);
      }
    }
  }

  lemma ExampleLines()
    ensures Lines("a\n\n") == ["a", ""] && Lines("a\n") == ["a"]
  {
    hide Lines, DropCarriageReturn;
    EmptyTexts();
    LinesCons("a", "\n");
    LinesCons("", "");
    LinesCons("a", "");
    assert "a" + ['\n'] + "\n" == "a\n\n" && "" + ['\n'] + "" == "\n" && "a" + ['\n'] + "" == "a\n";
    NoReturn("a");
    NoReturn("");
  }

  lemma NoReturn(line: string)
    requires !EndsInReturn(line)
    ensures DropCarriageReturn(line) == line
  {
  }

  lemma PlainLine(line: string)
    requires line == "a" || line == ""
    ensures !IsGoverned(line)
  {
    SameHeading("");
    if line == "a" {
      TrimKeepsFirst("a");
    }
  }

  /** A text that ends in an empty line loses one line feed at every pass. */
  lemma TrailingFeedIsLost()
    ensures Demote("a\n\n", {}) == "a\n" && Demote("a\n", {}) == "a"
  {
    hide Lines, IsGoverned, FirstHeading;
    ExampleLines();
    PlainLine("a");
    PlainLine("");
    assert Demoted(["a", ""], {}) == ["a", ""] && Demoted(["a"], {}) == ["a"];
    assert Join(["a", ""], "\n") == "a" + "\n" + "";
  }
}
