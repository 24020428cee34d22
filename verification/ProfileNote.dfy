/** Splitting a profile note into imported identity blocks and advisory blocks:
    `split_profile_note_blocks` and `partition_profile_note` of
    crates/app/src/runtime_identity.rs. */
module ProfileNote {
  import opened Text
  import opened Results

  const IDENTITY_HEADINGS: set<string> := {"## imported identity.md", "## imported identity.json"}

  const IMPORTED: string := "## imported "

  const HEADING: string := "## "

  // ------------------------------------------------------------------ headings

  /** The trimmed lines that are not empty. */
  function Trimmed(lines: seq<string>): seq<string> {
    if lines == [] then []
    else
      var t := Trim(lines[0]);
      (if t == "" then [] else [t]) + Trimmed(lines[1..])
  }

  function Content(s: string): seq<string> {
    Trimmed(Lines(s))
  }

  function FirstNonEmptyLine(lines: seq<string>): Option<string> {
    if lines == [] then None
    else if Trim(lines[0]) == "" then FirstNonEmptyLine(lines[1..])
    else Some(Trim(lines[0]))
  }

  predicate IsIdentityHeading(heading: string) {
    AsciiLower(Trim(heading)) in IDENTITY_HEADINGS
  }

  predicate IsIdentityBlock(block: string) {
    match FirstNonEmptyLine(Lines(block))
    case None => false
    case Some(heading) => IsIdentityHeading(heading)
  }

  predicate IsImportedHeading(heading: string) {
    StartsWith(AsciiLower(Trim(heading)), IMPORTED)
  }

  function Finalize(lines: seq<string>): Option<string> {
    var block := Trim(Join(lines, "\n"));
    if lines == [] || block == "" then None else Some(block)
  }

  /** A block is the text of its lines, joined, without the blanks around it. */
  lemma FinalizeText(lines: seq<string>) returns (left: string, right: string)
    ensures IsBlank(left) && IsBlank(right)
    ensures match Finalize(lines)
      case None => Join(lines, "\n") == left + right
      case Some(block) => Join(lines, "\n") == left + block + right && block != "" && IsTrimmed(block)
  {
    hide Trim, Join;
    left, right := TrimParts(Join(lines, "\n"));
    NoLines();
    assert left + "" + right == left + right;
  }

  lemma NoLines()
    ensures Join([], "\n") == "" && forall a: string, b: string :: "" == a + "" + b ==> a + b == ""
  {
  }

  predicate ShouldSplit(current: seq<string>, next: string) {
    match Finalize(current)
    case None => false
    case Some(block) => !IsIdentityBlock(block) || IsImportedHeading(next)
  }

  // ---------------------------------------------------- the splitter, as groups

  /** The raw lines of the finished blocks and of the one being read. */
  datatype Cut = Cut(done: seq<seq<string>>, current: seq<string>)

  predicate SplitsBefore(cut: Cut, line: string) {
    StartsWith(Trim(line), HEADING) && cut.current != [] && ShouldSplit(cut.current, Trim(line))
  }

  function Extend(cut: Cut, line: string): Cut {
    if SplitsBefore(cut, line) then Cut(cut.done + [cut.current], [line])
    else Cut(cut.done, cut.current + [line])
  }

  function Cutting(lines: seq<string>): Cut {
    if lines == [] then Cut([], []) else Extend(Cutting(lines[..|lines| - 1]), lines[|lines| - 1])
  }

  function Groups(cut: Cut): seq<seq<string>> {
    cut.done + [cut.current]
  }

  function Finalized(groups: seq<seq<string>>): seq<string> {
    if groups == [] then []
    else
      var rest := Finalized(groups[..|groups| - 1]);
      match Finalize(groups[|groups| - 1])
      case None => rest
      case Some(block) => rest + [block]
  }

  function Blocks(note: string): seq<string> {
    Finalized(Groups(Cutting(Lines(note))))
  }

  lemma FinalizedSnoc(groups: seq<seq<string>>, g: seq<string>)
    ensures Finalized(groups + [g]) ==
      match Finalize(g) case None => Finalized(groups) case Some(block) => Finalized(groups) + [block]
  {
    assert (groups + [g])[..|groups|] == groups;
  }

  method SplitProfileNoteBlocks(note: string) returns (blocks: seq<string>)
    ensures blocks == Blocks(note)
  {
    hide Finalize, ShouldSplit, StartsWith, Lines, Finalized, Trim;
    var lines := Lines(note);
    var current: seq<string> := [];
    blocks := NoBlocks();
    ghost var cut := Cut([], []);
    var i := 0;
    while i < |lines|
      invariant i <= |lines| && cut == Cutting(lines[..i])
      invariant current == cut.current && blocks == Finalized(cut.done)
    {
      var line := lines[i];
      var trimmed := Trim(line);
      assert lines[..i + 1][..i] == lines[..i] && lines[..i + 1][i] == line;
      if StartsWith(trimmed, HEADING) && current != [] && ShouldSplit(current, trimmed) {
        FinalizedSnoc(cut.done, current);
        var block := Finalize(current);
        if block.Some? {
          blocks := blocks + [block.value];
        }
        current := [];
      }
      current := current + [line];
      cut := Extend(cut, line);
      i := i + 1;
    }
    assert lines[..i] == lines;
    FinalizedSnoc(cut.done, current);
    var last := Finalize(current);
    if last.Some? {
      blocks := blocks + [last.value];
    }
  }

  method NoBlocks() returns (blocks: seq<string>)
    ensures blocks == Finalized([])
  {
    blocks := [];
  }

  datatype Partition = Partition(identity: seq<string>, advisory: seq<string>)

  /** The blocks that are, or are not, identity blocks. */
  function Chosen(blocks: seq<string>, identity: bool): seq<string> {
    if blocks == [] then []
    else
      var last := blocks[|blocks| - 1];
      Chosen(blocks[..|blocks| - 1], identity) + (if IsIdentityBlock(last) == identity then [last] else [])
  }

  // -------------------------------------------------- what a block starts with

  lemma {:induction false} FirstIsHead(lines: seq<string>)
    ensures FirstNonEmptyLine(lines) == if Trimmed(lines) == [] then None else Some(Trimmed(lines)[0])
  {
    if lines == [] {
    } else {
      FirstIsHead(lines[1..]);
    }
  }

  lemma TrimmedCons(line: string, rest: seq<string>)
    ensures Trimmed([line] + rest) == (if Trim(line) == "" then [] else [Trim(line)]) + Trimmed(rest)
  {
    assert ([line] + rest)[1..] == rest;
  }

  lemma TrimmedSingle(line: string)
    ensures Trimmed([line]) == if Trim(line) == "" then [] else [Trim(line)]
  {
    hide Trim;
    assert [line] == [line] + [];
    TrimmedCons(line, []);
  }

  lemma ContentLine(line: string, rest: string)
    requires '\n' !in line
    ensures Content(line + ['\n'] + rest) == (if Trim(line) == "" then [] else [Trim(line)]) + Content(rest)
  {
    hide Lines, Trim;
    LinesCons(line, rest);
    TrimDropped(line);
    TrimmedCons(DropCarriageReturn(line), Lines(rest));
  }

  lemma ContentSingle(line: string)
    requires '\n' !in line
    ensures Content(line) == if Trim(line) == "" then [] else [Trim(line)]
  {
    hide Trim;
    TrimBlank("");
    assert IndexOf(line, '\n') == |line|;
    assert Lines(line) == if line == "" then [] else [line];
    TrimmedSingle(line);
  }

  lemma FirstLineSplit(s: string) returns (k: nat)
    requires '\n' in s
    ensures k < |s| && '\n' !in s[..k] && s == s[..k] + ['\n'] + s[k + 1..]
  {
    k := IndexOf(s, '\n');
  }

  lemma {:induction false} ContentPadStart(pad: string, s: string)
    requires IsBlank(pad)
    ensures Content(pad + s) == Content(s)
    decreases |pad|
  {
    hide Content, Trim;
    if '\n' in pad {
      var k := FirstLineSplit(pad);
      var head, tail := pad[..k], pad[k + 1..];
      assert pad + s == head + ['\n'] + (tail + s);
      ContentLine(head, tail + s);
      TrimBlank(head);
      ContentPadStart(tail, s);
    } else if '\n' in s {
      var k := FirstLineSplit(s);
      var head, tail := s[..k], s[k + 1..];
      assert pad + s == (pad + head) + ['\n'] + tail;
      ContentLine(pad + head, tail);
      ContentLine(head, tail);
      TrimPadded(pad, head, "");
      assert pad + head + "" == pad + head;
    } else {
      ContentSingle(pad + s);
      ContentSingle(s);
      TrimPadded(pad, s, "");
      assert pad + s + "" == pad + s;
    }
  }

  lemma ContentBlank(pad: string)
    requires IsBlank(pad)
    ensures Content(pad) == []
  {
    ContentPadStart(pad, "");
    assert pad + "" == pad;
  }

  lemma {:induction false} ContentPadEnd(s: string, pad: string)
    requires IsBlank(pad)
    ensures Content(s + pad) == Content(s)
    decreases |s|
  {
    hide Content, Trim;
    if '\n' in s {
      var k := FirstLineSplit(s);
      var head, tail := s[..k], s[k + 1..];
      assert s + pad == head + ['\n'] + (tail + pad);
      ContentLine(head, tail + pad);
      ContentLine(head, tail);
      ContentPadEnd(tail, pad);
    } else if '\n' in pad {
      var k := FirstLineSplit(pad);
      var head, tail := pad[..k], pad[k + 1..];
      assert s + pad == (s + head) + ['\n'] + tail;
      ContentLine(s + head, tail);
      ContentBlank(tail);
      ContentSingle(s);
      TrimPadded("", s, head);
      assert "" + s + head == s + head;
    } else {
      ContentSingle(s + pad);
      ContentSingle(s);
      TrimPadded("", s, pad);
      assert "" + s + pad == s + pad;
    }
  }

  lemma ContentTrim(s: string)
    ensures Content(Trim(s)) == Content(s)
  {
    hide Content, Trim;
    var l, r := TrimParts(s);
    ContentPadEnd(l + Trim(s), r);
    ContentPadStart(l, Trim(s));
  }

  lemma {:induction false} ContentJoin(lines: seq<string>)
    requires NoFeeds(lines)
    ensures Content(Join(lines, "\n")) == Trimmed(lines)
  {
    hide Trim, Content;
    if lines == [] {
      ContentBlank("");
    } else if |lines| == 1 {
      ContentSingle(lines[0]);
      TrimmedCons(lines[0], []);
      assert lines == [lines[0]] + [];
    } else {
      ContentLine(lines[0], Join(lines[1..], "\n"));
      ContentJoin(lines[1..]);
      TrimmedCons(lines[0], lines[1..]);
      assert lines == [lines[0]] + lines[1..];
    }
  }

  lemma ContentEmpty(s: string)
    ensures Content(s) == [] <==> IsBlank(s)
  {
    if IsBlank(s) {
      ContentBlank(s);
    } else {
      NotBlankHasContent(s);
    }
  }

  lemma {:induction false} NotBlankHasContent(s: string)
    requires !IsBlank(s)
    ensures Content(s) != []
    decreases |s|
  {
    hide Trim, Content;
    if '\n' in s {
      var k := FirstLineSplit(s);
      var head, tail := s[..k], s[k + 1..];
      ContentLine(head, tail);
      TrimBlank(head);
      if IsBlank(head) {
        assert !IsBlank(tail) by {
          assert IsBlank(tail) ==> IsBlank(head + ['\n'] + tail);
        }
        NotBlankHasContent(tail);
      }
    } else {
      ContentSingle(s);
      TrimBlank(s);
    }
  }

  /** Joining and trimming a group keeps exactly its non-empty trimmed lines;
      a group of blank lines gives no block. */
  lemma FinalizeContent(group: seq<string>)
    requires NoFeeds(group)
    ensures Finalize(group).None? <==> Trimmed(group) == []
    ensures Finalize(group).Some? ==> Content(Finalize(group).value) == Trimmed(group)
  {
    hide Content, Trim, Join;
    var joined := Join(group, "\n");
    ContentJoin(group);
    ContentTrim(joined);
    ContentEmpty(joined);
    TrimBlank(joined);
  }

  /** A group is an identity group if its first non-blank line says so. */
  ghost predicate IdentityGroup(group: seq<string>) {
    Trimmed(group) != [] && AsciiLower(Trimmed(group)[0]) in IDENTITY_HEADINGS
  }

  lemma {:induction false} TrimmedAreTrimmed(lines: seq<string>)
    ensures forall t :: t in Trimmed(lines) ==> Trim(t) == t && t != ""
  {
    hide Trim;
    if lines == [] {
    } else {
      TrimmedAreTrimmed(lines[1..]);
      TrimIdempotent(lines[0]);
    }
  }

  lemma BlockIdentity(block: string)
    ensures IsIdentityBlock(block) <==> Content(block) != [] && AsciiLower(Content(block)[0]) in IDENTITY_HEADINGS
  {
    hide Trim, AsciiLower, Lines;
    FirstIsHead(Lines(block));
    TrimmedAreTrimmed(Lines(block));
  }

  // --------------------------------------------------------------- one-bit scan

  /** The scan that the splitter refines: identity mode survives every heading
      except an imported one, and every heading met outside it decides anew. */
  ghost predicate NextMode(mode: bool, trimmed: string) {
    if !StartsWith(trimmed, HEADING) then mode
    else if mode && !IsImportedHeading(trimmed) then true
    else IsIdentityHeading(trimmed)
  }

  ghost predicate Mode(lines: seq<string>) {
    lines != [] && NextMode(Mode(lines[..|lines| - 1]), Trim(lines[|lines| - 1]))
  }

  /** The non-blank lines, trimmed, at which the scan is in the given mode. */
  ghost function Lane(lines: seq<string>, mode: bool): seq<string> {
    if lines == [] then []
    else
      var t := Trim(lines[|lines| - 1]);
      Lane(lines[..|lines| - 1], mode) + (if t != "" && Mode(lines) == mode then [t] else [])
  }

  ghost function GroupLane(groups: seq<seq<string>>, mode: bool): seq<string> {
    if groups == [] then []
    else
      var last := groups[|groups| - 1];
      GroupLane(groups[..|groups| - 1], mode) + (if IdentityGroup(last) == mode then Trimmed(last) else [])
  }

  ghost function Flat(groups: seq<seq<string>>): seq<string> {
    if groups == [] then [] else Flat(groups[..|groups| - 1]) + groups[|groups| - 1]
  }

  lemma {:induction false} TrimmedSnoc(lines: seq<string>, line: string)
    ensures Trimmed(lines + [line]) == Trimmed(lines) + (if Trim(line) == "" then [] else [Trim(line)])
  {
    hide Trim;
    if lines == [] {
      assert [] + [line] == [line] + [];
      TrimmedCons(line, []);
    } else {
      assert lines + [line] == [lines[0]] + (lines[1..] + [line]) && lines == [lines[0]] + lines[1..];
      TrimmedSnoc(lines[1..], line);
      TrimmedCons(lines[0], lines[1..] + [line]);
      TrimmedCons(lines[0], lines[1..]);
    }
  }

  lemma GroupLaneSnoc(done: seq<seq<string>>, g: seq<string>, mode: bool)
    ensures GroupLane(done + [g], mode) == GroupLane(done, mode) + (if IdentityGroup(g) == mode then Trimmed(g) else [])
    ensures Flat(done + [g]) == Flat(done) + g
  {
    assert (done + [g])[..|done|] == done;
  }

  lemma IdentityHeadingIsHeading(t: string)
    requires Trim(t) == t && AsciiLower(t) in IDENTITY_HEADINGS
    ensures StartsWith(t, HEADING) && IsImportedHeading(t)
  {
    hide Trim;
    var low := AsciiLower(t);
    assert low[0] == '#' && low[1] == '#' && low[2] == ' ';
    assert t[0] == '#' && t[1] == '#' && t[2] == ' ';
    assert t[..3] == HEADING;
    assert low[..|IMPORTED|] == IMPORTED;
  }

  /** The splitter cuts before a line exactly when its open group has content
      and either is no identity group or meets an imported heading. */
  lemma SplitsBeforeMeaning(cut: Cut, line: string)
    requires NoFeeds(cut.current)
    ensures SplitsBefore(cut, line) <==>
      && StartsWith(Trim(line), HEADING) && Trimmed(cut.current) != []
      && (!IdentityGroup(cut.current) || IsImportedHeading(Trim(line)))
  {
    hide Trim, Content, Finalize, StartsWith, IsIdentityBlock, IsImportedHeading;
    FinalizeContent(cut.current);
    if Finalize(cut.current).Some? {
      BlockIdentity(Finalize(cut.current).value);
    }
  }

  /** What the splitter knows after some lines, against the scan. */
  ghost predicate Refines(lines: seq<string>) {
    Tracks(Cutting(lines), lines) && Follows(Cutting(lines), lines, true) && Follows(Cutting(lines), lines, false)
  }

  ghost predicate Tracks(cut: Cut, lines: seq<string>) {
    && Flat(Groups(cut)) == lines
    && (forall g :: g in cut.done ==> Trimmed(g) != [] && NoFeeds(g))
    && NoFeeds(cut.current)
    && Mode(lines) == IdentityGroup(cut.current)
  }

  ghost predicate Follows(cut: Cut, lines: seq<string>, mode: bool) {
    GroupLane(Groups(cut), mode) == Lane(lines, mode)
  }

  lemma {:induction false} SplitterRefinesScan(lines: seq<string>)
    requires NoFeeds(lines)
    ensures Refines(lines)
  {
    if lines == [] {
      assert Groups(Cutting(lines)) == [[]];
      GroupLaneSnoc([], [], true);
      GroupLaneSnoc([], [], false);
    } else {
      var n := |lines| - 1;
      SplitterRefinesScan(lines[..n]);
      assert lines == lines[..n] + [lines[n]];
      CuttingSnoc(lines[..n], lines[n], true);
      TracksStep(Cutting(lines[..n]), lines[..n], lines[n]);
      FollowsStep(Cutting(lines[..n]), lines[..n], lines[n], true);
      FollowsStep(Cutting(lines[..n]), lines[..n], lines[n], false);
    }
  }

  lemma CuttingSnoc(lines: seq<string>, line: string, mode: bool)
    ensures Cutting(lines + [line]) == Extend(Cutting(lines), line)
    ensures Mode(lines + [line]) == NextMode(Mode(lines), Trim(line))
    ensures Lane(lines + [line], mode) ==
      Lane(lines, mode) + (if Trim(line) != "" && Mode(lines + [line]) == mode then [Trim(line)] else [])
  {
    assert (lines + [line])[..|lines|] == lines;
  }

  lemma TracksStep(cut: Cut, lines: seq<string>, line: string)
    requires Tracks(cut, lines) && '\n' !in line
    ensures Tracks(Extend(cut, line), lines + [line])
  {
    hide Trim, IdentityGroup, Trimmed, SplitsBefore, NextMode, GroupLane, Flat, Mode, Lane, Cutting;
    ModeStep(cut, line);
    CuttingSnoc(lines, line, true);
    GroupLaneSnoc(Groups(cut), [line], true);
    GroupLaneSnoc(cut.done, cut.current, true);
    GroupLaneSnoc(cut.done, cut.current + [line], true);
    assert Flat(cut.done) + cut.current + [line] == Flat(cut.done) + (cut.current + [line]);
  }

  lemma FollowsStep(cut: Cut, lines: seq<string>, line: string, mode: bool)
    requires Tracks(cut, lines) && Follows(cut, lines, mode)
    ensures Follows(Extend(cut, line), lines + [line], mode)
  {
    hide Trim, IdentityGroup, Trimmed, SplitsBefore, NextMode, GroupLane, Flat, Mode, Lane, Cutting, NoFeeds;
    ModeStep(cut, line);
    CuttingSnoc(lines, line, mode);
    TrimmedSingle(line);
    TrimmedSnoc(cut.current, line);
    GroupLaneSnoc(Groups(cut), [line], mode);
    GroupLaneSnoc(cut.done, cut.current, mode);
    GroupLaneSnoc(cut.done, cut.current + [line], mode);
  }

  /** One line moves the open group's kind exactly as it moves the scan. */
  lemma ModeStep(cut: Cut, line: string)
    requires NoFeeds(cut.current)
    ensures var g := Extend(cut, line).current;
      IdentityGroup(g) == NextMode(IdentityGroup(cut.current), Trim(line))
    ensures SplitsBefore(cut, line) ==> Trimmed(cut.current) != []
    ensures !SplitsBefore(cut, line) && Trimmed(cut.current) != [] ==>
      IdentityGroup(cut.current + [line]) == IdentityGroup(cut.current)
  {
    hide Trim, StartsWith, IsImportedHeading, SplitsBefore, AsciiLower;
    var t := Trim(line);
    SplitsBeforeMeaning(cut, line);
    TrimmedSnoc(cut.current, line);
    TrimmedSingle(line);
    TrimIdempotent(line);
    BlankIsNoHeading(t);
    if AsciiLower(t) in IDENTITY_HEADINGS {
      IdentityHeadingIsHeading(t);
    }
  }

  lemma BlankIsNoHeading(t: string)
    ensures StartsWith(t, HEADING) ==> t != ""
  {
  }

  // ------------------------------------------------------------ main statements

  ghost function ContentOf(blocks: seq<string>): seq<string> {
    if blocks == [] then [] else ContentOf(blocks[..|blocks| - 1]) + Content(blocks[|blocks| - 1])
  }

  lemma ContentOfSnoc(blocks: seq<string>, b: string)
    ensures ContentOf(blocks + [b]) == ContentOf(blocks) + Content(b)
    ensures forall m :: Chosen(blocks + [b], m) == Chosen(blocks, m) + (if IsIdentityBlock(b) == m then [b] else [])
  {
    assert (blocks + [b])[..|blocks|] == blocks;
  }

  lemma {:induction false} FinalizedLane(groups: seq<seq<string>>, mode: bool)
    requires forall g :: g in groups ==> NoFeeds(g)
    ensures ContentOf(Chosen(Finalized(groups), mode)) == GroupLane(groups, mode)
  {
    hide Content, Finalize, IsIdentityBlock, Trimmed, NoFeeds, IdentityGroup;
    if groups == [] {
    } else {
      var n := |groups| - 1;
      FinalizedLane(groups[..n], mode);
      assert groups == groups[..n] + [groups[n]];
      LaneStep(groups[..n], groups[n], mode);
    }
  }

  lemma LaneStep(groups: seq<seq<string>>, g: seq<string>, mode: bool)
    requires NoFeeds(g) && ContentOf(Chosen(Finalized(groups), mode)) == GroupLane(groups, mode)
    ensures ContentOf(Chosen(Finalized(groups + [g]), mode)) == GroupLane(groups + [g], mode)
  {
    hide Content, Finalize, IsIdentityBlock, Trimmed, NoFeeds, ContentOf, Chosen, Finalized, GroupLane, AsciiLower;
    FinalizeContent(g);
    FinalizedSnoc(groups, g);
    GroupLaneSnoc(groups, g, mode);
    if Finalize(g).Some? {
      var b := Finalize(g).value;
      BlockIdentity(b);
      var chosen := Chosen(Finalized(groups), mode);
      ContentOfSnoc(Finalized(groups), b);
      ContentOfSnoc(chosen, b);
      assert chosen + [] == chosen && ContentOf(chosen) + [] == ContentOf(chosen);
    } else {
      assert GroupLane(groups, mode) + [] == GroupLane(groups, mode);
    }
  }

  /** Every non-blank line of the note lands, in order, in the identity blocks
      exactly when the one-bit scan is in identity mode at that line, and in
      the advisory blocks otherwise. */
  method PartitionProfileNote(note: string) returns (p: Partition)
    ensures ContentOf(p.identity) == Lane(Lines(note), true)
    ensures ContentOf(p.advisory) == Lane(Lines(note), false)
    ensures p.identity == Chosen(Blocks(note), true) && p.advisory == Chosen(Blocks(note), false)
  {
    hide Blocks, IsIdentityBlock, Lines, ContentOf, Lane;
    var blocks := SplitProfileNoteBlocks(note);
    var identity, advisory: seq<string> := [], [];
    var i := 0;
    while i < |blocks|
      invariant i <= |blocks|
      invariant identity == Chosen(blocks[..i], true) && advisory == Chosen(blocks[..i], false)
    {
      assert blocks[..i + 1][..i] == blocks[..i] && blocks[..i + 1][i] == blocks[i];
      if IsIdentityBlock(blocks[i]) {
        identity := identity + [blocks[i]];
      } else {
        advisory := advisory + [blocks[i]];
      }
      i := i + 1;
    }
    assert blocks[..i] == blocks;
    p := Partition(identity, advisory);
    NoteLanes(note);
  }

  lemma NoteLanes(note: string)
    ensures ContentOf(Chosen(Blocks(note), true)) == Lane(Lines(note), true)
    ensures ContentOf(Chosen(Blocks(note), false)) == Lane(Lines(note), false)
  {
    hide ContentOf, Chosen, Lane, GroupLane, Lines, Finalized, Mode, Cutting;
    LinesHaveNoFeed(note);
    SplitterRefinesScan(Lines(note));
    var groups := Groups(Cutting(Lines(note)));
    FinalizedLane(groups, true);
    FinalizedLane(groups, false);
  }

  lemma VisibleFinal(group: seq<string>)
    ensures Visible(match Finalize(group) case None => "" case Some(b) => b) == Visible(Concat(group))
  {
    hide Visible, Join, Trim;
    var joined := Join(group, "\n");
    VisibleTrim(joined);
    assert IsBlank("\n");
    VisibleJoin(group, "\n");
  }

  lemma {:induction false} VisibleFinalized(groups: seq<seq<string>>)
    ensures Visible(Concat(Finalized(groups))) == Visible(Concat(Flat(groups)))
  {
    hide Visible, Finalize, Concat;
    if groups == [] {
    } else {
      var n := |groups| - 1;
      var last, rest := groups[n], Finalized(groups[..n]);
      VisibleFinalized(groups[..n]);
      VisibleFinal(last);
      ConcatAppend(Flat(groups[..n]), last);
      VisibleConcat(Concat(Flat(groups[..n])), Concat(last));
      if Finalize(last).Some? {
        ConcatSnoc(rest, Finalize(last).value);
        VisibleConcat(Concat(rest), Finalize(last).value);
      } else {
        VisibleBlank("");
      }
    }
  }

  /** The blocks, in order, hold exactly the visible characters of the note. */
  lemma BlocksConserve(note: string)
    ensures Visible(Concat(Blocks(note))) == Visible(note)
  {
    hide Visible, Concat, Lines, Cutting, Finalized, Flat;
    LinesHaveNoFeed(note);
    SplitterRefinesScan(Lines(note));
    VisibleFinalized(Groups(Cutting(Lines(note))));
    VisibleLines(note);
  }
}
