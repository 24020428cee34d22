/** The label matcher of scripts/sync_github_labels.py: glob patterns are
    validated, compiled to regular-expression text and matched against
    repository paths. */
module Glob {
  import opened Text
  import opened Results
  import opened Regex
  import Ordering

  // ------------------------------------------------------- path normalisation

  function ForwardSlashes(s: string): (r: string)
    ensures |r| == |s|
  {
    if s == "" then "" else [if s[0] == '\\' then '/' else s[0]] + ForwardSlashes(s[1..])
  }

  function DropDotSlash(s: string): string {
    if StartsWith(s, "./") then DropDotSlash(s[2..]) else s
  }

  function NormalizedPath(s: string): string {
    DropDotSlash(ForwardSlashes(s))
  }

  method NormalizeRepoPath(repoPath: string) returns (normalized: string)
    ensures normalized == NormalizedPath(repoPath)
  {
    normalized := ForwardSlashes(repoPath);
    while StartsWith(normalized, "./")
      invariant DropDotSlash(normalized) == NormalizedPath(repoPath)
      decreases |normalized|
    {
      normalized := normalized[2..];
    }
  }

  lemma {:induction false} ForwardSlashesMeaning(s: string)
    ensures '\\' !in ForwardSlashes(s)
    ensures forall i :: 0 <= i < |s| ==> ForwardSlashes(s)[i] == if s[i] == '\\' then '/' else s[i]
    ensures '\\' !in s ==> ForwardSlashes(s) == s
  {
    if s == "" {
    } else {
      ForwardSlashesMeaning(s[1..]);
      assert s == [s[0]] + s[1..];
    }
  }

  lemma {:induction false} DropDotSlashMeaning(s: string) returns (n: nat)
    ensures 2 * n <= |s| && DropDotSlash(s) == s[2 * n..]
    ensures !StartsWith(DropDotSlash(s), "./")
    ensures forall i :: 0 <= i < n ==> s[2 * i] == '.' && s[2 * i + 1] == '/'
    decreases |s|
  {
    if StartsWith(s, "./") {
      assert s[..2] == "./";
      var m := DropDotSlashMeaning(s[2..]);
      n := m + 1;
      forall i | 0 <= i < n ensures s[2 * i] == '.' && s[2 * i + 1] == '/' {
        if i > 0 {
          assert s[2..][2 * (i - 1)] == s[2 * i] && s[2..][2 * (i - 1) + 1] == s[2 * i + 1];
        }
      }
    } else {
      n := 0;
    }
  }

  /** A normalised path has forward slashes only and no leading `./`, it is
      the rest of the slash-converted path after some leading `./` pairs, and
      normalising again changes nothing. */
  lemma NormalizedPathMeaning(s: string) returns (n: nat)
    ensures var p := NormalizedPath(s);
      && '\\' !in p && !StartsWith(p, "./")
      && 2 * n <= |s| && p == ForwardSlashes(s)[2 * n..]
      && (forall i :: 0 <= i < |p| ==> p[i] == if s[2 * n + i] == '\\' then '/' else s[2 * n + i])
      && (forall i :: 0 <= i < n ==> ForwardSlashes(s)[2 * i..2 * i + 2] == "./")
      && NormalizedPath(p) == p
  {
    ForwardSlashesMeaning(s);
    n := DropDotSlashMeaning(ForwardSlashes(s));
    ForwardSlashesMeaning(NormalizedPath(s));
  }

  // ------------------------------------------------------------------ segments

  /** `s.split("/")`: never empty; consecutive slashes give empty parts. */
  function Split(s: string): (parts: seq<string>)
    ensures parts != []
    decreases |s|
  {
    var k := IndexOf(s, '/');
    if k == |s| then [s] else [s[..k]] + Split(s[k + 1..])
  }

  lemma {:induction false} SplitSlashFree(s: string)
    ensures forall part :: part in Split(s) ==> '/' !in part
    decreases |s|
  {
    var k := IndexOf(s, '/');
    if k < |s| {
      SplitSlashFree(s[k + 1..]);
    }
  }

  lemma SplitEmpty()
    ensures Split("") == [""]
  {
  }

  lemma SplitCons(name: string, rest: string)
    requires '/' !in name
    ensures Split(name + "/" + rest) == [name] + Split(rest)
  {
    var s := name + "/" + rest;
    var k := IndexOf(s, '/');
    assert s[|name|] == '/';
    assert forall i :: 0 <= i < |name| ==> s[i] == name[i];
    assert k == |name| && s[..k] == name && s[k + 1..] == rest;
  }

  // ---------------------------------------------------------------- validation

  datatype GlobError =
    | EmptyPattern
    | EmptySegment
    | UnsupportedTokens(tokens: seq<string>)
    | EmbeddedDoubleStar

  predicate OccursAt(s: string, t: string, i: nat) {
    i + |t| <= |s| && s[i..i + |t|] == t
  }

  predicate Contains(s: string, t: string) {
    exists i | 0 <= i <= |s| :: OccursAt(s, t, i)
  }

  const EXTGLOB_TOKENS: seq<string> := ["@(", "+(", "*(", "?(", "!("]

  /** `\[[^][]+\]` occurs. */
  predicate HasCharacterClass(s: string) {
    exists i, j | 0 <= i < j < |s| ::
      s[i] == '[' && s[j] == ']' && i + 1 < j
      && forall k | i < k < j :: s[k] != '[' && s[k] != ']'
  }

  /** `\{[^{}]*,[^{}]*\}` occurs. */
  predicate HasBraceExpansion(s: string) {
    exists i, j | 0 <= i < j < |s| ::
      s[i] == '{' && s[j] == '}' && ',' in s[i + 1..j]
      && forall k | i < k < j :: s[k] != '{' && s[k] != '}'
  }

  function FoundTokens(tokens: seq<string>, s: string): seq<string> {
    if tokens == [] then []
    else (if Contains(s, tokens[0]) then [tokens[0]] else []) + FoundTokens(tokens[1..], s)
  }

  function UnsupportedGlobConstructs(s: string): seq<string> {
    FoundTokens(EXTGLOB_TOKENS, s)
    + (if StartsWith(s, "!") && !Contains(s, "!(") then ["leading !"] else [])
    + (if HasCharacterClass(s) then ["[]"] else [])
    + (if HasBraceExpansion(s) then ["{,}"] else [])
  }

  predicate SupportedSegment(seg: string) {
    seg != "" && (Contains(seg, "**") ==> seg == "**")
  }

  /** What the matcher accepts, as its error messages promise. */
  predicate Accepted(normalized: string) {
    && UnsupportedGlobConstructs(normalized) == []
    && forall seg :: seg in Split(normalized) ==> SupportedSegment(seg)
  }

  ghost predicate Occurs(s: string, t: string) {
    exists a: string, b: string {:trigger a + t + b} :: s == a + t + b
  }

  lemma ContainsMeaning(s: string, t: string)
    ensures Contains(s, t) <==> Occurs(s, t)
  {
    if Contains(s, t) {
      var i :| 0 <= i <= |s| && OccursAt(s, t, i);
      assert s == s[..i] + t + s[i + |t|..];
    }
    if Occurs(s, t) {
      var a: string, b: string :| s == a + t + b;
      assert OccursAt(s, t, |a|);
    }
  }

  /** Characters other than brackets between two brackets. */
  ghost predicate IsClass(t: string) {
    |t| > 2 && t[0] == '[' && t[|t| - 1] == ']' && '[' !in t[1..|t| - 1] && ']' !in t[1..|t| - 1]
  }

  /** Alternatives between two braces. */
  ghost predicate IsBraces(t: string) {
    && |t| > 2 && t[0] == '{' && t[|t| - 1] == '}'
    && '{' !in t[1..|t| - 1] && '}' !in t[1..|t| - 1] && ',' in t[1..|t| - 1]
  }

  lemma ClassAt(a: string, t: string, b: string)
    requires IsClass(t)
    ensures HasCharacterClass(a + t + b)
  {
    var s, i, j, inner := a + t + b, |a|, |a| + |t| - 1, t[1..|t| - 1];
    assert s[i + 1..j] == inner && s[i] == '[' && s[j] == ']';
    forall k | i < k < j ensures s[k] != '[' && s[k] != ']' {
      assert s[k] == s[i + 1..j][k - i - 1];
    }
  }

  lemma ClassFound(s: string, i: nat, j: nat)
    requires i < j < |s| && s[i] == '[' && s[j] == ']' && i + 1 < j
    requires forall k :: i < k < j ==> s[k] != '[' && s[k] != ']'
    ensures IsClass(s[i..j + 1]) && Occurs(s, s[i..j + 1])
  {
    var t := s[i..j + 1];
    assert s == s[..i] + t + s[j + 1..];
    assert t[1..|t| - 1] == s[i + 1..j];
  }

  lemma ClassMeaning(s: string)
    ensures HasCharacterClass(s) <==> exists t :: IsClass(t) && Occurs(s, t)
  {
    hide IsClass;
    if HasCharacterClass(s) {
      var i, j :| 0 <= i < j < |s| && s[i] == '[' && s[j] == ']' && i + 1 < j
        && forall k | i < k < j :: s[k] != '[' && s[k] != ']';
      ClassFound(s, i, j);
    }
    if t :| IsClass(t) && Occurs(s, t) {
      var a: string, b: string :| s == a + t + b;
      ClassAt(a, t, b);
    }
  }

  lemma BracesAt(a: string, t: string, b: string)
    requires IsBraces(t)
    ensures HasBraceExpansion(a + t + b)
  {
    var s, i, j, inner := a + t + b, |a|, |a| + |t| - 1, t[1..|t| - 1];
    assert s[i + 1..j] == inner && s[i] == '{' && s[j] == '}';
    forall k | i < k < j ensures s[k] != '{' && s[k] != '}' {
      assert s[k] == s[i + 1..j][k - i - 1];
    }
  }

  lemma BracesFound(s: string, i: nat, j: nat)
    requires i < j < |s| && s[i] == '{' && s[j] == '}' && ',' in s[i + 1..j]
    requires forall k :: i < k < j ==> s[k] != '{' && s[k] != '}'
    ensures IsBraces(s[i..j + 1]) && Occurs(s, s[i..j + 1])
  {
    var t := s[i..j + 1];
    assert s == s[..i] + t + s[j + 1..];
    assert t[1..|t| - 1] == s[i + 1..j];
  }

  lemma BracesMeaning(s: string)
    ensures HasBraceExpansion(s) <==> exists t :: IsBraces(t) && Occurs(s, t)
  {
    hide IsBraces;
    if HasBraceExpansion(s) {
      var i, j :| 0 <= i < j < |s| && s[i] == '{' && s[j] == '}' && ',' in s[i + 1..j]
        && forall k | i < k < j :: s[k] != '{' && s[k] != '}';
      BracesFound(s, i, j);
    }
    if t :| IsBraces(t) && Occurs(s, t) {
      var a: string, b: string :| s == a + t + b;
      BracesAt(a, t, b);
    }
  }

  lemma {:induction false} FoundTokensMeaning(tokens: seq<string>, s: string)
    ensures forall t :: t in FoundTokens(tokens, s) <==> t in tokens && Occurs(s, t)
  {
    hide Contains, Occurs;
    if tokens == [] {
    } else {
      FoundTokensMeaning(tokens[1..], s);
      ContainsMeaning(s, tokens[0]);
    }
  }

  /** What is reported as unsupported: each extended glob, a leading exclamation
      mark that belongs to none, a character class, and alternatives in braces. */
  lemma UnsupportedMeaning(s: string, t: string)
    ensures t in UnsupportedGlobConstructs(s) <==>
      || (t in ["@(", "+(", "*(", "?(", "!("] && Occurs(s, t))
      || (t == "leading !" && s != "" && s[0] == '!' && !Occurs(s, "!("))
      || (t == "[]" && exists part :: IsClass(part) && Occurs(s, part))
      || (t == "{,}" && exists part :: IsBraces(part) && Occurs(s, part))
  {
    hide Contains, Occurs, HasCharacterClass, HasBraceExpansion, FoundTokens, IsClass, IsBraces;
    FoundTokensMeaning(EXTGLOB_TOKENS, s);
    ContainsMeaning(s, "!(");
    ClassMeaning(s);
    BracesMeaning(s);
    StartsWithMark(s);
  }

  lemma StartsWithMark(s: string)
    ensures StartsWith(s, "!") <==> s != "" && s[0] == '!'
  {
    assert s != "" && s[0] == '!' ==> s[..1] == "!";
  }

  /** A pattern is accepted when nothing of that kind occurs in it, no segment is
      empty, and two stars stand alone in a segment or not at all. */
  lemma AcceptedMeaning(normalized: string)
    ensures Accepted(normalized) <==>
      && (forall t :: t in ["@(", "+(", "*(", "?(", "!("] ==> !Occurs(normalized, t))
      && !(normalized != "" && normalized[0] == '!')
      && (forall part :: IsClass(part) || IsBraces(part) ==> !Occurs(normalized, part))
      && (forall seg :: seg in Split(normalized) ==> seg != "" && (Occurs(seg, "**") ==> seg == "**"))
  {
    hide Contains, Occurs, UnsupportedGlobConstructs, IsClass, IsBraces, Split;
    var tokens := ["@(", "+(", "*(", "?(", "!("];
    var found := UnsupportedGlobConstructs(normalized);
    forall t ensures t in found <==>
      || (t in tokens && Occurs(normalized, t))
      || (t == "leading !" && normalized != "" && normalized[0] == '!' && !Occurs(normalized, "!("))
      || (t == "[]" && exists part :: IsClass(part) && Occurs(normalized, part))
      || (t == "{,}" && exists part :: IsBraces(part) && Occurs(normalized, part))
    {
      UnsupportedMeaning(normalized, t);
    }
    assert tokens[4] == "!(";
    assert found != [] ==> found[0] in found;
    assert found == [] ==> "leading !" !in found && "[]" !in found && "{,}" !in found && forall t :: t in tokens ==> t !in found;
    forall seg ensures Contains(seg, "**") <==> Occurs(seg, "**") {
      ContainsMeaning(seg, "**");
    }
  }

  lemma {:induction false} DoubleSlashSplit(s: string, i: nat)
    requires i + 2 <= |s| && s[i..i + 2] == "//"
    ensures "" in Split(s)
    decreases |s|
  {
    var k := IndexOf(s, '/');
    assert s[i] == '/' && s[i + 1] == '/';
    assert k <= i;
    var tail := s[k + 1..];
    if k == i {
      assert tail[0] == '/';
      assert Split(tail)[0] == tail[..0];
      assert Split(s)[1] == "";
    } else {
      assert tail[i - k - 1..i - k + 1] == "//";
      DoubleSlashSplit(tail, i - k - 1);
    }
  }

  lemma ContainsDoubleSlash(s: string)
    requires Contains(s, "//")
    ensures "" in Split(s) && !SupportedSegment("")
  {
    var i :| 0 <= i <= |s| && OccursAt(s, "//", i);
    DoubleSlashSplit(s, i);
  }

  method ValidateSupportedGlobPattern(pattern: string) returns (r: Result<string, GlobError>)
    ensures r.Ok? <==> Accepted(NormalizedPath(pattern))
    ensures r.Ok? ==> r.value == NormalizedPath(pattern)
    ensures r == Err(EmptyPattern) <==> NormalizedPath(pattern) == ""
    ensures r.Err? && r.error.UnsupportedTokens? ==>
      r.error.tokens == UnsupportedGlobConstructs(NormalizedPath(pattern)) != []
    ensures r.Err? && r.error.EmptySegment? ==> "" in Split(NormalizedPath(pattern))
    ensures r.Err? && r.error.EmbeddedDoubleStar? ==>
      exists seg :: seg in Split(NormalizedPath(pattern)) && Contains(seg, "**") && seg != "**"
  {
    hide UnsupportedGlobConstructs, NormalizedPath, Contains, Split;
    var normalized := NormalizeRepoPath(pattern);
    if normalized == "" {
      SplitEmpty();
      assert "" in Split(normalized) && !SupportedSegment("");
      return Err(EmptyPattern);
    }
    if Contains(normalized, "//") {
      ContainsDoubleSlash(normalized);
      return Err(EmptySegment);
    }
    var found := UnsupportedGlobConstructs(normalized);
    if found != [] {
      return Err(UnsupportedTokens(found));
    }
    var segments := Split(normalized);
    for i := 0 to |segments|
      invariant forall k :: 0 <= k < i ==> SupportedSegment(segments[k])
    {
      var segment := segments[i];
      assert segment in segments;
      if segment != "" {
        if Contains(segment, "**") && segment != "**" {
          return Err(EmbeddedDoubleStar);
        }
      } else {
        return Err(EmptySegment);
      }
    }
    return Ok(normalized);
  }

  // --------------------------------------------------------------- compilation

  function CharPiece(c: char): Piece {
    if c == '*' then SegmentStar else if c == '?' then SegmentAny else Literal(c)
  }

  function SegmentPieces(seg: string): seq<Piece> {
    if seg == "" then [] else [CharPiece(seg[0])] + SegmentPieces(seg[1..])
  }

  function BodyPieces(segs: seq<string>): seq<Piece>
    requires segs != []
  {
    if |segs| == 1 then
      if segs[0] == "**" then [DeepTail] else SegmentPieces(segs[0])
    else if segs[0] == "**" then [DeepInner] + BodyPieces(segs[1..])
    else SegmentPieces(segs[0]) + [Literal('/')] + BodyPieces(segs[1..])
  }

  method GlobSegmentToRegex(segment: string) returns (text: string)
    ensures text == PiecesText(SegmentPieces(segment))
  {
    var parts: seq<string> := [];
    assert segment[0..] == segment;
    for i := 0 to |segment|
      invariant Written(parts, segment[i..]) == PiecesText(SegmentPieces(segment))
    {
      var character := segment[i];
      var part;
      if character == '*' {
        part := "[^/]*";
      } else if character == '?' {
        part := "[^/]";
      } else {
        part := Escape(character);
      }
      WrittenStep(parts, part, segment[i..]);
      assert segment[i..][1..] == segment[i + 1..];
      parts := parts + [part];
    }
    WrittenEnd(parts);
    assert segment[|segment|..] == "";
    text := Concat(parts);
  }

  /** The text already emitted followed by that of the characters to come. */
  ghost function Written(parts: seq<string>, rest: string): string {
    Concat(parts) + PiecesText(SegmentPieces(rest))
  }

  lemma WrittenStep(parts: seq<string>, part: string, rest: string)
    requires rest != "" && part == PieceText(CharPiece(rest[0]))
    ensures Written(parts, rest) == Written(parts + [part], rest[1..])
  {
    SegmentText(rest);
    ConcatSnoc(parts, part);
  }

  lemma WrittenEnd(parts: seq<string>)
    ensures Written(parts, "") == Concat(parts)
  {
  }

  lemma SegmentText(g: string)
    requires g != ""
    ensures PiecesText(SegmentPieces(g)) == PieceText(CharPiece(g[0])) + PiecesText(SegmentPieces(g[1..]))
  {
    var ps := SegmentPieces(g);
    assert ps[0] == CharPiece(g[0]) && ps[1..] == SegmentPieces(g[1..]);
  }

  method GlobPatternToRegex(pattern: string) returns (r: Result<string, GlobError>)
    ensures r.Ok? <==> Accepted(NormalizedPath(pattern))
    ensures r.Ok? ==> r.value == RegexText(BodyPieces(Split(NormalizedPath(pattern))))
  {
    var validated := ValidateSupportedGlobPattern(pattern);
    if validated.Err? {
      return Err(validated.error);
    }
    var segments := Split(validated.value);
    var text := "^";
    ghost var whole := RegexText(BodyPieces(segments));
    assert segments[0..] == segments;
    for i := 0 to |segments|
      invariant text + RestText(segments[i..]) + "$" == whole
    {
      var segment := segments[i];
      var isLast := i == |segments| - 1;
      var part;
      if segment == "**" {
        part := if isLast then ".*" else "(?:[^/]+/)*";
      } else {
        part := GlobSegmentToRegex(segment);
        if !isLast {
          part := part + "/";
        }
      }
      assert segments[i..][1..] == segments[i + 1..];
      BodyStep(text, part, segments[i..]);
      text := text + part;
    }
    BodyEnd(text);
    assert segments[|segments|..] == [];
    r := Ok(text + "$");
  }

  lemma BodyStep(text: string, part: string, segs: seq<string>)
    requires segs != [] && part == HeadText(segs)
    ensures text + RestText(segs) + "$" == text + part + RestText(segs[1..]) + "$"
  {
    BodyText(segs);
    var rest := RestText(segs[1..]);
    assert text + (part + rest) == text + part + rest;
  }

  lemma BodyEnd(text: string)
    ensures text + RestText([]) + "$" == text + "$"
  {
  }

  ghost function RestText(segs: seq<string>): string {
    if segs == [] then "" else PiecesText(BodyPieces(segs))
  }

  ghost function HeadText(segs: seq<string>): string
    requires segs != []
  {
    if segs[0] == "**" then (if |segs| == 1 then ".*" else "(?:[^/]+/)*")
    else if |segs| == 1 then PiecesText(SegmentPieces(segs[0]))
    else PiecesText(SegmentPieces(segs[0])) + "/"
  }

  lemma OnePiece(p: Piece)
    ensures PiecesText([p]) == PieceText(p)
  {
    assert [p][1..] == [];
    assert PieceText(p) + "" == PieceText(p);
  }

  /** The text of a body, segment by segment. */
  lemma BodyText(segs: seq<string>)
    requires segs != []
    ensures RestText(segs) == HeadText(segs) + RestText(segs[1..])
  {
    if |segs| == 1 {
      OnePiece(DeepTail);
      assert segs[1..] == [];
      assert HeadText(segs) + "" == HeadText(segs);
    } else if segs[0] == "**" {
      OnePiece(DeepInner);
      PiecesTextAppend([DeepInner], BodyPieces(segs[1..]));
    } else {
      var sp := SegmentPieces(segs[0]);
      PiecesTextAppend(sp + [Literal('/')], BodyPieces(segs[1..]));
      PiecesTextAppend(sp, [Literal('/')]);
      OnePiece(Literal('/'));
      SlashIsPlain();
    }
  }

  lemma SlashIsPlain()
    ensures PieceText(Literal('/')) == "/"
  {
  }

  // --------------------------------------------------------- reference matcher

  /** One pattern segment against one path part: `*` takes any run of
      characters, `?` takes one. */
  ghost predicate SegmentMatches(g: string, t: string)
    decreases |g|
  {
    if g == "" then t == ""
    else if g[0] == '*' then exists k | 0 <= k <= |t| :: SegmentMatches(g[1..], t[k..])
    else t != "" && (g[0] == '?' || g[0] == t[0]) && SegmentMatches(g[1..], t[1..])
  }

  /** A pattern against the parts of a path. An inner `**` takes zero or more
      non-empty parts, a final `**` takes one or more parts of any content
      (of newline-free content when `oneLine` is set), every other segment
      takes exactly one part. */
  ghost predicate PathMatches(segs: seq<string>, parts: seq<string>, oneLine: bool)
    requires segs != [] && parts != []
    decreases |segs| + |parts|
  {
    if segs[0] == "**" then
      if |segs| == 1 then oneLine ==> NewlineFree(parts)
      else
        || PathMatches(segs[1..], parts, oneLine)
        || (|parts| > 1 && parts[0] != "" && PathMatches(segs, parts[1..], oneLine))
    else
      && SegmentMatches(segs[0], parts[0])
      && (if |segs| == 1 then |parts| == 1 else |parts| > 1 && PathMatches(segs[1..], parts[1..], oneLine))
  }

  ghost predicate NewlineFree(parts: seq<string>) {
    forall part :: part in parts ==> '\n' !in part
  }

  // -------------------------------------------------------------- correctness

  lemma SegmentThenNone(rest: seq<Piece>, s: string)
    ensures SegmentThen("", rest, s, 0) <==> In(s, PiecesExpr(rest))
    ensures forall k :: 0 < k <= |s| ==> !SegmentThen("", rest, s, k)
  {
    assert s[..0] == "" && s[0..] == s;
  }

  lemma PiecesExprCons(p: Piece, rest: seq<Piece>)
    ensures PiecesExpr([p] + rest) == Cat(PieceExpr(p), PiecesExpr(rest))
  {
    assert ([p] + rest)[1..] == rest;
  }

  lemma PiecesAhead(g: string, rest: seq<Piece>)
    ensures g == "" ==> SegmentPieces(g) + rest == rest
    ensures g != "" ==> SegmentPieces(g) + rest == [CharPiece(g[0])] + (SegmentPieces(g[1..]) + rest)
    ensures g != "" && '/' !in g ==> '/' !in g[1..]
  {
  }

  /** The expression of a segment followed by `rest` matches exactly the texts
      that begin with a slash-free run matched by the segment. */
  lemma {:induction false} SegmentExpr(g: string, rest: seq<Piece>, s: string)
    requires '/' !in g
    ensures In(s, PiecesExpr(SegmentPieces(g) + rest)) <==>
      exists k :: 0 <= k <= |s| && SegmentThen(g, rest, s, k)
    decreases |g|
  {
    hide *;
    PiecesAhead(g, rest);
    if g == "" {
      SegmentThenNone(rest, s);
    } else {
      var tail := SegmentPieces(g[1..]) + rest;
      var first := CharPiece(g[0]);
      PiecesExprCons(first, tail);
      if In(s, PiecesExpr([first] + tail)) {
        var j := CatElim(s, PieceExpr(first), PiecesExpr(tail));
        SegmentExpr(g[1..], rest, s[j..]);
        var k :| 0 <= k <= |s[j..]| && SegmentThen(g[1..], rest, s[j..], k);
        SegmentGrow(g, rest, s, j, k);
      }
      if k :| 0 <= k <= |s| && SegmentThen(g, rest, s, k) {
        var j := SegmentShrink(g, rest, s, k);
        SegmentExpr(g[1..], rest, s[j..]);
        CatIntro(s, j, PieceExpr(first), PiecesExpr(tail));
      }
    }
  }

  ghost predicate SegmentThen(g: string, rest: seq<Piece>, s: string, k: nat)
    requires k <= |s|
  {
    '/' !in s[..k] && SegmentMatches(g, s[..k]) && In(s[k..], PiecesExpr(rest))
  }

  lemma Slices(s: string, j: nat, k: nat)
    requires j <= k <= |s|
    ensures s[j..][..k - j] == s[..k][j..]
    ensures s[j..][k - j..] == s[k..]
    ensures s[..k][..j] == s[..j]
  {
  }

  /** The first character of a segment takes the first `j` characters of a text. */
  ghost predicate FirstTakes(c: char, t: string) {
    if c == '*' then '/' !in t
    else |t| == 1 && '/' !in t && (c == '?' || c == t[0])
  }

  lemma FirstExpr(c: char, t: string)
    requires c != '/'
    ensures In(t, PieceExpr(CharPiece(c))) <==> FirstTakes(c, t)
  {
    hide In;
    if c == '*' {
      SlashFreeStar(t);
    } else if c == '?' {
      SlashFreeOne(t);
    } else {
      CharExpr(t, c);
    }
  }

  lemma SegmentMatchesCons(g: string, t: string, j: nat)
    requires g != "" && j <= |t| && '/' !in t
    requires FirstTakes(g[0], t[..j]) && SegmentMatches(g[1..], t[j..])
    ensures SegmentMatches(g, t)
  {
    if g[0] != '*' {
      assert j == 1 && t[..1][0] == t[0];
    }
  }

  lemma SegmentMatchesUncons(g: string, t: string) returns (j: nat)
    requires g != "" && '/' !in t && SegmentMatches(g, t)
    ensures j <= |t| && FirstTakes(g[0], t[..j]) && SegmentMatches(g[1..], t[j..])
  {
    if g[0] == '*' {
      j :| 0 <= j <= |t| && SegmentMatches(g[1..], t[j..]);
      SplitMember(t, j, '/');
    } else {
      j := 1;
      SplitMember(t, 1, '/');
    }
  }

  lemma SegmentGrow(g: string, rest: seq<Piece>, s: string, j: nat, k: nat)
    requires '/' !in g && g != "" && j + k <= |s|
    requires In(s[..j], PieceExpr(CharPiece(g[0])))
    requires SegmentThen(g[1..], rest, s[j..], k)
    ensures SegmentThen(g, rest, s, j + k)
  {
    hide In, SegmentMatches, PiecesExpr, PieceExpr, CharPiece;
    Slices(s, j, j + k);
    FirstExpr(g[0], s[..j]);
    var t := s[..j + k];
    SplitMember(t, j, '/');
    assert '/' !in s[..j];
    SegmentMatchesCons(g, t, j);
  }

  lemma SegmentShrink(g: string, rest: seq<Piece>, s: string, k: nat) returns (j: nat)
    requires '/' !in g && g != "" && k <= |s|
    requires SegmentThen(g, rest, s, k)
    ensures j <= k && In(s[..j], PieceExpr(CharPiece(g[0])))
    ensures SegmentThen(g[1..], rest, s[j..], k - j)
  {
    hide In, SegmentMatches, PiecesExpr, PieceExpr, CharPiece;
    var t := s[..k];
    j := SegmentMatchesUncons(g, t);
    Slices(s, j, k);
    SplitMember(t, j, '/');
    FirstExpr(g[0], s[..j]);
  }

  const DEEP: Expr := Star(Cat(NAME, Char('/')))

  /** `(?:[^/]+/)*` followed by `rest`: stop here, or skip one name. */
  lemma DeepInnerStep(rest: seq<Piece>, s: string)
    ensures var k := IndexOf(s, '/');
      In(s, PiecesExpr([DeepInner] + rest)) <==>
        || In(s, PiecesExpr(rest))
        || (0 < k < |s| && In(s[k + 1..], PiecesExpr([DeepInner] + rest)))
  {
    var k := IndexOf(s, '/');
    PiecesExprCons(DeepInner, rest);
    var e := PiecesExpr(rest);
    assert PiecesExpr([DeepInner] + rest) == Cat(DEEP, e);
    hide *;
    if In(s, Cat(DEEP, e)) {
      DeepInnerOut(e, s);
    }
    if In(s, e) {
      assert s[..0] == "" && s[0..] == s;
      DeepInnerStop(e, s);
    }
    if 0 < k < |s| && In(s[k + 1..], Cat(DEEP, e)) {
      DeepInnerMore(e, s, k);
    }
  }

  lemma DeepInnerStop(rest: Expr, s: string)
    requires In(s, rest)
    ensures In(s, Cat(DEEP, rest))
  {
    assert s[..0] == "" && s[0..] == s;
    StarEmpty(Cat(NAME, Char('/')));
    hide In;
    CatIntro(s, 0, DEEP, rest);
  }

  lemma DeepInnerOut(rest: Expr, s: string)
    requires In(s, Cat(DEEP, rest))
    ensures var k := IndexOf(s, '/');
      In(s, rest) || (0 < k < |s| && In(s[k + 1..], Cat(DEEP, rest)))
  {
    hide In;
    var j := CatElim(s, DEEP, rest);
    if j == 0 {
      assert s[0..] == s;
    } else {
      DeepInnerSkip(rest, s, j);
    }
  }

  lemma DeepInnerSkip(rest: Expr, s: string, j: nat)
    requires 0 < j <= |s| && In(s[..j], DEEP) && In(s[j..], rest)
    ensures var k := IndexOf(s, '/');
      0 < k < |s| && In(s[k + 1..], Cat(DEEP, rest))
  {
    hide In;
    var t := s[..j];
    var m := StarElim(t, Cat(NAME, Char('/')));
    Slices(s, m, j);
    NameAndSlash(s[..m]);
    FirstSlash(s, m);
    CatIntro(s[m..], j - m, DEEP, rest);
  }

  lemma DeepInnerMore(rest: Expr, s: string, k: nat)
    requires k == IndexOf(s, '/') && 0 < k < |s|
    requires In(s[k + 1..], Cat(DEEP, rest))
    ensures In(s, Cat(DEEP, rest))
  {
    hide In;
    var u := s[k + 1..];
    var j := CatElim(u, DEEP, rest);
    var n := k + 1 + j;
    Slices(s, k + 1, n);
    assert '/' !in s[..k] && s[k] == '/';
    DeepInnerLonger(s[..n], k);
    CatIntro(s, n, DEEP, rest);
  }

  lemma DeepInnerLonger(t: string, k: nat)
    requires 0 < k < |t| && '/' !in t[..k] && t[k] == '/'
    requires In(t[k + 1..], DEEP)
    ensures In(t, DEEP)
  {
    hide In;
    var name := t[..k + 1];
    assert name[..k] == t[..k];
    NameAndSlash(name);
    StarIntro(t, k + 1, Cat(NAME, Char('/')));
  }

  lemma FirstSlash(s: string, m: nat)
    requires 2 <= m <= |s| && s[..m][m - 1] == '/' && '/' !in s[..m][..m - 1]
    ensures IndexOf(s, '/') == m - 1
  {
    assert forall i :: 0 <= i < m - 1 ==> s[i] == s[..m][..m - 1][i];
    assert s[m - 1] == s[..m][m - 1];
  }

  ghost predicate SlashFreeSegments(segs: seq<string>) {
    segs != [] && forall seg :: seg in segs ==> '/' !in seg
  }

  /** The compiler keeps the meaning of the pattern: the emitted expression
      accepts a path exactly when the reference matcher accepts its parts. */
  lemma {:induction false} CompiledBody(segs: seq<string>, path: string)
    requires SlashFreeSegments(segs)
    ensures In(path, PiecesExpr(BodyPieces(segs))) <==> PathMatches(segs, Split(path), true)
    decreases |segs|, |path|
  {
    var k := IndexOf(path, '/');
    assert path == path[..k] + path[k..];
    if segs[0] == "**" {
      if |segs| == 1 {
        CompiledTail(path);
        SplitNewline(path);
      } else {
        var rest := BodyPieces(segs[1..]);
        CompiledBody(segs[1..], path);
        DeepInnerStep(rest, path);
        if 0 < k < |path| {
          CompiledBody(segs, path[k + 1..]);
        }
      }
    } else if |segs| == 1 {
      CompiledLast(segs[0], path);
    } else {
      CompiledSegment(segs[0], BodyPieces(segs[1..]), path);
      if k < |path| {
        CompiledBody(segs[1..], path[k + 1..]);
      }
    }
  }

  lemma CompiledTail(path: string)
    ensures In(path, PiecesExpr([DeepTail])) <==> '\n' !in path
  {
    PiecesExprCons(DeepTail, []);
    assert [DeepTail] + [] == [DeepTail];
    NewlineFreeStar(path);
    EmptyTail(path, Star(NotNewline));
  }

  lemma EmptyTail(s: string, e: Expr)
    ensures In(s, Cat(e, Empty)) <==> In(s, e)
  {
    assert s[..|s|] == s && s[|s|..] == "";
    EmptyExpr("");
    hide In;
    if In(s, e) {
      CatIntro(s, |s|, e, Empty);
    }
    if In(s, Cat(e, Empty)) {
      var k := CatElim(s, e, Empty);
      EmptyExpr(s[k..]);
    }
  }

  lemma EmptyExpr(s: string)
    ensures In(s, Empty) <==> s == ""
  {
  }

  lemma CompiledLast(g: string, path: string)
    requires '/' !in g
    ensures In(path, PiecesExpr(SegmentPieces(g))) <==> '/' !in path && SegmentMatches(g, path)
  {
    assert SegmentPieces(g) + [] == SegmentPieces(g);
    assert PiecesExpr([]) == Empty;
    hide In, SegmentMatches, PiecesExpr;
    SegmentExpr(g, [], path);
    forall k | 0 <= k <= |path|
      ensures SegmentThen(g, [], path, k) <==> k == |path| && '/' !in path && SegmentMatches(g, path)
    {
      EmptyExpr(path[k..]);
      assert k == |path| ==> path[..k] == path;
    }
    assert SegmentThen(g, [], path, |path|) <==> '/' !in path && SegmentMatches(g, path);
  }

  lemma CompiledSegment(g: string, rest: seq<Piece>, path: string)
    requires '/' !in g
    ensures var k := IndexOf(path, '/');
      In(path, PiecesExpr(SegmentPieces(g) + [Literal('/')] + rest)) <==>
        k < |path| && SegmentMatches(g, path[..k]) && In(path[k + 1..], PiecesExpr(rest))
  {
    assert SegmentPieces(g) + [Literal('/')] + rest == SegmentPieces(g) + ([Literal('/')] + rest);
    SegmentExpr(g, [Literal('/')] + rest, path);
    CompiledSegmentAt(g, rest, path);
  }

  lemma CompiledSegmentAt(g: string, rest: seq<Piece>, path: string)
    ensures var k := IndexOf(path, '/');
      (exists j :: 0 <= j <= |path| && SegmentThen(g, [Literal('/')] + rest, path, j)) <==>
        k < |path| && SegmentMatches(g, path[..k]) && In(path[k + 1..], PiecesExpr(rest))
  {
    var k := IndexOf(path, '/');
    hide *;
    if j :| 0 <= j <= |path| && SegmentThen(g, [Literal('/')] + rest, path, j) {
      SegmentThenSlash(g, rest, path, j);
    }
    if k < |path| && SegmentMatches(g, path[..k]) && In(path[k + 1..], PiecesExpr(rest)) {
      SegmentThenSlash(g, rest, path, k);
    }
  }

  lemma SegmentThenSlash(g: string, rest: seq<Piece>, path: string, j: nat)
    requires j <= |path|
    ensures var k := IndexOf(path, '/');
      SegmentThen(g, [Literal('/')] + rest, path, j) <==>
        j == k < |path| && SegmentMatches(g, path[..k]) && In(path[k + 1..], PiecesExpr(rest))
  {
    SlashThen(rest, path[j..]);
    assert '/' !in path[..IndexOf(path, '/')];
    assert forall i :: 0 <= i < j ==> path[..j][i] == path[i];
    if j < |path| {
      assert path[j..][1..] == path[j + 1..];
    }
  }

  lemma SlashThen(rest: seq<Piece>, s: string)
    ensures In(s, PiecesExpr([Literal('/')] + rest)) <==>
      s != "" && s[0] == '/' && In(s[1..], PiecesExpr(rest))
  {
    PiecesExprCons(Literal('/'), rest);
    var e := PiecesExpr(rest);
    hide In, PiecesExpr;
    if s != "" && s[0] == '/' && In(s[1..], e) {
      CharExpr(s[..1], '/');
      CatIntro(s, 1, Char('/'), e);
    }
    if In(s, Cat(Char('/'), e)) {
      var j := CatElim(s, Char('/'), e);
      CharExpr(s[..j], '/');
    }
  }

  lemma {:induction false} SplitNewline(s: string)
    ensures NewlineFree(Split(s)) <==> '\n' !in s
    decreases |s|
  {
    var k := IndexOf(s, '/');
    if k == |s| {
      assert Split(s)[0] == s;
    } else {
      var head, tail := s[..k], s[k + 1..];
      SplitNewline(tail);
      assert s == head + ['/'] + tail;
      var parts := Split(s);
      assert parts[0] == head && parts[1..] == Split(tail);
      assert forall part :: part in parts <==> part == head || part in parts[1..];
    }
  }

  lemma {:induction false} NewlineIrrelevant(segs: seq<string>, parts: seq<string>)
    requires segs != [] && parts != [] && NewlineFree(parts)
    ensures PathMatches(segs, parts, true) <==> PathMatches(segs, parts, false)
    decreases |segs| + |parts|
  {
    if |segs| > 1 && |parts| > 1 {
      NewlineIrrelevant(segs[1..], parts[1..]);
    }
    if |segs| > 1 {
      NewlineIrrelevant(segs[1..], parts);
    }
    if |parts| > 1 {
      NewlineIrrelevant(segs, parts[1..]);
    }
  }

  /** What `path_matches_pattern` answers for an accepted pattern, on every
      path: `$` also lets one final newline through. */
  lemma CompiledPattern(pattern: string, path: string)
    ensures var segs := Split(pattern);
      Matches(RegexText(BodyPieces(segs)), path) <==>
        || PathMatches(segs, Split(path), true)
        || (path != "" && path[|path| - 1] == '\n' && PathMatches(segs, Split(path[..|path| - 1]), true))
  {
    var segs := Split(pattern);
    SplitSlashFree(pattern);
    ParseText(BodyPieces(segs));
    CompiledBody(segs, path);
    if path != "" {
      CompiledBody(segs, path[..|path| - 1]);
    }
  }

  /** On a newline-free path the regular expression and the reference matcher
      agree. */
  lemma CompiledPatternOneLine(pattern: string, path: string)
    requires '\n' !in path
    ensures Matches(RegexText(BodyPieces(Split(pattern))), path) <==> PathMatches(Split(pattern), Split(path), false)
  {
    CompiledPattern(pattern, path);
    SplitNewline(path);
    NewlineIrrelevant(Split(pattern), Split(path));
  }

  /** With newlines they differ both ways: `a` accepts `"a\n"`, which no
      segment matches, and `**` refuses `"\nb"`, which it should take whole. */
  lemma NewlineDisagreement()
    ensures Matches(RegexText(BodyPieces(Split("a"))), "a\n") && !PathMatches(Split("a"), Split("a\n"), false)
    ensures !Matches(RegexText(BodyPieces(Split("**"))), "\nb") && PathMatches(Split("**"), Split("\nb"), false)
  {
    assert Split("a") == ["a"] && Split("a\n") == ["a\n"];
    assert "a\n"[..1] == "a";
    assert SegmentMatches("a", "a");
    assert !SegmentMatches("a", "a\n") by {
      assert "a\n"[1..] == "\n";
    }
    CompiledPattern("a", "a\n");
    assert Split("**") == ["**"] && Split("\nb") == ["\nb"];
    SplitNewline("\nb");
    CompiledPattern("**", "\nb");
  }

  // -------------------------------------------------------------------- labels

  /** `pattern` is accepted and its regular expression matches the path. */
  ghost predicate PatternMatches(repoPath: string, pattern: string) {
    && Accepted(NormalizedPath(pattern))
    && Matches(RegexText(BodyPieces(Split(NormalizedPath(pattern)))), NormalizedPath(repoPath))
  }

  method PathMatchesPattern(repoPath: string, pattern: string) returns (r: Result<bool, GlobError>)
    ensures r.Ok? <==> Accepted(NormalizedPath(pattern))
    ensures r.Ok? ==> (r.value <==> PatternMatches(repoPath, pattern))
    ensures r.Ok? && '\n' !in NormalizedPath(repoPath) ==>
      (r.value <==> PathMatches(Split(NormalizedPath(pattern)), Split(NormalizedPath(repoPath)), false))
  {
    hide Matches, Accepted;
    var normalizedPath := NormalizeRepoPath(repoPath);
    var compiled := GlobPatternToRegex(pattern);
    if compiled.Err? {
      return Err(compiled.error);
    }
    if '\n' !in normalizedPath {
      CompiledPatternOneLine(NormalizedPath(pattern), normalizedPath);
    }
    r := Ok(Matches(compiled.value, normalizedPath));
  }

  datatype Entry = Entry(name: string, paths: seq<string>)

  /** Some pattern of the entry matches and every pattern before it is accepted. */
  ghost predicate EntryMatches(entry: Entry, repoPath: string) {
    exists i :: 0 <= i < |entry.paths| && PatternMatches(repoPath, entry.paths[i])
      && forall j :: 0 <= j < i ==> Accepted(NormalizedPath(entry.paths[j]))
  }

  /** A refused pattern is reached before any match. */
  ghost predicate EntryFails(entry: Entry, repoPath: string) {
    exists i :: 0 <= i < |entry.paths| && !Accepted(NormalizedPath(entry.paths[i]))
      && forall j :: 0 <= j < i ==> Accepted(NormalizedPath(entry.paths[j])) && !PatternMatches(repoPath, entry.paths[j])
  }

  ghost function MatchingNames(entries: seq<Entry>, repoPath: string): seq<string> {
    if entries == [] then []
    else
      var last := entries[|entries| - 1];
      MatchingNames(entries[..|entries| - 1], repoPath) + (if EntryMatches(last, repoPath) then [last.name] else [])
  }

  method EntryLabel(entry: Entry, repoPath: string) returns (r: Result<bool, GlobError>)
    ensures r.Err? <==> EntryFails(entry, repoPath)
    ensures r.Ok? ==> (r.value <==> EntryMatches(entry, repoPath))
  {
    hide PatternMatches, Accepted;
    for i := 0 to |entry.paths|
      invariant forall j :: 0 <= j < i ==>
        Accepted(NormalizedPath(entry.paths[j])) && !PatternMatches(repoPath, entry.paths[j])
    {
      var doesMatch := PathMatchesPattern(repoPath, entry.paths[i]);
      if doesMatch.Err? {
        return Err(doesMatch.error);
      }
      if doesMatch.value {
        return Ok(true);
      }
    }
    r := Ok(false);
  }

  /** One label for each entry with a matching pattern, in sorted order,
      unless a refused pattern is reached first. */
  method LabelsForPath(entries: seq<Entry>, repoPath: string) returns (r: Result<seq<string>, GlobError>)
    ensures r.Err? <==> exists entry :: entry in entries && EntryFails(entry, repoPath)
    ensures r.Ok? ==> Ordering.Sorted(r.value, Leq)
    ensures r.Ok? ==> multiset(r.value) == multiset(MatchingNames(entries, repoPath))
  {
    hide EntryMatches, EntryFails;
    var matching: seq<string> := [];
    for n := 0 to |entries|
      invariant matching == MatchingNames(entries[..n], repoPath)
      invariant forall entry :: entry in entries[..n] ==> !EntryFails(entry, repoPath)
    {
      var found := EntryLabel(entries[n], repoPath);
      if found.Err? {
        assert entries[n] in entries;
        return Err(found.error);
      }
      assert entries[..n + 1] == entries[..n] + [entries[n]];
      if found.value {
        matching := matching + [entries[n].name];
      }
    }
    assert entries[..|entries|] == entries;
    StringOrder();
    Ordering.SortSorted(matching, Leq);
    r := Ok(Ordering.Sort(matching, Leq));
  }
}
