/** The part of Python's regular expressions that the glob compiler emits:
    its text, its syntax and its meaning. */
module Regex {
  import opened Text
  import opened Results

  /** The pieces a compiled pattern is made of. */
  datatype Piece =
    | SegmentStar      // [^/]*
    | SegmentAny       // [^/]
    | Literal(c: char)
    | DeepInner        // (?:[^/]+/)*
    | DeepTail         // .*

  // -------------------------------------------------------------------- syntax

  /** The characters `re.escape` puts a backslash before. */
  const SPECIAL: string := "()[]{}?*+-|^$\\.&~# \t\n\r\U{000B}\U{000C}"

  function Escape(c: char): string {
    if c in SPECIAL then ['\\', c] else [c]
  }

  function PieceText(p: Piece): string {
    match p
    case SegmentStar => "[^/]*"
    case SegmentAny => "[^/]"
    case Literal(c) => Escape(c)
    case DeepInner => "(?:[^/]+/)*"
    case DeepTail => ".*"
  }

  function PiecesText(ps: seq<Piece>): string {
    if ps == [] then "" else PieceText(ps[0]) + PiecesText(ps[1..])
  }

  function RegexText(ps: seq<Piece>): string {
    "^" + PiecesText(ps) + "$"
  }

  lemma {:induction false} PiecesTextAppend(a: seq<Piece>, b: seq<Piece>)
    ensures PiecesText(a + b) == PiecesText(a) + PiecesText(b)
  {
    if a == [] {
      assert a + b == b;
    } else {
      assert (a + b)[1..] == a[1..] + b;
      PiecesTextAppend(a[1..], b);
    }
  }

  /** The piece a text begins with and the length of its spelling. A class is
      quantified when a star follows it, an escaped character stands for
      itself, and so does every character outside the special ones. */
  function HeadPiece(t: string): (r: Option<(Piece, nat)>)
    ensures r.Some? ==> 0 < r.value.1 <= |t|
  {
    if t == "" then None
    else if t[0] == '[' then
      if StartsWith(t, "[^/]*") then Some((SegmentStar, 5))
      else if StartsWith(t, "[^/]") then Some((SegmentAny, 4))
      else None
    else if t[0] == '(' then
      if StartsWith(t, "(?:[^/]+/)*") then Some((DeepInner, 11)) else None
    else if t[0] == '.' then
      if StartsWith(t, ".*") then Some((DeepTail, 2)) else None
    else if t[0] == '\\' then
      if |t| >= 2 && t[1] in SPECIAL then Some((Literal(t[1]), 2)) else None
    else if t[0] in SPECIAL then None
    else Some((Literal(t[0]), 1))
  }

  /** Read a body written in this subset, up to the closing `$`. */
  function ParseBody(t: string): Option<seq<Piece>> {
    if t == "$" then Some([])
    else
      match HeadPiece(t)
      case None => None
      case Some((p, n)) =>
        match ParseBody(t[n..])
        case None => None
        case Some(ps) => Some([p] + ps)
  }

  function ParseRegex(t: string): Option<seq<Piece>> {
    if t != "" && t[0] == '^' then ParseBody(t[1..]) else None
  }

  lemma StartsWithConcat(a: string, rest: string)
    ensures StartsWith(a + rest, a) && (a + rest)[|a|..] == rest
  {
  }

  lemma HeadLiteral(c: char, rest: string)
    ensures HeadPiece(Escape(c) + rest) == Some((Literal(c), |Escape(c)|))
  {
    var t := Escape(c) + rest;
    if c in SPECIAL {
      assert t[0] == '\\' && t[1] == c;
    } else {
      assert t[0] == c;
      assert '[' == SPECIAL[2] && '(' == SPECIAL[0] && '.' == SPECIAL[14] && '\\' == SPECIAL[13];
    }
  }

  lemma HeadAny(rest: string)
    requires rest != "" && rest[0] != '*'
    ensures HeadPiece("[^/]" + rest) == Some((SegmentAny, 4))
  {
    var t := "[^/]" + rest;
    StartsWithConcat("[^/]", rest);
    assert t[4] == rest[0];
    assert |t| >= 5 ==> t[..5][4] == t[4];
  }

  lemma HeadOf(p: Piece, rest: string)
    requires rest != "" && rest[0] != '*'
    ensures HeadPiece(PieceText(p) + rest) == Some((p, |PieceText(p)|))
    ensures (PieceText(p) + rest)[|PieceText(p)|..] == rest
  {
    StartsWithConcat(PieceText(p), rest);
    match p
    case SegmentAny => HeadAny(rest);
    case Literal(c) => HeadLiteral(c, rest);
    case SegmentStar =>
    case DeepInner =>
    case DeepTail =>
  }

  lemma PieceTextStart(ps: seq<Piece>)
    ensures PiecesText(ps) + "$" != "" && (PiecesText(ps) + "$")[0] != '*'
  {
    if ps != [] {
      assert (PiecesText(ps) + "$")[0] == PieceText(ps[0])[0];
      assert '*' in SPECIAL;
    }
  }

  /** The emitted text is read back as exactly the pieces it was made from:
      no literal is ever taken for an operator, nor a piece for its neighbour. */
  lemma ParseText(ps: seq<Piece>)
    ensures ParseRegex(RegexText(ps)) == Some(ps)
  {
    assert RegexText(ps)[1..] == PiecesText(ps) + "$";
    ParseBodyText(ps);
  }

  lemma ParseBodyCons(p: Piece, rest: string)
    requires rest != "" && rest[0] != '*'
    ensures ParseBody(PieceText(p) + rest) ==
      (match ParseBody(rest) case None => None case Some(ps) => Some([p] + ps))
  {
    HeadOf(p, rest);
    PieceTextNotEnd(p);
  }

  lemma PieceTextNotEnd(p: Piece)
    ensures PieceText(p) != "" && PieceText(p)[0] != '$'
  {
  }

  lemma {:induction false} ParseBodyText(ps: seq<Piece>)
    ensures ParseBody(PiecesText(ps) + "$") == Some(ps)
  {
    if ps == [] {
      assert PiecesText(ps) + "$" == "$";
    } else {
      hide ParseBody, PieceText;
      var rest := PiecesText(ps[1..]) + "$";
      assert PiecesText(ps) + "$" == PieceText(ps[0]) + rest;
      PieceTextStart(ps[1..]);
      ParseBodyCons(ps[0], rest);
      ParseBodyText(ps[1..]);
      assert ps == [ps[0]] + ps[1..];
    }
  }

  // ----------------------------------------------------------------- semantics

  datatype Expr =
    | Empty
    | Char(c: char)
    | NotSlash
    | NotNewline
    | Cat(left: Expr, right: Expr)
    | Star(body: Expr)

  /** `s` belongs to the language of `e`. */
  predicate In(s: string, e: Expr)
    decreases e, |s|
  {
    match e
    case Empty => s == ""
    case Char(c) => s == [c]
    case NotSlash => |s| == 1 && s[0] != '/'
    case NotNewline => |s| == 1 && s[0] != '\n'
    case Cat(a, b) => exists k | 0 <= k <= |s| :: In(s[..k], a) && In(s[k..], b)
    case Star(a) => s == "" || exists k | 0 < k <= |s| :: In(s[..k], a) && In(s[k..], e)
  }

  function PieceExpr(p: Piece): Expr {
    match p
    case SegmentStar => Star(NotSlash)
    case SegmentAny => NotSlash
    case Literal(c) => Char(c)
    case DeepInner => Star(Cat(NAME, Char('/')))
    case DeepTail => Star(NotNewline)
  }

  function PiecesExpr(ps: seq<Piece>): Expr {
    if ps == [] then Empty else Cat(PieceExpr(ps[0]), PiecesExpr(ps[1..]))
  }

  /** `re.compile(text).match(s)`: anchored at the start by `^`; without the
      multiline flag `$` holds at the end and before one final newline. */
  predicate Matches(text: string, s: string) {
    match ParseRegex(text)
    case None => false
    case Some(ps) =>
      || In(s, PiecesExpr(ps))
      || (s != "" && s[|s| - 1] == '\n' && In(s[..|s| - 1], PiecesExpr(ps)))
  }

  // ------------------------------------------------- languages of the pieces

  lemma CatIntro(s: string, k: nat, a: Expr, b: Expr)
    requires k <= |s| && In(s[..k], a) && In(s[k..], b)
    ensures In(s, Cat(a, b))
  {
  }

  lemma CatElim(s: string, a: Expr, b: Expr) returns (k: nat)
    requires In(s, Cat(a, b))
    ensures k <= |s| && In(s[..k], a) && In(s[k..], b)
  {
    k :| 0 <= k <= |s| && In(s[..k], a) && In(s[k..], b);
  }

  lemma StarIntro(s: string, k: nat, a: Expr)
    requires 0 < k <= |s| && In(s[..k], a) && In(s[k..], Star(a))
    ensures In(s, Star(a))
  {
  }

  lemma StarElim(s: string, a: Expr) returns (k: nat)
    requires In(s, Star(a)) && s != ""
    ensures 0 < k <= |s| && In(s[..k], a) && In(s[k..], Star(a))
  {
    k :| 0 < k <= |s| && In(s[..k], a) && In(s[k..], Star(a));
  }

  lemma SplitMember(s: string, k: nat, c: char)
    requires k <= |s|
    ensures c in s <==> c in s[..k] || c in s[k..]
  {
    assert s == s[..k] + s[k..];
  }

  lemma SlashFreeOne(s: string)
    ensures In(s, NotSlash) <==> |s| == 1 && '/' !in s
  {
  }

  lemma NewlineFreeOne(s: string)
    ensures In(s, NotNewline) <==> |s| == 1 && '\n' !in s
  {
  }

  lemma StarEmpty(a: Expr)
    ensures In("", Star(a))
  {
  }

  lemma {:induction false} SlashFreeStar(s: string)
    ensures In(s, Star(NotSlash)) <==> '/' !in s
    decreases |s|
  {
    hide In;
    if s == "" {
      StarEmpty(NotSlash);
    } else {
      if '/' !in s {
        SplitMember(s, 1, '/');
        SlashFreeOne(s[..1]);
        SlashFreeStar(s[1..]);
        StarIntro(s, 1, NotSlash);
      }
      if In(s, Star(NotSlash)) {
        var k := StarElim(s, NotSlash);
        SlashFreeOne(s[..k]);
        SlashFreeStar(s[k..]);
        SplitMember(s, k, '/');
      }
    }
  }

  lemma {:induction false} NewlineFreeStar(s: string)
    ensures In(s, Star(NotNewline)) <==> '\n' !in s
    decreases |s|
  {
    hide In;
    if s == "" {
      StarEmpty(NotNewline);
    } else {
      if '\n' !in s {
        SplitMember(s, 1, '\n');
        NewlineFreeOne(s[..1]);
        NewlineFreeStar(s[1..]);
        StarIntro(s, 1, NotNewline);
      }
      if In(s, Star(NotNewline)) {
        var k := StarElim(s, NotNewline);
        NewlineFreeOne(s[..k]);
        NewlineFreeStar(s[k..]);
        SplitMember(s, k, '\n');
      }
    }
  }

  const NAME: Expr := Cat(NotSlash, Star(NotSlash))

  /** `[^/]+`: a non-empty slash-free name. */
  lemma NameExpr(s: string)
    ensures In(s, NAME) <==> s != "" && '/' !in s
  {
    hide In;
    if s != "" && '/' !in s {
      SplitMember(s, 1, '/');
      SlashFreeOne(s[..1]);
      SlashFreeStar(s[1..]);
      CatIntro(s, 1, NotSlash, Star(NotSlash));
    }
    if In(s, NAME) {
      var k := CatElim(s, NotSlash, Star(NotSlash));
      SlashFreeOne(s[..k]);
      SlashFreeStar(s[k..]);
      SplitMember(s, k, '/');
    }
  }

  lemma CharExpr(s: string, c: char)
    ensures In(s, Char(c)) <==> |s| == 1 && s[0] == c
  {
  }

  /** One round of `[^/]+/`: a non-empty slash-free name and its slash. */
  lemma NameAndSlash(s: string)
    ensures In(s, Cat(NAME, Char('/'))) <==>
      |s| >= 2 && s[|s| - 1] == '/' && '/' !in s[..|s| - 1]
  {
    hide In;
    if |s| >= 2 && s[|s| - 1] == '/' && '/' !in s[..|s| - 1] {
      NameExpr(s[..|s| - 1]);
      CharExpr(s[|s| - 1..], '/');
      CatIntro(s, |s| - 1, NAME, Char('/'));
    }
    if In(s, Cat(NAME, Char('/'))) {
      var k := CatElim(s, NAME, Char('/'));
      NameExpr(s[..k]);
      CharExpr(s[k..], '/');
    }
  }
}
