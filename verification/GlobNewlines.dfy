/** When compiled glob patterns and the segment-by-segment matcher agree on all
    paths, those with newlines included. */
module GlobNewlines {
  import opened Text
  import opened Regex
  import opened Glob

  // --------------------------------------------------- segments that absorb a newline

  /** What stands behind the last star, or the whole segment if it has none. */
  function Tail(g: string): string
    decreases |g|
  {
    if '*' !in g then g else Tail(g[IndexOf(g, '*') + 1..])
  }

  /** Only question marks, then only newlines. */
  predicate Trailing(w: string) {
    forall m :: 0 <= m < |w| && w[m] != '?' ==> w[m] == '\n' && (m + 1 < |w| ==> w[m + 1] == '\n')
  }

  /** For a newline-free segment: it has a star, and only question marks behind
      the last one. */
  predicate Absorbs(g: string) {
    '*' in g && Trailing(Tail(g))
  }

  lemma TailStep(g: string)
    requires '*' in g
    ensures g[0] != '*' ==> '*' in g[1..]
    ensures '*' in g[1..] ==> Tail(g) == Tail(g[1..])
    ensures '*' !in g[1..] ==> Tail(g) == g[1..]
  {
    var i := IndexOf(g, '*');
    if i > 0 {
      assert g[1..][i - 1] == '*';
      assert g[1..][i..] == g[i + 1..];
    }
  }

  lemma {:induction false} TailHasNoStar(g: string)
    ensures '*' !in Tail(g)
    decreases |g|
  {
    if '*' in g {
      TailHasNoStar(g[IndexOf(g, '*') + 1..]);
    }
  }

  /** Without a star a segment fixes the length and the plain characters. */
  lemma {:induction false} FixedMatches(w: string, v: string)
    requires '*' !in w
    ensures SegmentMatches(w, v) <==> |v| == |w| && forall m :: 0 <= m < |w| ==> w[m] == '?' || w[m] == v[m]
  {
    if w == "" || v == "" {
    } else {
      FixedMatches(w[1..], v[1..]);
      assert forall m :: 0 < m < |w| ==> w[m] == w[1..][m - 1];
      if |v| == |w| {
        assert forall m :: 0 < m < |w| ==> v[m] == v[1..][m - 1];
        assert forall m :: 0 <= m < |w| - 1 ==> w[1..][m] == w[m + 1] && v[1..][m] == v[m + 1];
      }
    }
  }

  lemma FixedShift(w: string, v: string)
    requires '*' !in w && Trailing(w) && SegmentMatches(w, v)
    ensures SegmentMatches(w, (v + "\n")[1..])
  {
    hide SegmentMatches;
    FixedMatches(w, v);
    FixedMatches(w, (v + "\n")[1..]);
  }

  lemma StarTakes(g: string, t: string, k: nat)
    requires g != "" && g[0] == '*' && k <= |t| && SegmentMatches(g[1..], t[k..])
    ensures SegmentMatches(g, t)
  {
  }

  lemma StarTook(g: string, t: string) returns (k: nat)
    requires g != "" && g[0] == '*' && SegmentMatches(g, t)
    ensures k <= |t| && SegmentMatches(g[1..], t[k..])
  {
    k :| 0 <= k <= |t| && SegmentMatches(g[1..], t[k..]);
  }

  lemma OneTakes(g: string, t: string)
    requires g != "" && g[0] != '*'
    ensures SegmentMatches(g, t) <==> t != "" && (g[0] == '?' || g[0] == t[0]) && SegmentMatches(g[1..], t[1..])
  {
  }

  lemma {:induction false} AbsorbsNewline(g: string, t: string)
    requires Absorbs(g) && SegmentMatches(g, t)
    ensures SegmentMatches(g, t + "\n")
  {
    hide SegmentMatches, Tail;
    TailStep(g);
    if g[0] == '*' {
      var k := StarTook(g, t);
      if '*' in g[1..] {
        AbsorbsNewline(g[1..], t[k..]);
        assert (t + "\n")[k..] == t[k..] + "\n";
        StarTakes(g, t + "\n", k);
      } else {
        FixedShift(g[1..], t[k..]);
        assert (t + "\n")[k + 1..] == (t[k..] + "\n")[1..];
        StarTakes(g, t + "\n", k + 1);
      }
    } else {
      OneTakes(g, t);
      OneTakes(g, t + "\n");
      AbsorbsNewline(g[1..], t[1..]);
      assert (t + "\n")[1..] == t[1..] + "\n";
    }
  }

  lemma {:induction false} TailMatches(g: string, t: string)
    requires '*' in g && SegmentMatches(g, t)
    ensures |Tail(g)| <= |t| && SegmentMatches(Tail(g), t[|t| - |Tail(g)|..])
  {
    hide SegmentMatches, Tail;
    TailStep(g);
    TailHasNoStar(g);
    var n := |Tail(g)|;
    if g[0] == '*' {
      var k := StarTook(g, t);
      if '*' in g[1..] {
        TailMatches(g[1..], t[k..]);
        assert t[k..][|t| - k - n..] == t[|t| - n..];
      } else {
        FixedMatches(g[1..], t[k..]);
      }
    } else {
      OneTakes(g, t);
      TailMatches(g[1..], t[1..]);
      assert t[1..][|t| - 1 - n..] == t[|t| - n..];
    }
  }

  /** The text that a segment matches with empty stars and `f` for every `?`. */
  function Fill(g: string, f: char): string {
    if g == "" then ""
    else (if g[0] == '*' then "" else if g[0] == '?' then [f] else [g[0]]) + Fill(g[1..], f)
  }

  lemma {:induction false} FillMatches(g: string, f: char)
    requires '/' !in g && f != '/'
    ensures SegmentMatches(g, Fill(g, f)) && '/' !in Fill(g, f)
  {
    if g == "" {
    } else {
      FillMatches(g[1..], f);
      var t := Fill(g, f);
      if g[0] == '*' {
        assert t[0..] == t;
        StarTakes(g, t, 0);
      } else {
        assert t[1..] == Fill(g[1..], f);
      }
    }
  }

  lemma {:induction false} FillFixed(w: string, f: char)
    requires '*' !in w
    ensures |Fill(w, f)| == |w| && forall m :: 0 <= m < |w| ==> Fill(w, f)[m] == if w[m] == '?' then f else w[m]
  {
    if w == "" {
    } else {
      FillFixed(w[1..], f);
      assert forall m :: 0 < m < |w| ==> w[m] == w[1..][m - 1] && Fill(w, f)[m] == Fill(w[1..], f)[m - 1];
    }
  }

  lemma {:induction false} FillTail(g: string, f: char)
    requires '*' in g
    ensures var t, u := Fill(g, f), Fill(Tail(g), f);
      |u| <= |t| && t[|t| - |u|..] == u
    decreases |g|
  {
    hide Tail;
    TailStep(g);
    var t, u := Fill(g, f), Fill(Tail(g), f);
    var rest := Fill(g[1..], f);
    var head := if g[0] == '*' then "" else if g[0] == '?' then [f] else [g[0]];
    assert t == head + rest;
    if '*' in g[1..] {
      FillTail(g[1..], f);
      assert t[|t| - |u|..] == rest[|rest| - |u|..];
    }
  }

  lemma {:induction false} LastPlain(w: string) returns (m: nat)
    requires exists i :: 0 <= i < |w| && w[i] != '?' && w[i] != '\n'
    ensures m < |w| && w[m] != '?' && w[m] != '\n'
    ensures forall i :: m < i < |w| ==> w[i] == '?' || w[i] == '\n'
  {
    var last := |w| - 1;
    if w[last] != '?' && w[last] != '\n' {
      m := last;
    } else {
      var i :| 0 <= i < |w| && w[i] != '?' && w[i] != '\n';
      assert w[..last][i] == w[i];
      m := LastPlain(w[..last]);
      assert forall j :: 0 <= j < last ==> w[..last][j] == w[j];
    }
  }

  /** A tail of another form: some filling puts a wrong character where a plain
      one is due after the shift. */
  lemma BadPlace(w: string) returns (f: char, m: nat)
    requires '*' !in w && !Trailing(w)
    ensures f != '/' && m < |w| == |Fill(w, f)|
    ensures w[m] != '?' && (Fill(w, f) + "\n")[m + 1] != w[m]
  {
    FillFixed(w, '\n');
    FillFixed(w, 'x');
    hide Fill;
    if exists i :: 0 <= i < |w| && w[i] != '?' && w[i] != '\n' {
      f := '\n';
      m := LastPlain(w);
    } else {
      f := 'x';
      m :| 0 <= m < |w| && w[m] != '?' && !(w[m] == '\n' && (m + 1 < |w| ==> w[m + 1] == '\n'));
    }
  }

  /** Any other segment matches some text that it no longer matches when a
      newline is appended. */
  lemma Refuses(g: string) returns (t: string)
    requires !Absorbs(g) && '/' !in g
    ensures '/' !in t && SegmentMatches(g, t) && !SegmentMatches(g, t + "\n")
  {
    hide SegmentMatches, Tail, Trailing, Fill;
    if '*' !in g {
      t := Fill(g, 'x');
      FillMatches(g, 'x');
      FixedMatches(g, t);
      FixedMatches(g, t + "\n");
    } else {
      var w := Tail(g);
      TailHasNoStar(g);
      var f, m := BadPlace(w);
      t := Fill(g, f);
      FillMatches(g, f);
      FillTail(g, f);
      var u := Fill(w, f);
      ShiftFails(w, u, m);
      assert (t + "\n")[|t + "\n"| - |w|..] == (u + "\n")[1..];
      if SegmentMatches(g, t + "\n") {
        TailMatches(g, t + "\n");
      }
    }
  }

  lemma ShiftFails(w: string, u: string, m: nat)
    requires '*' !in w && |u| == |w| && m < |w|
    requires w[m] != '?' && (u + "\n")[m + 1] != w[m]
    ensures !SegmentMatches(w, (u + "\n")[1..])
  {
    hide SegmentMatches;
    FixedMatches(w, (u + "\n")[1..]);
    assert (u + "\n")[1..][m] == (u + "\n")[m + 1];
  }

  // ------------------------------------------------------- patterns and their last part

  function Last(parts: seq<string>): string
    requires parts != []
  {
    parts[|parts| - 1]
  }

  function WithLast(parts: seq<string>, t: string): seq<string>
    requires parts != []
  {
    parts[..|parts| - 1] + [t]
  }

  lemma {:induction false} LastPart(segs: seq<string>, parts: seq<string>, oneLine: bool)
    requires segs != [] && parts != [] && PathMatches(segs, parts, oneLine)
    ensures Last(segs) != "**" ==> SegmentMatches(Last(segs), Last(parts))
    ensures Last(segs) == "**" && oneLine ==> '\n' !in Last(parts)
    decreases |segs| + |parts|
  {
    hide SegmentMatches;
    if segs[0] == "**" {
      if |segs| > 1 {
        if PathMatches(segs[1..], parts, oneLine) {
          LastPart(segs[1..], parts, oneLine);
        } else {
          LastPart(segs, parts[1..], oneLine);
        }
      }
    } else if |segs| > 1 {
      LastPart(segs[1..], parts[1..], oneLine);
    }
  }

  lemma {:induction false} ReplaceLast(segs: seq<string>, parts: seq<string>, t: string, oneLine: bool)
    requires segs != [] && parts != [] && PathMatches(segs, parts, oneLine)
    requires Last(segs) != "**" && SegmentMatches(Last(segs), t)
    ensures PathMatches(segs, WithLast(parts, t), oneLine)
    decreases |segs| + |parts|
  {
    hide SegmentMatches;
    var parts' := WithLast(parts, t);
    assert |parts| > 1 ==> parts'[0] == parts[0] && parts'[1..] == WithLast(parts[1..], t);
    if segs[0] == "**" {
      if PathMatches(segs[1..], parts, oneLine) {
        ReplaceLast(segs[1..], parts, t, oneLine);
      } else {
        ReplaceLast(segs, parts[1..], t, oneLine);
      }
    } else if |segs| > 1 {
      ReplaceLast(segs[1..], parts[1..], t, oneLine);
    }
  }

  lemma {:induction false} OneLineIrrelevant(segs: seq<string>, parts: seq<string>)
    requires segs != [] && parts != [] && Last(segs) != "**"
    ensures PathMatches(segs, parts, true) <==> PathMatches(segs, parts, false)
    decreases |segs| + |parts|
  {
    hide SegmentMatches;
    if |segs| > 1 {
      OneLineIrrelevant(segs[1..], parts);
      if |parts| > 1 {
        OneLineIrrelevant(segs[1..], parts[1..]);
      }
    }
    if |parts| > 1 {
      OneLineIrrelevant(segs, parts[1..]);
    }
  }

  /** Parts for all segments but the last; an inner `**` takes none. */
  function Lead(segs: seq<string>): seq<string> {
    if |segs| <= 1 then []
    else (if segs[0] == "**" then [] else [Fill(segs[0], 'x')]) + Lead(segs[1..])
  }

  lemma OneSegmentPath(g: string, t: string)
    requires g == "**" || SegmentMatches(g, t)
    ensures PathMatches([g], [t], false)
  {
  }

  lemma StarsTakeNone(segs: seq<string>, parts: seq<string>)
    requires |segs| > 1 && parts != [] && segs[0] == "**" && PathMatches(segs[1..], parts, false)
    ensures PathMatches(segs, parts, false)
  {
  }

  lemma SegmentTakesOne(segs: seq<string>, part: string, parts: seq<string>)
    requires |segs| > 1 && parts != [] && segs[0] != "**"
    requires SegmentMatches(segs[0], part) && PathMatches(segs[1..], parts, false)
    ensures PathMatches(segs, [part] + parts, false)
  {
    hide SegmentMatches;
    assert ([part] + parts)[1..] == parts;
  }

  lemma {:induction false} LeadMatches(segs: seq<string>, t: string)
    requires segs != [] && (Last(segs) == "**" || SegmentMatches(Last(segs), t))
    requires forall seg :: seg in segs ==> '/' !in seg
    ensures PathMatches(segs, Lead(segs) + [t], false)
    ensures forall part :: part in Lead(segs) ==> '/' !in part
  {
    hide SegmentMatches, PathMatches, Fill;
    assert segs[0] in segs;
    if |segs| == 1 {
      assert segs == [segs[0]] && Lead(segs) + [t] == [t];
      OneSegmentPath(segs[0], t);
    } else {
      LeadMatches(segs[1..], t);
      var rest := Lead(segs[1..]) + [t];
      if segs[0] == "**" {
        assert Lead(segs) + [t] == rest;
        StarsTakeNone(segs, rest);
      } else {
        var part := Fill(segs[0], 'x');
        FillMatches(segs[0], 'x');
        assert Lead(segs) + [t] == [part] + rest;
        SegmentTakesOne(segs, part, rest);
      }
    }
  }

  /** The parts with a slash behind each. */
  function Slashed(parts: seq<string>): string {
    if parts == [] then "" else parts[0] + "/" + Slashed(parts[1..])
  }

  lemma SplitSingle(t: string)
    requires '/' !in t
    ensures Split(t) == [t]
  {
    assert IndexOf(t, '/') == |t|;
  }

  lemma {:induction false} SplitSlashed(parts: seq<string>, t: string)
    requires '/' !in t && forall part :: part in parts ==> '/' !in part
    ensures Split(Slashed(parts) + t) == parts + [t]
  {
    hide Split;
    if parts == [] {
      assert Slashed(parts) + t == t;
      SplitSingle(t);
    } else {
      SplitSlashed(parts[1..], t);
      assert parts[0] in parts;
      SplitCons(parts[0], Slashed(parts[1..]) + t);
      assert Slashed(parts) + t == parts[0] + "/" + (Slashed(parts[1..]) + t);
    }
  }

  lemma {:induction false} SplitNewlineAdded(s: string)
    ensures Split(s + "\n") == WithLast(Split(s), Last(Split(s)) + "\n")
    decreases |s|
  {
    hide Split, IndexOf;
    var k := IndexOf(s, '/');
    if k == |s| {
      SplitSingle(s);
      SplitSingle(s + "\n");
    } else {
      var head, tail := s[..k], s[k + 1..];
      assert s == head + "/" + tail;
      assert s + "\n" == head + "/" + (tail + "\n");
      SplitCons(head, tail);
      SplitCons(head, tail + "\n");
      SplitNewlineAdded(tail);
    }
  }

  // ------------------------------------------------------------------- the theorem

  ghost predicate AgreeOn(pattern: string, path: string) {
    Matches(RegexText(BodyPieces(Split(pattern))), path) <==> PathMatches(Split(pattern), Split(path), false)
  }

  /** The last segment is no `**` and absorbs a newline. */
  predicate LastAbsorbs(segs: seq<string>)
    requires segs != []
  {
    Last(segs) != "**" && Absorbs(Last(segs))
  }

  lemma AbsorbingAgrees(pattern: string, path: string)
    requires LastAbsorbs(Split(pattern))
    ensures AgreeOn(pattern, path)
  {
    hide Matches, SegmentMatches, PathMatches, Absorbs, Split, BodyPieces;
    var segs := Split(pattern);
    CompiledPattern(pattern, path);
    OneLineIrrelevant(segs, Split(path));
    if path != "" && path[|path| - 1] == '\n' {
      var p := path[..|path| - 1];
      assert path == p + "\n";
      OneLineIrrelevant(segs, Split(p));
      if PathMatches(segs, Split(p), false) {
        LastPart(segs, Split(p), false);
        AbsorbsNewline(Last(segs), Last(Split(p)));
        ReplaceLast(segs, Split(p), Last(Split(p)) + "\n", false);
        SplitNewlineAdded(p);
      }
    }
  }

  lemma OtherDisagrees(pattern: string) returns (path: string)
    requires !LastAbsorbs(Split(pattern))
    ensures !AgreeOn(pattern, path)
  {
    hide Matches, SegmentMatches, PathMatches, Absorbs, Split, BodyPieces, Lead, Slashed;
    var segs := Split(pattern);
    SplitSlashFree(pattern);
    var lead := Slashed(Lead(segs));
    if Last(segs) == "**" {
      path := lead + "\nb";
      LeadMatches(segs, "\nb");
      SplitSlashed(Lead(segs), "\nb");
      CompiledPattern(pattern, path);
      assert "\nb"[0] == '\n';
      if PathMatches(segs, Split(path), true) {
        LastPart(segs, Split(path), true);
      }
    } else {
      assert Last(segs) in segs;
      var t := Refuses(Last(segs));
      path := lead + (t + "\n");
      LeadMatches(segs, t);
      SplitSlashed(Lead(segs), t);
      SplitSlashed(Lead(segs), t + "\n");
      CompiledPattern(pattern, path);
      assert path[..|path| - 1] == lead + t;
      OneLineIrrelevant(segs, Split(lead + t));
      if PathMatches(segs, Split(path), false) {
        LastPart(segs, Split(path), false);
      }
    }
  }

  /** The compiled pattern and the reference matcher agree on every path exactly
      when the last segment is not `**`, has a star, and behind its last star
      only question marks (and then newlines, should the pattern contain any). */
  lemma AgreesExactlyWhen(pattern: string)
    ensures (forall path :: AgreeOn(pattern, path)) <==> LastAbsorbs(Split(pattern))
  {
    hide AgreeOn, Split, Absorbs;
    if LastAbsorbs(Split(pattern)) {
      forall path ensures AgreeOn(pattern, path) {
        AbsorbingAgrees(pattern, path);
      }
    } else {
      var path := OtherDisagrees(pattern);
    }
  }

  predicate OnlyMarks(w: string) {
    forall m :: 0 <= m < |w| ==> w[m] == '?'
  }

  /** For a newline-free segment the condition speaks of question marks only. */
  lemma NewlineFreeTail(g: string)
    requires '\n' !in g
    ensures Absorbs(g) <==> '*' in g && OnlyMarks(Tail(g))
  {
    TailPart(g);
    TrailingMarks(Tail(g));
  }

  lemma TrailingMarks(w: string)
    requires '\n' !in w
    ensures Trailing(w) <==> OnlyMarks(w)
  {
    forall m | 0 <= m < |w| ensures w[m] != '\n' {
      assert w[m] in w;
    }
  }

  lemma {:induction false} TailPart(g: string)
    ensures forall c :: c in Tail(g) ==> c in g
    decreases |g|
  {
    if '*' in g {
      TailPart(g[IndexOf(g, '*') + 1..]);
    }
  }
}
