/** Strings as sequences of Unicode scalar values, with the few library
    operations the modelled code calls: trimming, line splitting, joining,
    ASCII lower-casing, replacement, comparison and id formatting. */
module Text {
  import Ordering

  // ---------------------------------------------------------------- whitespace

  /** The Unicode White_Space property, as `char::is_whitespace` tests it. */
  predicate IsWhitespace(c: char) {
    || '\U{0009}' <= c <= '\U{000D}'
    || c == ' '
    || c == '\U{0085}'
    || c == '\U{00A0}'
    || c == '\U{1680}'
    || '\U{2000}' <= c <= '\U{200A}'
    || c == '\U{2028}'
    || c == '\U{2029}'
    || c == '\U{202F}'
    || c == '\U{205F}'
    || c == '\U{3000}'
  }

  /** By code point. */
  lemma WhitespacePoints(c: char)
    ensures IsWhitespace(c) <==> c as int in {
      9, 10, 11, 12, 13, 32, 133, 160, 5760, 8192, 8193, 8194, 8195, 8196, 8197, 8198, 8199, 8200, 8201, 8202,
      8232, 8233, 8239, 8287, 12288}
  {
  }

  predicate IsBlank(s: string) {
    forall i :: 0 <= i < |s| ==> IsWhitespace(s[i])
  }

  predicate IsTrimmed(s: string) {
    s != "" ==> !IsWhitespace(s[0]) && !IsWhitespace(s[|s| - 1])
  }

  function TrimStart(s: string): string {
    if s != "" && IsWhitespace(s[0]) then TrimStart(s[1..]) else s
  }

  function TrimEnd(s: string): string {
    if s != "" && IsWhitespace(s[|s| - 1]) then TrimEnd(s[..|s| - 1]) else s
  }

  function Trim(s: string): string {
    TrimEnd(TrimStart(s))
  }

  lemma {:induction false} TrimStartOf(pad: string, core: string)
    requires IsBlank(pad)
    requires core != "" ==> !IsWhitespace(core[0])
    ensures TrimStart(pad + core) == core
  {
    if pad == "" {
      assert pad + core == core;
    } else {
      assert (pad + core)[1..] == pad[1..] + core;
      TrimStartOf(pad[1..], core);
    }
  }

  lemma {:induction false} TrimEndOf(core: string, pad: string)
    requires IsBlank(pad)
    requires core != "" ==> !IsWhitespace(core[|core| - 1])
    ensures TrimEnd(core + pad) == core
  {
    if pad == "" {
      assert core + pad == core;
    } else {
      assert (core + pad)[..|core + pad| - 1] == core + pad[..|pad| - 1];
      TrimEndOf(core, pad[..|pad| - 1]);
    }
  }

  lemma {:induction false} TrimStartParts(s: string) returns (pad: string)
    ensures IsBlank(pad) && s == pad + TrimStart(s)
    ensures TrimStart(s) != "" ==> !IsWhitespace(TrimStart(s)[0])
  {
    if s != "" && IsWhitespace(s[0]) {
      var rest := TrimStartParts(s[1..]);
      pad := [s[0]] + rest;
    } else {
      pad := "";
    }
  }

  lemma {:induction false} TrimEndParts(s: string) returns (pad: string)
    ensures IsBlank(pad) && s == TrimEnd(s) + pad
    ensures TrimEnd(s) != "" ==> !IsWhitespace(TrimEnd(s)[|TrimEnd(s)| - 1])
  {
    if s != "" && IsWhitespace(s[|s| - 1]) {
      var rest := TrimEndParts(s[..|s| - 1]);
      pad := rest + [s[|s| - 1]];
    } else {
      pad := "";
    }
  }

  /** Whatever the padding, trimming gives back the trimmed middle. */
  lemma TrimOf(left: string, core: string, right: string)
    requires IsBlank(left) && IsBlank(right) && IsTrimmed(core)
    ensures Trim(left + core + right) == core
  {
    if core == "" {
      var pad := left + right;
      assert left + core + right == pad + "";
      TrimStartOf(pad, "");
      assert "" + "" == "";
      TrimEndOf("", "");
    } else {
      assert left + core + right == left + (core + right);
      TrimStartOf(left, core + right);
      TrimEndOf(core, right);
    }
  }

  /** Every string is its trimmed self between two blank pads. */
  lemma TrimParts(s: string) returns (left: string, right: string)
    ensures IsBlank(left) && IsBlank(right) && IsTrimmed(Trim(s))
    ensures s == left + Trim(s) + right
  {
    hide TrimStart, TrimEnd;
    left := TrimStartParts(s);
    right := TrimEndParts(TrimStart(s));
    var mid := TrimStart(s);
    if Trim(s) != "" {
      assert mid == Trim(s) + right;
      assert mid[0] == Trim(s)[0];
    }
  }

  lemma TrimIdempotent(s: string)
    ensures IsTrimmed(Trim(s)) && Trim(Trim(s)) == Trim(s)
  {
    var l, r := TrimParts(s);
    TrimOf("", Trim(s), "");
    assert "" + Trim(s) + "" == Trim(s);
  }

  lemma TrimBlank(s: string)
    ensures IsBlank(s) <==> Trim(s) == ""
  {
    var l, r := TrimParts(s);
    assert Trim(s) != "" ==> s[|l|] == Trim(s)[0];
    assert Trim(s) == "" ==> s == l + r;
  }

  // ------------------------------------------------------- visible characters

  /** The non-whitespace characters of `s`, in order. */
  function Visible(s: string): string {
    if s == "" then ""
    else if IsWhitespace(s[0]) then Visible(s[1..])
    else [s[0]] + Visible(s[1..])
  }

  lemma {:induction false} VisibleConcat(a: string, b: string)
    ensures Visible(a + b) == Visible(a) + Visible(b)
  {
    if a == "" {
      assert a + b == b;
    } else {
      assert (a + b)[1..] == a[1..] + b;
      VisibleConcat(a[1..], b);
    }
  }

  lemma {:induction false} VisibleBlank(s: string)
    requires IsBlank(s)
    ensures Visible(s) == ""
  {
    if s == "" {
    } else {
      VisibleBlank(s[1..]);
    }
  }

  lemma VisibleTrim(s: string)
    ensures Visible(Trim(s)) == Visible(s)
    ensures Visible(TrimEnd(s)) == Visible(s)
  {
    var l, r := TrimParts(s);
    VisibleConcat(l + Trim(s), r);
    VisibleConcat(l, Trim(s));
    VisibleBlank(l);
    VisibleBlank(r);
    var r' := TrimEndParts(s);
    VisibleConcat(TrimEnd(s), r');
    VisibleBlank(r');
  }

  // ----------------------------------------------------------- joining strings

  function Concat(parts: seq<string>): string {
    if parts == [] then "" else parts[0] + Concat(parts[1..])
  }

  function Join(parts: seq<string>, sep: string): string {
    if parts == [] then ""
    else if |parts| == 1 then parts[0]
    else parts[0] + sep + Join(parts[1..], sep)
  }

  lemma {:induction false} ConcatAppend(a: seq<string>, b: seq<string>)
    ensures Concat(a + b) == Concat(a) + Concat(b)
  {
    if a == [] {
      assert a + b == b;
    } else {
      assert (a + b)[1..] == a[1..] + b;
      ConcatAppend(a[1..], b);
    }
  }

  lemma ConcatCons(s: string, rest: seq<string>)
    ensures Concat([s] + rest) == s + Concat(rest)
  {
    assert ([s] + rest)[1..] == rest;
  }

  lemma ConcatSnoc(a: seq<string>, s: string)
    ensures Concat(a + [s]) == Concat(a) + s
  {
    ConcatAppend(a, [s]);
    assert Concat([s]) == s;
  }

  lemma {:induction false} VisibleJoin(parts: seq<string>, sep: string)
    requires IsBlank(sep)
    ensures Visible(Join(parts, sep)) == Visible(Concat(parts))
  {
    if |parts| == 1 {
      assert Concat(parts) == parts[0] + "";
      assert parts[0] + "" == parts[0];
    } else if |parts| > 1 {
      VisibleJoin(parts[1..], sep);
      VisibleConcat(parts[0] + sep, Join(parts[1..], sep));
      VisibleConcat(parts[0], sep);
      VisibleBlank(sep);
      VisibleConcat(parts[0], Concat(parts[1..]));
    }
  }

  // ------------------------------------------------------------------- lines

  /** Position of the first `c` at or after the start, or `|s|` if none. */
  function IndexOf(s: string, c: char): (k: nat)
    ensures k <= |s|
    ensures forall i :: 0 <= i < k ==> s[i] != c
    ensures k < |s| ==> s[k] == c
  {
    if s == "" || s[0] == c then 0 else 1 + IndexOf(s[1..], c)
  }

  function DropCarriageReturn(s: string): string {
    if s != "" && s[|s| - 1] == '\r' then s[..|s| - 1] else s
  }

  lemma DroppedReturn(s: string)
    ensures DropCarriageReturn(s + "\r") == s
    ensures s == "" || s[|s| - 1] != '\r' ==> DropCarriageReturn(s) == s
  {
  }

  /** `str::lines`: split after every line feed, drop the terminator and one
      carriage return before it; a final unterminated line is kept as it is. */
  function Lines(s: string): seq<string> {
    if s == "" then []
    else
      var k := IndexOf(s, '\n');
      if k == |s| then [s]
      else [DropCarriageReturn(s[..k])] + Lines(s[k + 1..])
  }

  lemma LinesUnfold(s: string)
    requires s != ""
    ensures var k := IndexOf(s, '\n');
      Lines(s) == if k == |s| then [s] else [DropCarriageReturn(s[..k])] + Lines(s[k + 1..])
  {
    hide IndexOf;
  }

  lemma FirstPieceHasNoFeed(s: string, k: nat)
    requires k <= |s| && forall i :: 0 <= i < k ==> s[i] != '\n'
    ensures '\n' !in s[..k] && '\n' !in DropCarriageReturn(s[..k])
  {
  }

  ghost predicate NoFeeds(lines: seq<string>) {
    forall line :: line in lines ==> '\n' !in line
  }

  lemma {:induction false} LinesHaveNoFeed(s: string)
    ensures NoFeeds(Lines(s))
    decreases |s|
  {
    if s == "" {
    } else {
      var k := IndexOf(s, '\n');
      LinesUnfold(s);
      hide Lines, IndexOf, DropCarriageReturn;
      FirstPieceHasNoFeed(s, k);
      if k < |s| {
        LinesHaveNoFeed(s[k + 1..]);
      } else {
        assert s[..k] == s;
      }
    }
  }

  lemma VisibleLine(line: string)
    ensures Visible(DropCarriageReturn(line)) == Visible(line)
  {
    if line != "" && line[|line| - 1] == '\r' {
      var kept := line[..|line| - 1];
      assert line == kept + ['\r'];
      VisibleConcat(kept, ['\r']);
      VisibleBlank(['\r']);
    }
  }

  lemma VisibleTerminated(line: string, tail: string)
    ensures Visible(line + ['\n'] + tail) == Visible(line) + Visible(tail)
  {
    var feed := ['\n'];
    VisibleBlank(feed);
    hide *;
    VisibleConcat(line + feed, tail);
    VisibleConcat(line, feed);
    assert Visible(line) + "" == Visible(line);
  }

  lemma VisibleFirstLine(head: string, rest: seq<string>)
    ensures Visible(Concat([DropCarriageReturn(head)] + rest)) == Visible(head) + Visible(Concat(rest))
  {
    VisibleLine(head);
    ConcatCons(DropCarriageReturn(head), rest);
    VisibleConcat(DropCarriageReturn(head), Concat(rest));
  }

  lemma EmptyTexts()
    ensures Lines("") == [] && Concat([]) == "" && Visible("") == ""
  {
  }

  lemma ConcatSingle(s: string)
    ensures Concat([s]) == s
  {
    assert [s][1..] == [];
  }

  /** Splitting into lines loses nothing but line terminators. */
  lemma {:induction false} VisibleLines(s: string)
    ensures Visible(Concat(Lines(s))) == Visible(s)
    decreases |s|
  {
    hide Lines, IndexOf, Visible, Concat, DropCarriageReturn;
    if s == "" {
      EmptyTexts();
    } else {
      var k := IndexOf(s, '\n');
      LinesUnfold(s);
      if k == |s| {
        ConcatSingle(s);
      } else {
        var head, tail := s[..k], s[k + 1..];
        VisibleLines(tail);
        assert s == head + ['\n'] + tail;
        VisibleTerminated(head, tail);
        VisibleFirstLine(head, Lines(tail));
      }
    }
  }

  lemma TrimPadded(left: string, s: string, right: string)
    requires IsBlank(left) && IsBlank(right)
    ensures Trim(left + s + right) == Trim(s)
  {
    hide Trim;
    var l, r := TrimParts(s);
    assert left + s + right == (left + l) + Trim(s) + (r + right);
    TrimOf(left + l, Trim(s), r + right);
  }

  lemma TrimDropped(line: string)
    ensures Trim(DropCarriageReturn(line)) == Trim(line)
  {
    hide Trim;
    if line != "" && line[|line| - 1] == '\r' {
      var kept := line[..|line| - 1];
      TrimPadded("", kept, "\r");
      assert line == "" + kept + "\r";
    }
  }

  /** Appending one terminated line in front of a text. */
  lemma LinesCons(line: string, rest: string)
    requires '\n' !in line
    ensures Lines(line + ['\n'] + rest) == [DropCarriageReturn(line)] + Lines(rest)
  {
    var s := line + ['\n'] + rest;
    var k := IndexOf(s, '\n');
    assert s[|line|] == '\n';
    assert forall i :: 0 <= i < |line| ==> s[i] == line[i];
    assert k == |line|;
    assert s[..k] == line;
    assert s[k + 1..] == rest;
  }

  // ------------------------------------------------------------- ASCII case

  function AsciiLowerChar(c: char): char {
    if 'A' <= c <= 'Z' then (c as int + 32) as char else c
  }

  function AsciiLower(s: string): (r: string)
    ensures |r| == |s|
    ensures forall i :: 0 <= i < |s| ==> r[i] == AsciiLowerChar(s[i])
  {
    if s == "" then "" else [AsciiLowerChar(s[0])] + AsciiLower(s[1..])
  }

  /** By code point: the capital letters move, everything else stays. */
  lemma AsciiLowerMeaning(s: string, i: nat)
    requires i < |s|
    ensures AsciiLower(s)[i] as int == s[i] as int + (if 65 <= s[i] as int <= 90 then 32 else 0)
  {
  }

  predicate StartsWith(s: string, prefix: string) {
    |prefix| <= |s| && s[..|prefix|] == prefix
  }

  // ---------------------------------------------------------- string ordering

  /** Rust's order on strings: bytewise on UTF-8, which is the lexicographic
      order on scalar values. */
  predicate Leq(a: string, b: string) {
    a == "" || (b != "" && (a[0] < b[0] || (a[0] == b[0] && Leq(a[1..], b[1..]))))
  }

  /** The first difference decides, or else the end of a string. */
  lemma {:induction false} LeqMeaning(a: string, b: string, k: nat)
    requires k <= |a| && k <= |b| && a[..k] == b[..k]
    requires k < |a| && k < |b| ==> a[k] != b[k]
    ensures Leq(a, b) <==> k == |a| || (k < |b| && a[k] < b[k])
    decreases k
  {
    if k == 0 {
    } else {
      assert a[..k][0] == a[0] && b[..k][0] == b[0];
      assert a[1..][..k - 1] == a[..k][1..] && b[1..][..k - 1] == b[..k][1..];
      LeqMeaning(a[1..], b[1..], k - 1);
    }
  }

  lemma {:induction false} LeqTotal(a: string, b: string)
    ensures Leq(a, b) || Leq(b, a)
  {
    if a == "" || b == "" {
    } else {
      LeqTotal(a[1..], b[1..]);
    }
  }

  lemma {:induction false} LeqAntisymmetric(a: string, b: string)
    requires Leq(a, b) && Leq(b, a)
    ensures a == b
  {
    if a == "" || b == "" {
    } else {
      LeqAntisymmetric(a[1..], b[1..]);
      assert a == [a[0]] + a[1..] && b == [b[0]] + b[1..];
    }
  }

  lemma {:induction false} LeqTransitive(a: string, b: string, c: string)
    requires Leq(a, b) && Leq(b, c)
    ensures Leq(a, c)
  {
    if a != "" && a[0] == b[0] && b[0] == c[0] {
      LeqTransitive(a[1..], b[1..], c[1..]);
    }
  }

  lemma StringOrder()
    ensures Ordering.TotalPreorder(Leq) && Ordering.Antisymmetric(Leq)
  {
    forall a, b ensures Leq(a, b) || Leq(b, a) {
      LeqTotal(a, b);
    }
    forall a, b, c | Leq(a, b) && Leq(b, c) ensures Leq(a, c) {
      LeqTransitive(a, b, c);
    }
    forall a, b | Leq(a, b) && Leq(b, a) ensures a == b {
      LeqAntisymmetric(a, b);
    }
  }

  /** The elements of a set in order: how a `BTreeMap` lists its keys. */
  ghost function SortedKeys(s: set<string>): seq<string>
    decreases |s|
  {
    if s == {} then []
    else
      LeastExists(s);
      var k :| k in s && forall x :: x in s ==> Leq(k, x);
      [k] + SortedKeys(s - {k})
  }

  lemma {:induction false} LeastExists(s: set<string>)
    requires s != {}
    ensures exists k :: k in s && forall x :: x in s ==> Leq(k, x)
    decreases |s|
  {
    hide Leq;
    var a :| a in s;
    if s == {a} {
      LeqTotal(a, a);
    } else {
      LeastExists(s - {a});
      var b :| b in s - {a} && forall x :: x in s - {a} ==> Leq(b, x);
      LeqTotal(a, b);
      LeqTotal(a, a);
      if Leq(a, b) {
        forall x | x in s ensures Leq(a, x) {
          if x != a {
            LeqTransitive(a, b, x);
          }
        }
      }
    }
  }

  lemma SortedKeysUnfold(s: set<string>)
    requires s != {}
    ensures var keys := SortedKeys(s);
      keys != [] && keys[0] in s && keys[1..] == SortedKeys(s - {keys[0]}) && forall x :: x in s ==> Leq(keys[0], x)
  {
  }

  ghost predicate ListsInOrder(keys: seq<string>, s: set<string>) {
    && |keys| == |s|
    && (forall k :: k in keys <==> k in s)
    && Ordering.Sorted(keys, Leq) && Ordering.Distinct(keys)
  }

  lemma ListsCons(k: string, rest: seq<string>, s: set<string>)
    requires k in s && ListsInOrder(rest, s - {k})
    requires forall x :: x in s ==> Leq(k, x)
    ensures ListsInOrder([k] + rest, s)
  {
    hide Leq, Ordering.Sorted, Ordering.Distinct;
    Ordering.PrependSorted(k, rest, Leq);
  }

  lemma {:induction false} SortedKeysMeaning(s: set<string>)
    ensures ListsInOrder(SortedKeys(s), s)
    decreases |s|
  {
    if s == {} {
    } else {
      SortedKeysUnfold(s);
      hide SortedKeys, Leq, ListsInOrder;
      var keys := SortedKeys(s);
      SortedKeysMeaning(s - {keys[0]});
      ListsCons(keys[0], keys[1..], s);
      assert keys == [keys[0]] + keys[1..];
    }
  }

  /** Listing the keys of a map. */
  method KeysInOrder(s: set<string>) returns (keys: seq<string>)
    ensures keys == SortedKeys(s)
  {
    hide Leq, SortedKeys, Ordering.Distinct;
    var todo := s;
    keys := [];
    DistinctEmpty();
    while todo != {}
      invariant todo <= s && (forall k :: k in keys <==> k in s - todo) && Ordering.Distinct(keys)
      decreases |todo|
    {
      var k :| k in todo;
      DistinctSnoc(keys, k);
      keys, todo := keys + [k], todo - {k};
    }
    keys := SortedListing(keys, s);
  }

  lemma DistinctEmpty()
    ensures Ordering.Distinct<string>([])
  {
  }

  lemma DistinctSnoc(keys: seq<string>, k: string)
    requires Ordering.Distinct(keys) && k !in keys
    ensures Ordering.Distinct(keys + [k])
  {
  }

  method SortedListing(keys: seq<string>, ghost s: set<string>) returns (sorted: seq<string>)
    requires Ordering.Distinct(keys) && forall k :: k in keys <==> k in s
    ensures sorted == SortedKeys(s)
  {
    hide Leq;
    sorted := Ordering.Sort(keys, Leq);
    StringOrder();
    Ordering.SortSorted(keys, Leq);
    Ordering.SameDistinct(keys, sorted);
    SortedKeysMeaning(s);
    Ordering.StrictlySortedUnique(sorted, SortedKeys(s), Leq);
  }

  // --------------------------------------------------------------- identifiers

  const HEX_DIGITS: string := "0123456789abcdef"

  /** `{n:0<w>x}`: lower-case hexadecimal, zero-padded to at least `w` digits. */
  function Hex(n: nat, w: nat): (s: string)
    ensures s != ""
    ensures forall c :: c in s ==> c in HEX_DIGITS
    decreases n + w
  {
    if n < 16 && w <= 1 then [HEX_DIGITS[n]]
    else Hex(n / 16, if w > 0 then w - 1 else 0) + [HEX_DIGITS[n % 16]]
  }

  function DigitValue(c: char): nat {
    if '0' <= c <= '9' then c as nat - 48 else if 'a' <= c <= 'f' then c as nat - 87 else 0
  }

  function HexValue(s: string): nat {
    if s == "" then 0 else 16 * HexValue(s[..|s| - 1]) + DigitValue(s[|s| - 1])
  }

  /** The digits are those of the number, at least `w` of them, and no more than
      it takes. */
  lemma {:induction false} HexMeaning(n: nat, w: nat)
    ensures HexValue(Hex(n, w)) == n
    ensures |Hex(n, w)| >= w
    ensures |Hex(n, w)| > w && |Hex(n, w)| > 1 ==> Hex(n, w)[0] != '0'
    decreases n + w
  {
    if n < 16 && w <= 1 {
      DigitOf(n);
      assert Hex(n, w)[..0] == "";
    } else {
      var w' := if w > 0 then w - 1 else 0;
      HexMeaning(n / 16, w');
      if w <= 1 {
        FirstDigit(n / 16, w');
      }
      DigitOf(n % 16);
      HexSnoc(n, w, w');
    }
  }

  lemma HexSnoc(n: nat, w: nat, w': nat)
    requires !(n < 16 && w <= 1) && w' == (if w > 0 then w - 1 else 0)
    ensures var s := Hex(n, w);
      s != "" && s[..|s| - 1] == Hex(n / 16, w') && s[|s| - 1] == HEX_DIGITS[n % 16] && s[0] == Hex(n / 16, w')[0]
  {
  }

  lemma DigitOf(d: nat)
    requires d < 16
    ensures DigitValue(HEX_DIGITS[d]) == d && (HEX_DIGITS[d] == '0' <==> d == 0)
  {
  }

  /** A single digit is a zero only of the number zero. */
  lemma FirstDigit(n: nat, w: nat)
    requires w <= 1
    ensures |Hex(n, w)| == 1 && Hex(n, w)[0] == '0' ==> n == 0
  {
    HexLength(n, w);
    if n < 16 {
      DigitOf(n);
    }
  }

  lemma HexLength(n: nat, w: nat)
    ensures |Hex(n, w)| == 1 <==> n < 16 && w <= 1
  {
  }

  lemma {:induction false} HexInjective(n: nat, m: nat, w: nat)
    requires Hex(n, w) == Hex(m, w)
    ensures n == m
    decreases n + w
  {
    HexLength(n, w);
    HexLength(m, w);
    if n < 16 && w <= 1 {
      HexDigitInjective(n, m);
    } else {
      var w' := if w > 0 then w - 1 else 0;
      HexLast(Hex(n / 16, w'), n % 16, Hex(m / 16, w'), m % 16);
      HexInjective(n / 16, m / 16, w');
    }
  }

  lemma HexDigitInjective(i: nat, j: nat)
    requires i < 16 && j < 16 && HEX_DIGITS[i] == HEX_DIGITS[j]
    ensures i == j
  {
  }

  lemma HexLast(a: string, i: nat, b: string, j: nat)
    requires i < 16 && j < 16
    requires a + [HEX_DIGITS[i]] == b + [HEX_DIGITS[j]]
    ensures a == b && i == j
  {
    var s, t := a + [HEX_DIGITS[i]], b + [HEX_DIGITS[j]];
    assert s[..|s| - 1] == a && t[..|t| - 1] == b;
    assert s[|s| - 1] == HEX_DIGITS[i] && t[|t| - 1] == HEX_DIGITS[j];
    HexDigitInjective(i, j);
  }

  /** Issued identifiers: a prefix, a counter value and a random component. */
  function IssuedId(prefix: string, sequence: nat, random: nat): string {
    prefix + Hex(sequence, 16) + "-" + Hex(random, 16)
  }

  lemma DashSplit(a: string, x: string, b: string, y: string)
    requires '-' !in a && '-' !in b
    requires a + "-" + x == b + "-" + y
    ensures a == b
  {
    var t := a + "-" + x;
    assert t[|a|] == '-' && t[|b|] == '-';
    assert forall i :: 0 <= i < |a| ==> t[i] == a[i];
    assert forall i :: 0 <= i < |b| ==> t[i] == b[i];
    assert t[..|a|] == a && t[..|b|] == b;
  }

  /** Two ids with the same prefix are different as soon as their counters are. */
  lemma IssuedIdFresh(prefix: string, n: nat, r: nat, m: nat, q: nat)
    requires IssuedId(prefix, n, r) == IssuedId(prefix, m, q)
    ensures n == m
  {
    var a, b, x, y := Hex(n, 16), Hex(m, 16), Hex(r, 16), Hex(q, 16);
    var s, t := IssuedId(prefix, n, r), IssuedId(prefix, m, q);
    assert s[|prefix|..] == a + "-" + x;
    assert t[|prefix|..] == b + "-" + y;
    assert '-' !in HEX_DIGITS;
    DashSplit(a, x, b, y);
    HexInjective(n, m, 16);
  }

  /** Issued identifiers survive the trimming every lookup applies. */
  lemma IssuedIdTrimmed(prefix: string, n: nat, r: nat)
    requires prefix != "" && !IsWhitespace(prefix[0])
    ensures IssuedId(prefix, n, r) != ""
    ensures Trim(IssuedId(prefix, n, r)) == IssuedId(prefix, n, r)
  {
    var s := IssuedId(prefix, n, r);
    var d := Hex(r, 16);
    assert s[0] == prefix[0];
    assert s[|s| - 1] == d[|d| - 1];
    assert d[|d| - 1] in HEX_DIGITS;
    assert forall c :: c in HEX_DIGITS ==> !IsWhitespace(c);
    TrimOf("", s, "");
    assert "" + s + "" == s;
  }
}
