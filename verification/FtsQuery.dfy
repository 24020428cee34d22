/** Building a full-text query from free text: `build_search_fts_query` and
    `push_search_token` of crates/app/src/search_text.rs. The Unicode
    normalisation and the word segmentation are parameters. */
module FtsQuery {
  import opened Text
  import opened Ordering
  import opened Sequences
  import opened Results

  // --------------------------------------------------------------- quoting

  /** Double every quotation mark. */
  function Escape(term: string): string {
    if term == "" then ""
    else (if term[0] == '"' then ['"', '"'] else [term[0]]) + Escape(term[1..])
  }

  function Quote(term: string): string {
    ['"'] + Escape(term) + ['"']
  }

  const OR: string := " OR "

  /** What the query language makes of the text after an opening quotation mark:
      the string up to the first undoubled mark, and what follows it. */
  function ReadBody(s: string): Option<(string, string)> {
    if s == "" then None
    else if s[0] != '"' then
      match ReadBody(s[1..])
      case None => None
      case Some((t, rest)) => Some(([s[0]] + t, rest))
    else if |s| > 1 && s[1] == '"' then
      match ReadBody(s[2..])
      case None => None
      case Some((t, rest)) => Some((['"'] + t, rest))
    else Some(("", s[1..]))
  }

  /** Strings separated by the OR operator. */
  function ReadQuery(s: string): Option<seq<string>>
    decreases |s|
  {
    if s == "" || s[0] != '"' then None
    else
      match ReadBody(s[1..])
      case None => None
      case Some((t, rest)) =>
        if rest == "" then Some([t])
        else if |rest| < |s| && StartsWith(rest, " OR ") then
          match ReadQuery(rest[4..])
          case None => None
          case Some(ts) => Some([t] + ts)
        else None
  }

  lemma {:induction false} ReadEscaped(term: string, rest: string)
    requires rest == "" || rest[0] != '"'
    ensures ReadBody(Escape(term) + ['"'] + rest) == Some((term, rest))
  {
    var s := Escape(term) + ['"'] + rest;
    if term == "" {
      assert s[0] == '"' && s[1..] == rest;
    } else {
      var tail := Escape(term[1..]) + ['"'] + rest;
      ReadEscaped(term[1..], rest);
      if term[0] == '"' {
        assert s[0] == '"' && s[1] == '"' && s[2..] == tail;
      } else {
        assert s[0] == term[0] && s[1..] == tail;
      }
      assert term == [term[0]] + term[1..];
    }
  }

  function Quoted(terms: seq<string>): (r: seq<string>)
    ensures |r| == |terms|
  {
    if terms == [] then [] else [Quote(terms[0])] + Quoted(terms[1..])
  }

  lemma ReadLast(t: string)
    ensures ReadQuery(Quote(t)) == Some([t])
  {
    hide Escape, ReadBody;
    ReadEscaped(t, "");
    assert Quote(t)[1..] == Escape(t) + ['"'] + "";
  }

  lemma ReadNext(t: string, more: string, ts: seq<string>)
    requires ReadQuery(more) == Some(ts)
    ensures ReadQuery(Quote(t) + OR + more) == Some([t] + ts)
  {
    hide Escape, ReadBody;
    var s, rest := Quote(t) + OR + more, OR + more;
    ReadEscaped(t, rest);
    assert s[1..] == Escape(t) + ['"'] + rest;
    assert rest[..|OR|] == OR && rest[|OR|..] == more;
  }

  /** Whatever the terms contain, quotation marks and operators included, the
      query is read back as exactly those terms. */
  lemma {:induction false} QueryRoundTrip(terms: seq<string>)
    requires terms != []
    ensures ReadQuery(Join(Quoted(terms), OR)) == Some(terms)
  {
    hide Quote, ReadQuery;
    var t := terms[0];
    assert terms == [t] + terms[1..];
    if |terms| == 1 {
      assert terms == [t];
      assert Join(Quoted(terms), OR) == Quote(t);
      ReadLast(t);
    } else {
      QueryRoundTrip(terms[1..]);
      ReadNext(t, Join(Quoted(terms[1..]), OR), terms[1..]);
      assert Quoted(terms)[1..] == Quoted(terms[1..]);
    }
  }

  lemma QuoteInjective(a: string, b: string)
    requires Quote(a) == Quote(b)
    ensures a == b
  {
    hide Escape;
    ReadEscaped(a, "");
    ReadEscaped(b, "");
    assert Escape(a) + ['"'] + "" == Quote(a)[1..];
    assert Escape(b) + ['"'] + "" == Quote(b)[1..];
  }

  // ---------------------------------------------------- lists without repeats

  /** Each entry once, where it first occurs. */
  function FirstOccurrences(xs: seq<string>): seq<string> {
    if xs == [] then []
    else
      var last := |xs| - 1;
      FirstOccurrences(xs[..last]) + (if xs[last] in xs[..last] then [] else [xs[last]])
  }

  ghost predicate Collected(xs: seq<string>, r: seq<string>) {
    && (forall x :: x in r <==> x in xs) && Distinct(r) && |r| <= |xs|
    && (xs != [] ==> r != [] && r[0] == xs[0])
  }

  lemma {:induction false} FirstOccurrencesMeaning(xs: seq<string>)
    ensures Collected(xs, FirstOccurrences(xs))
  {
    if xs == [] {
    } else {
      var last := |xs| - 1;
      FirstOccurrencesMeaning(xs[..last]);
      hide Collected;
      CollectOne(xs[..last], FirstOccurrences(xs[..last]), xs[last]);
      assert xs == xs[..last] + [xs[last]];
    }
  }

  /** They keep the order in which they first occur. */
  lemma {:induction false} FirstOccurrencesOrder(xs: seq<string>, i: nat, j: nat)
    requires i < j < |FirstOccurrences(xs)|
    ensures exists k :: 0 <= k < |xs| && xs[k] == FirstOccurrences(xs)[i] && FirstOccurrences(xs)[j] !in xs[..k + 1]
  {
    var r, last := FirstOccurrences(xs), |xs| - 1;
    var before := FirstOccurrences(xs[..last]);
    if j < |before| {
      FirstOccurrencesOrder(xs[..last], i, j);
      var k :| 0 <= k < last && xs[..last][k] == before[i] && before[j] !in xs[..last][..k + 1];
      assert xs[..k + 1] == xs[..last][..k + 1];
    } else {
      FirstOccurrencesMeaning(xs[..last]);
      assert before[i] in xs[..last];
      var k :| 0 <= k < last && xs[..last][k] == before[i];
      assert forall x :: x in xs[..k + 1] ==> x in xs[..last] by {
        assert xs[..k + 1] == xs[..last][..k + 1];
      }
    }
  }

  lemma CollectOne(xs: seq<string>, r: seq<string>, x: string)
    requires Collected(xs, r)
    ensures Collected(xs + [x], r + (if x in xs then [] else [x]))
  {
  }

  lemma FirstOccurrencesSnoc(xs: seq<string>, x: string)
    ensures FirstOccurrences(xs + [x]) == FirstOccurrences(xs) + (if x in xs then [] else [x])
  {
    assert (xs + [x])[..|xs|] == xs;
  }

  /** A list that is filled through `push` and remembers what it has seen. */
  class Collector {
    var items: seq<string>
    var seen: set<string>

    ghost predicate Valid()
      reads this
    {
      forall x :: x in seen <==> x in items
    }

    constructor ()
      ensures Valid() && items == []
    {
      items, seen := [], {};
    }

    method Insert(item: string)
      requires Valid()
      modifies this
      ensures Valid()
      ensures items == old(items) + (if item in old(items) then [] else [item])
    {
      if item !in seen {
        seen := seen + {item};
        items := items + [item];
      }
    }

    method PushQuotedTerm(term: string)
      requires Valid()
      modifies this
      ensures Valid()
      ensures items == old(items) + (if term == "" || Quote(term) in old(items) then [] else [Quote(term)])
    {
      if term == "" {
        return;
      }
      Insert(Quote(term));
    }

    /** A token is kept in normalised form, once, if at least two characters
        long. */
    method PushToken(normalize: string -> string, word: string)
      requires Valid()
      modifies this
      ensures Valid()
      ensures items == old(items) +
        (match Kept(normalize, word) case None => [] case Some(t) => if t in old(items) then [] else [t])
      ensures items == old(items) +
        (if Trim(word) == "" || |normalize(Trim(word))| < 2 || normalize(Trim(word)) in old(items) then []
         else [normalize(Trim(word))])
    {
      var trimmed := Trim(word);
      if trimmed == "" {
        return;
      }
      var normalized := normalize(trimmed);
      if ShouldKeep(normalized) {
        Insert(normalized);
      }
    }
  }

  // -------------------------------------------------------------------- tokens

  /** For ASCII tokens the source counts bytes, otherwise characters. */
  predicate ShouldKeep(token: string) {
    |token| >= 2
  }

  function Kept(normalize: string -> string, word: string): Option<string> {
    if Trim(word) != "" && ShouldKeep(normalize(Trim(word))) then Some(normalize(Trim(word))) else None
  }

  function AllKept(normalize: string -> string, words: seq<string>): seq<string> {
    if words == [] then []
    else
      var last := |words| - 1;
      AllKept(normalize, words[..last]) +
      (match Kept(normalize, words[last]) case None => [] case Some(t) => [t])
  }

  /** The tokens of a text: every kept word once, in order of appearance. */
  function Tokens(normalize: string -> string, words: seq<string>): seq<string> {
    FirstOccurrences(AllKept(normalize, words))
  }

  lemma TokensMeaning(normalize: string -> string, words: seq<string>)
    ensures var tokens := Tokens(normalize, words);
      && Distinct(tokens) && |tokens| <= |words|
      && (forall t :: t in tokens ==> |t| >= 2)
      && (forall t :: t in tokens <==> exists w :: w in words && Gives(normalize, w, t))
  {
    hide Kept, FirstOccurrences, Gives;
    FirstOccurrencesMeaning(AllKept(normalize, words));
    AllKeptMeaning(normalize, words);
    forall w, t ensures Gives(normalize, w, t) <==> Kept(normalize, w) == Some(t) {
      GivesMeaning(normalize, w, t);
    }
  }

  /** The word, trimmed and normalised, is the token and long enough for one. */
  ghost predicate Gives(normalize: string -> string, word: string, token: string) {
    Trim(word) != "" && normalize(Trim(word)) == token && |token| >= 2
  }

  lemma GivesMeaning(normalize: string -> string, word: string, token: string)
    ensures Gives(normalize, word, token) <==> Kept(normalize, word) == Some(token)
  {
    hide Trim;
  }

  /** Tokens come in the order of the words that give them. */
  lemma TokensOrder(normalize: string -> string, words: seq<string>, i: nat, j: nat)
    requires i < j < |Tokens(normalize, words)|
    ensures var tokens := Tokens(normalize, words);
      exists k :: 0 <= k < |words| && Gives(normalize, words[k], tokens[i])
        && forall l :: 0 <= l <= k ==> !Gives(normalize, words[l], tokens[j])
  {
    hide Kept, FirstOccurrences, Gives, AllKept;
    var kept, tokens := AllKept(normalize, words), Tokens(normalize, words);
    FirstOccurrencesOrder(kept, i, j);
    var n :| 0 <= n < |kept| && kept[n] == tokens[i] && tokens[j] !in kept[..n + 1];
    var k := KeptFrom(normalize, words, n);
    GivesMeaning(normalize, words[k], tokens[i]);
    forall l | 0 <= l <= k ensures !Gives(normalize, words[l], tokens[j]) {
      GivesMeaning(normalize, words[l], tokens[j]);
      AllKeptMeaning(normalize, words[..k + 1]);
      assert words[..k + 1][l] in words[..k + 1];
    }
  }

  /** The word that gave entry `n`. */
  lemma {:induction false} KeptFrom(normalize: string -> string, words: seq<string>, n: nat) returns (k: nat)
    requires n < |AllKept(normalize, words)|
    ensures k < |words| && Kept(normalize, words[k]) == Some(AllKept(normalize, words)[n])
    ensures AllKept(normalize, words[..k + 1]) == AllKept(normalize, words)[..n + 1]
  {
    hide Kept;
    var last := |words| - 1;
    var before := AllKept(normalize, words[..last]);
    if n < |before| {
      k := KeptFrom(normalize, words[..last], n);
      assert words[..last][..k + 1] == words[..k + 1];
    } else {
      k := last;
      assert words[..k + 1] == words;
    }
  }

  lemma {:induction false} AllKeptMeaning(normalize: string -> string, words: seq<string>)
    ensures var kept := AllKept(normalize, words);
      && |kept| <= |words| && (forall t :: t in kept ==> |t| >= 2)
      && (forall t :: t in kept <==> exists w :: w in words && Kept(normalize, w) == Some(t))
  {
    if words == [] {
    } else {
      var last := |words| - 1;
      AllKeptMeaning(normalize, words[..last]);
      assert words == words[..last] + [words[last]];
      assert forall w :: w in words <==> w in words[..last] || w == words[last];
    }
  }

  lemma StartTokens(normalize: string -> string)
    ensures FirstOccurrences(AllKept(normalize, [])) == []
  {
  }

  lemma TokensSnoc(normalize: string -> string, words: seq<string>, word: string)
    ensures var before := FirstOccurrences(AllKept(normalize, words));
      FirstOccurrences(AllKept(normalize, words + [word])) == before +
        (match Kept(normalize, word) case None => [] case Some(t) => if t in before then [] else [t])
  {
    hide Kept, FirstOccurrences;
    var kept := AllKept(normalize, words);
    FirstOccurrencesMeaning(kept);
    assert (words + [word])[..|words|] == words;
    match Kept(normalize, word)
    case None => assert kept + [] == kept && FirstOccurrences(kept) + [] == FirstOccurrences(kept);
    case Some(t) => FirstOccurrencesSnoc(kept, t);
  }

  method TokenizeNormalized(normalize: string -> string, words: seq<string>) returns (tokens: seq<string>)
    ensures tokens == Tokens(normalize, words)
  {
    hide Kept, FirstOccurrences, AllKept;
    StartTokens(normalize);
    var collector := new Collector();
    var i := 0;
    while i < |words|
      invariant i <= |words| && collector.Valid() && fresh(collector)
      invariant collector.items == FirstOccurrences(AllKept(normalize, words[..i]))
    {
      assert words[..i + 1] == words[..i] + [words[i]];
      TokensSnoc(normalize, words[..i], words[i]);
      collector.PushToken(normalize, words[i]);
      i := i + 1;
    }
    assert words[..i] == words;
    tokens := collector.items;
  }

  // --------------------------------------------------------------------- query

  /** The terms searched for: the whole text, then at most `maxTerms` tokens. */
  function Terms(text: string, tokens: seq<string>, maxTerms: nat): seq<string> {
    FirstOccurrences([text] + tokens[..Least(maxTerms, |tokens|)])
  }

  /** The terms are pairwise distinct, at most one more than allowed, and the
      text itself comes first. */
  lemma TermsMeaning(text: string, tokens: seq<string>, maxTerms: nat)
    ensures var terms := Terms(text, tokens, maxTerms);
      && Distinct(terms) && 0 < |terms| <= maxTerms + 1 && terms[0] == text
      && (forall t :: t in terms <==> t == text || t in tokens[..Least(maxTerms, |tokens|)])
  {
    hide FirstOccurrences;
    FirstOccurrencesMeaning([text] + tokens[..Least(maxTerms, |tokens|)]);
  }

  lemma {:induction false} QuotedMembers(terms: seq<string>, t: string)
    ensures Quote(t) in Quoted(terms) <==> t in terms
  {
    hide Quote;
    if terms == [] {
    } else {
      QuotedMembers(terms[1..], t);
      if Quote(t) == Quote(terms[0]) {
        QuoteInjective(t, terms[0]);
      }
    }
  }

  lemma {:induction false} QuotedSnoc(terms: seq<string>, t: string)
    ensures Quoted(terms + [t]) == Quoted(terms) + [Quote(t)]
  {
    hide Quote;
    if terms == [] {
      assert [] + [t] == [t];
    } else {
      assert (terms + [t])[1..] == terms[1..] + [t];
      QuotedSnoc(terms[1..], t);
    }
  }

  lemma PushedTerm(before: seq<string>, t: string)
    requires t != ""
    ensures Quoted(FirstOccurrences(before + [t])) == Quoted(FirstOccurrences(before)) +
      (if t == "" || Quote(t) in Quoted(FirstOccurrences(before)) then [] else [Quote(t)])
  {
    hide Quote, FirstOccurrences;
    FirstOccurrencesSnoc(before, t);
    FirstOccurrencesMeaning(before);
    QuotedMembers(FirstOccurrences(before), t);
    QuotedSnoc(FirstOccurrences(before), t);
    assert FirstOccurrences(before) + [] == FirstOccurrences(before);
  }

  /** No query for a text that normalises to nothing; otherwise one that the
      query language reads as exactly the terms. */
  method BuildSearchFtsQuery(normalize: string -> string, segment: string -> seq<string>, raw: string, maxTerms: nat)
    returns (query: Option<string>)
    ensures query.None? <==> Trim(normalize(raw)) == ""
    ensures query.Some? ==>
      var text := Trim(normalize(raw));
      ReadQuery(query.value) == Some(Terms(text, Tokens(normalize, segment(text)), maxTerms))
  {
    hide Trim, Quote, Quoted, FirstOccurrences, ReadQuery, Tokens, Join;
    var text := Trim(normalize(raw));
    if text == "" {
      return None;
    }
    var collector := new Collector();
    StartQuoted(text);
    PushedTerm([], text);
    collector.PushQuotedTerm(text);
    var tokens := TokenizeNormalized(normalize, segment(text));
    TokensMeaning(normalize, segment(text));
    var count := Least(maxTerms, |tokens|);
    var i := 0;
    while i < count
      invariant i <= count && collector.Valid() && fresh(collector)
      invariant collector.items == Quoted(FirstOccurrences([text] + tokens[..i]))
    {
      assert [text] + tokens[..i + 1] == [text] + tokens[..i] + [tokens[i]];
      assert tokens[i] in tokens;
      PushedTerm([text] + tokens[..i], tokens[i]);
      collector.PushQuotedTerm(tokens[i]);
      i := i + 1;
    }
    TermsMeaning(text, tokens, maxTerms);
    QueryRoundTrip(Terms(text, tokens, maxTerms));
    query := if collector.items == [] then None else Some(Join(collector.items, OR));
  }

  lemma StartQuoted(text: string)
    ensures Quoted(FirstOccurrences([])) == []
    ensures [] + [text] == [text] + []
  {
  }
}
