/** Secret references and their canonical form: the reference parsers of
    crates/contracts/src/secret_ref.rs and the lookup and canonicalisation of
    crates/app/src/secrets.rs. What reading a file or running a program yields
    is a parameter. */
module Secrets {
  import opened Text
  import opened Results

  datatype SecretRef =
    | Env(env: string)
    | File(file: string)
    | Exec(exec: seq<string>)
    | Inline(value: string)

  // ------------------------------------------------------- environment spellings

  predicate IsAsciiAlphabetic(c: char) {
    'a' <= c <= 'z' || 'A' <= c <= 'Z'
  }

  predicate IsNameChar(c: char) {
    IsAsciiAlphabetic(c) || '0' <= c <= '9' || c == '_'
  }

  predicate LooksLikeEnvName(s: string) {
    && s != ""
    && (IsAsciiAlphabetic(s[0]) || s[0] == '_')
    && forall i :: 1 <= i < |s| ==> IsNameChar(s[i])
  }

  /** A name in terms of ASCII codes: letters, digits and underscores, and no
      digit in front. */
  lemma NameMeaning(s: string)
    ensures LooksLikeEnvName(s) <==>
      && s != "" && !(48 <= s[0] as int <= 57)
      && forall c :: c in s ==>
           65 <= c as int <= 90 || 97 <= c as int <= 122 || 48 <= c as int <= 57 || c as int == 95
  {
    assert forall i :: 0 <= i < |s| ==> s[i] in s;
    assert forall c :: c in s ==> exists i :: 0 <= i < |s| && s[i] == c;
    assert LooksLikeEnvName(s) ==> forall i :: 0 <= i < |s| ==> IsNameChar(s[i]);
  }

  function NormalizeEnvName(raw: string): Option<string> {
    if LooksLikeEnvName(Trim(raw)) then Some(Trim(raw)) else None
  }

  function StripBraces(s: string): string {
    if |s| >= 2 && s[0] == '{' && s[|s| - 1] == '}' then Trim(s[1..|s| - 1]) else s
  }

  function ParseDollar(raw: string): Option<string> {
    var trimmed := Trim(raw);
    if trimmed == "" || trimmed[0] != '$' || Trim(trimmed[1..]) == "" then None
    else NormalizeEnvName(StripBraces(Trim(trimmed[1..])))
  }

  function ParsePrefix(raw: string): Option<string> {
    var trimmed := Trim(raw);
    if |trimmed| < 4 || AsciiLower(trimmed[..4]) != "env:" then None else NormalizeEnvName(trimmed[4..])
  }

  function ParsePercent(raw: string): Option<string> {
    var trimmed := Trim(raw);
    if |trimmed| < 2 || trimmed[0] != '%' || trimmed[|trimmed| - 1] != '%' then None
    else NormalizeEnvName(trimmed[1..|trimmed| - 1])
  }

  function OrElse(a: Option<string>, b: Option<string>): Option<string> {
    if a.Some? then a else b
  }

  function ParseExplicitEnvReference(raw: string): Option<string> {
    OrElse(OrElse(ParseDollar(raw), ParsePrefix(raw)), ParsePercent(raw))
  }

  function ExplicitEnvName(r: SecretRef): Option<string> {
    match r
    case Env(env) => Some(env)
    case Inline(value) => ParseExplicitEnvReference(value)
    case File(_) => None
    case Exec(_) => None
  }

  // -------------------------------------------------------- grammar of spellings

  /** The ways to write a name: `$ NAME`, `$ { NAME }`, `env: NAME` in any
      letter case, and `% NAME %`, with padding. */
  datatype Spelling =
    | Dollar(pad: string)
    | Braced(outer: string, before: string, after: string)
    | Prefix(keyword: string, pad: string)
    | Percent(before: string, after: string)

  function Spell(sp: Spelling, name: string): string {
    match sp
    case Dollar(pad) => "$" + pad + name
    case Braced(outer, before, after) => "$" + outer + "{" + before + name + after + "}"
    case Prefix(keyword, pad) => keyword + pad + name
    case Percent(before, after) => "%" + before + name + after + "%"
  }

  ghost predicate IsSpelling(sp: Spelling) {
    match sp
    case Dollar(pad) => IsBlank(pad)
    case Braced(outer, before, after) => IsBlank(outer) && IsBlank(before) && IsBlank(after)
    case Prefix(keyword, pad) => AsciiLower(keyword) == "env:" && IsBlank(pad)
    case Percent(before, after) => IsBlank(before) && IsBlank(after)
  }

  lemma NameIsTrimmed(name: string)
    requires LooksLikeEnvName(name)
    ensures IsTrimmed(name) && name[0] != '{'
    ensures forall l, r :: IsBlank(l) && IsBlank(r) ==> Trim(l + name + r) == name
  {
    hide Trim;
    assert forall c :: IsNameChar(c) ==> !IsWhitespace(c);
    forall l, r | IsBlank(l) && IsBlank(r) ensures Trim(l + name + r) == name {
      TrimOf(l, name, r);
    }
  }

  lemma NormalizePadded(l: string, name: string, r: string)
    requires LooksLikeEnvName(name) && IsBlank(l) && IsBlank(r)
    ensures NormalizeEnvName(l + name + r) == Some(name)
    ensures NormalizeEnvName(name) == Some(name)
  {
    hide Trim;
    NameIsTrimmed(name);
    TrimOf("", name, "");
    assert "" + name + "" == name;
  }

  lemma SpellingEnds(sp: Spelling, name: string)
    requires IsSpelling(sp) && LooksLikeEnvName(name)
    ensures var s := Spell(sp, name);
      && |s| >= 2 && IsTrimmed(s)
      && (s[0] == '$' <==> sp.Dollar? || sp.Braced?)
      && (s[0] == '%' <==> sp.Percent?)
  {
    assert forall c :: IsNameChar(c) ==> !IsWhitespace(c);
    var s := Spell(sp, name);
    match sp
    case Dollar(_) => assert s[|s| - 1] == name[|name| - 1];
    case Braced(_, _, _) =>
    case Prefix(keyword, _) =>
      assert s[|s| - 1] == name[|name| - 1] && s[0] == keyword[0];
      assert AsciiLower(keyword)[0] == 'e' && AsciiLower(keyword)[0] == AsciiLowerChar(keyword[0]);
    case Percent(_, _) =>
  }

  lemma ParseAfterDollar(raw: string, inner: string, name: string)
    requires |Trim(raw)| > 0 && Trim(raw)[0] == '$' && Trim(Trim(raw)[1..]) == inner && inner != ""
    requires NormalizeEnvName(StripBraces(inner)) == Some(name)
    ensures ParseDollar(raw) == Some(name)
  {
    hide Trim, NormalizeEnvName, StripBraces;
  }

  lemma ParseDollarPlain(raw: string, pad: string, name: string)
    requires IsBlank(pad) && LooksLikeEnvName(name) && Trim(raw) == "$" + pad + name
    ensures ParseDollar(raw) == Some(name)
  {
    hide Trim, NormalizeEnvName, LooksLikeEnvName, IsBlank, IsTrimmed, ParseDollar;
    NameIsTrimmed(name);
    NameNotEmpty(name);
    BlankEmpty();
    NormalizePadded("", name, "");
    TrimOf(pad, name, "");
    assert Trim(raw)[1..] == pad + name + "";
    ParseAfterDollar(raw, name, name);
  }

  lemma ParseDollarBraced(raw: string, outer: string, body: string, name: string)
    requires IsBlank(outer) && NormalizeEnvName(body) == Some(name)
    requires Trim(raw) == "$" + outer + ("{" + body + "}")
    ensures ParseDollar(raw) == Some(name)
  {
    hide Trim, IsBlank, IsTrimmed, ParseDollar, LooksLikeEnvName;
    var braced := "{" + body + "}";
    BracesTrimmed(body);
    BlankEmpty();
    TrimOf(outer, braced, "");
    assert Trim(raw)[1..] == outer + braced + "";
    assert braced[1..|braced| - 1] == body;
    TrimIdempotent(body);
    ParseAfterDollar(raw, braced, name);
  }

  lemma ParseDollarSpelling(raw: string, sp: Spelling, name: string)
    requires IsSpelling(sp) && LooksLikeEnvName(name) && (sp.Dollar? || sp.Braced?)
    requires Trim(raw) == Spell(sp, name)
    ensures ParseDollar(raw) == Some(name)
  {
    hide Trim, NormalizeEnvName, LooksLikeEnvName, IsBlank, ParseDollar;
    match sp
    case Dollar(pad) => ParseDollarPlain(raw, pad, name);
    case Braced(outer, before, after) =>
      NormalizePadded(before, name, after);
      assert Trim(raw) == "$" + outer + ("{" + (before + name + after) + "}");
      ParseDollarBraced(raw, outer, before + name + after, name);
  }

  lemma BlankEmpty()
    ensures IsBlank("")
  {
  }

  lemma NameNotEmpty(name: string)
    requires LooksLikeEnvName(name)
    ensures name != ""
  {
  }

  lemma BracesTrimmed(s: string)
    ensures IsTrimmed("{" + s + "}")
  {
    var b := "{" + s + "}";
    assert b[0] == '{' && b[|b| - 1] == '}';
  }

  /** Every padded spelling of a name is read as that name. */
  lemma SpellingParses(left: string, sp: Spelling, name: string, right: string)
    requires IsBlank(left) && IsBlank(right) && IsSpelling(sp) && LooksLikeEnvName(name)
    ensures ParseExplicitEnvReference(left + Spell(sp, name) + right) == Some(name)
  {
    hide Trim, NormalizeEnvName, LooksLikeEnvName, IsBlank, IsTrimmed, StripBraces;
    var raw, s := left + Spell(sp, name) + right, Spell(sp, name);
    SpellingEnds(sp, name);
    TrimOf(left, s, right);
    BlankEmpty();
    match sp
    case Dollar(_) => ParseDollarSpelling(raw, sp, name);
    case Braced(_, _, _) => ParseDollarSpelling(raw, sp, name);
    case Prefix(keyword, pad) =>
      assert |keyword| == |AsciiLower(keyword)| == 4;
      assert s[..4] == keyword && s[4..] == pad + name + "";
      NormalizePadded(pad, name, "");
    case Percent(before, after) =>
      assert s[1..|s| - 1] == before + name + after;
      PercentIsNoPrefix(s);
      NormalizePadded(before, name, after);
  }

  lemma PercentIsNoPrefix(s: string)
    requires |s| >= 2 && (s[0] == '%' || s[0] == '$')
    ensures |s| >= 4 ==> AsciiLower(s[..4]) != "env:"
  {
    if |s| >= 4 {
      assert AsciiLower(s[..4])[0] == AsciiLowerChar(s[0]);
    }
  }

  lemma Padded(raw: string) returns (l: string, r: string)
    requires NormalizeEnvName(raw).Some?
    ensures IsBlank(l) && IsBlank(r) && raw == l + NormalizeEnvName(raw).value + r
    ensures LooksLikeEnvName(NormalizeEnvName(raw).value)
  {
    hide Trim;
    l, r := TrimParts(raw);
  }

  lemma BracedSpelled(outer: string, inner: string, name: string) returns (sp: Spelling)
    requires |inner| >= 2 && inner[0] == '{' && inner[|inner| - 1] == '}' && IsBlank(outer)
    requires NormalizeEnvName(Trim(inner[1..|inner| - 1])) == Some(name)
    ensures IsSpelling(sp) && "$" + outer + inner == Spell(sp, name) && LooksLikeEnvName(name)
  {
    hide Trim, NormalizeEnvName, LooksLikeEnvName, IsBlank;
    var body := inner[1..|inner| - 1];
    var l, r := TrimParts(body);
    var l', r' := Padded(Trim(body));
    BlankConcat(l, l');
    BlankConcat(r', r);
    sp := Braced(outer, l + l', r' + r);
    assert body == (l + l') + name + (r' + r);
    assert inner == "{" + body + "}";
    assert "$" + outer + "{" + (l + l') + name + (r' + r) + "}" == "$" + outer + ("{" + body + "}");
  }

  lemma PlainSpelled(outer: string, inner: string, name: string) returns (sp: Spelling, right: string)
    requires IsBlank(outer) && NormalizeEnvName(inner) == Some(name)
    ensures IsSpelling(sp) && IsBlank(right) && "$" + outer + inner == Spell(sp, name) + right && LooksLikeEnvName(name)
  {
    hide Trim, NormalizeEnvName, LooksLikeEnvName, IsBlank;
    var l, r := Padded(inner);
    BlankConcat(outer, l);
    sp, right := Dollar(outer + l), r;
    assert "$" + outer + (l + name + r) == "$" + (outer + l) + name + r;
  }

  lemma DollarSpelled(raw: string) returns (sp: Spelling, right: string)
    requires ParseDollar(raw).Some?
    ensures IsSpelling(sp) && IsBlank(right) && Trim(raw) == Spell(sp, ParseDollar(raw).value) + right
    ensures LooksLikeEnvName(ParseDollar(raw).value)
  {
    hide Trim, NormalizeEnvName, LooksLikeEnvName, IsBlank, IsSpelling, Spell;
    var trimmed, name := Trim(raw), ParseDollar(raw).value;
    var inner := Trim(trimmed[1..]);
    var outer, tail := TrimParts(trimmed[1..]);
    assert trimmed == "$" + outer + inner + tail;
    if |inner| >= 2 && inner[0] == '{' && inner[|inner| - 1] == '}' {
      sp := BracedSpelled(outer, inner, name);
      right := tail;
    } else {
      var r: string;
      sp, r := PlainSpelled(outer, inner, name);
      BlankConcat(r, tail);
      right := r + tail;
      assert trimmed == Spell(sp, name) + r + tail;
    }
  }

  lemma BlankConcat(a: string, b: string)
    requires IsBlank(a) && IsBlank(b)
    ensures IsBlank(a + b)
  {
  }

  lemma PrefixSpelled(raw: string) returns (sp: Spelling, right: string)
    requires ParsePrefix(raw).Some?
    ensures IsSpelling(sp) && IsBlank(right) && Trim(raw) == Spell(sp, ParsePrefix(raw).value) + right
    ensures LooksLikeEnvName(ParsePrefix(raw).value)
  {
    hide Trim, NormalizeEnvName, LooksLikeEnvName;
    var trimmed, name := Trim(raw), ParsePrefix(raw).value;
    var l, r := Padded(trimmed[4..]);
    sp, right := Prefix(trimmed[..4], l), r;
    assert trimmed == trimmed[..4] + (l + name + r);
  }

  lemma PercentSpelled(raw: string) returns (sp: Spelling)
    requires ParsePercent(raw).Some?
    ensures IsSpelling(sp) && Trim(raw) == Spell(sp, ParsePercent(raw).value)
    ensures LooksLikeEnvName(ParsePercent(raw).value)
  {
    hide Trim, NormalizeEnvName, LooksLikeEnvName;
    var trimmed, name := Trim(raw), ParsePercent(raw).value;
    var l, r := Padded(trimmed[1..|trimmed| - 1]);
    sp := Percent(l, r);
    assert trimmed == "%" + (l + name + r) + "%";
  }

  /** Nothing else is read as a name: whatever parses is a padded spelling of
      what it parses to. */
  lemma ParsedIsSpelling(raw: string) returns (left: string, sp: Spelling, right: string)
    requires ParseExplicitEnvReference(raw).Some?
    ensures var name := ParseExplicitEnvReference(raw).value;
      && LooksLikeEnvName(name) && IsBlank(left) && IsBlank(right) && IsSpelling(sp)
      && raw == left + Spell(sp, name) + right
  {
    hide Trim, NormalizeEnvName, LooksLikeEnvName, IsBlank, IsSpelling, Spell, ParseDollar, ParsePrefix, ParsePercent;
    var name := ParseExplicitEnvReference(raw).value;
    var outer: string;
    left, outer := TrimParts(raw);
    var inner: string;
    BlankEmpty();
    if ParseDollar(raw).Some? {
      sp, inner := DollarSpelled(raw);
    } else if ParsePrefix(raw).Some? {
      sp, inner := PrefixSpelled(raw);
    } else {
      sp := PercentSpelled(raw);
      inner := "";
    }
    BlankConcat(inner, outer);
    right := inner + outer;
    assert raw == left + (Spell(sp, name) + inner) + outer;
  }

  // ------------------------------------------------------------------ resolution

  datatype Failure = InvalidEnvName | Other(message: string)

  type Outcome = Result<Option<string>, Failure>

  /** Everything a resolution can look at. */
  datatype World = World(env: map<string, string>, readFile: string -> Outcome, runProgram: seq<string> -> Outcome)

  datatype SecretLookup = Absent | Missing | Value(value: string)

  function NonEmpty(s: string): Option<string> {
    if s == "" then None else Some(s)
  }

  function ResolveEnv(w: World, name: string): Outcome {
    if Trim(name) == "" then Err(InvalidEnvName)
    else if Trim(name) !in w.env then Ok(None)
    else Ok(NonEmpty(Trim(w.env[Trim(name)])))
  }

  function ResolveSecret(w: World, r: SecretRef): Outcome {
    if ExplicitEnvName(r).Some? then ResolveEnv(w, ExplicitEnvName(r).value)
    else
      match r
      case Inline(value) => Ok(NonEmpty(Trim(value)))
      case Env(env) => ResolveEnv(w, env)
      case File(file) => w.readFile(file)
      case Exec(exec) => w.runProgram(exec)
  }

  function ResolveSecretLookup(w: World, r: Option<SecretRef>): SecretLookup {
    if r.None? || (r.value.Inline? && Trim(r.value.value) == "") then Absent
    else
      match ResolveSecret(w, r.value)
      case Ok(Some(value)) => Value(value)
      case _ => Missing
  }

  function ReadNonEmptyEnvValue(w: World, name: Option<string>): Option<string> {
    if name.None? || Trim(name.value) == "" || Trim(name.value) !in w.env then None
    else NonEmpty(Trim(w.env[Trim(name.value)]))
  }

  function ResolveSecretWithLegacyEnv(w: World, r: Option<SecretRef>, name: Option<string>): Option<string> {
    match ResolveSecretLookup(w, r)
    case Value(value) => Some(value)
    case Missing => None
    case Absent => ReadNonEmptyEnvValue(w, name)
  }

  /** The variable is set to `value` between blanks, and that is not empty. */
  predicate EnvHolds(w: World, name: Option<string>, value: string) {
    && name.Some? && Trim(name.value) != "" && Trim(name.value) in w.env
    && Trim(w.env[Trim(name.value)]) == value && value != ""
  }

  /** Which value a setting has: an environment reference and an inline spelling
      of one are looked up, other inline text counts trimmed, files and programs
      give what they give; only without a reference, or with a blank inline one,
      the legacy variable is asked. */
  lemma ValueMeaning(w: World, r: Option<SecretRef>, legacy: Option<string>, v: string)
    ensures ResolveSecretWithLegacyEnv(w, r, legacy) == Some(v) <==>
      match r
      case None => EnvHolds(w, legacy, v)
      case Some(Env(env)) => EnvHolds(w, Some(env), v)
      case Some(Inline(text)) =>
        if Trim(text) == "" then EnvHolds(w, legacy, v)
        else if ParseExplicitEnvReference(text).Some? then EnvHolds(w, ParseExplicitEnvReference(text), v)
        else v == Trim(text)
      case Some(File(file)) => w.readFile(file) == Ok(Some(v))
      case Some(Exec(exec)) => w.runProgram(exec) == Ok(Some(v))
  {
    hide Trim, ParseExplicitEnvReference;
  }

  // ------------------------------------------------------------ canonicalisation

  /** The reference, and the name of the legacy environment variable. */
  datatype Pair = Pair(secretRef: Option<SecretRef>, envName: Option<string>)

  function ConfiguredName(name: Option<string>): Option<string> {
    if name.None? || Trim(name.value) == "" then None else Some(Trim(name.value))
  }

  function Canonical(p: Pair): Pair {
    if p.secretRef.None? || ExplicitEnvName(p.secretRef.value).None? then p
    else
      var explicit := ExplicitEnvName(p.secretRef.value).value;
      if ConfiguredName(p.envName) == None || ConfiguredName(p.envName) == Some(explicit)
      then Pair(None, Some(explicit))
      else p
  }

  /** No other name is configured. */
  predicate NamesNoOther(envName: Option<string>, name: string) {
    envName.None? || Trim(envName.value) == "" || Trim(envName.value) == name
  }

  /** What is rewritten: an environment reference, plain or spelled inline, beside
      no other configured name. It becomes that name; everything else stays. */
  lemma CanonicalMeaning(p: Pair)
    ensures
      match p.secretRef
      case Some(Env(name)) => Canonical(p) == (if NamesNoOther(p.envName, name) then Pair(None, Some(name)) else p)
      case Some(Inline(text)) =>
        var spelled := ParseExplicitEnvReference(text);
        Canonical(p) == (if spelled.Some? && NamesNoOther(p.envName, spelled.value) then Pair(None, spelled) else p)
      case _ => Canonical(p) == p
  {
    hide Trim, ParseExplicitEnvReference;
  }

  class SecretSetting {
    var secretRef: Option<SecretRef>
    var envName: Option<string>

    constructor (secretRef: Option<SecretRef>, envName: Option<string>)
      ensures this.secretRef == secretRef && this.envName == envName
    {
      this.secretRef, this.envName := secretRef, envName;
    }

    /** Rewrites both settings in place; in every world they resolve to the
        same value as before. */
    method CanonicalizeEnvSecretReference()
      modifies this
      ensures Pair(secretRef, envName) == Canonical(Pair(old(secretRef), old(envName)))
      ensures forall w :: ResolveSecretWithLegacyEnv(w, secretRef, envName) ==
                          ResolveSecretWithLegacyEnv(w, old(secretRef), old(envName))
    {
      hide Trim, ParseExplicitEnvReference, ResolveSecretWithLegacyEnv;
      forall w {
        CanonicalResolves(w, Pair(secretRef, envName));
      }
      if secretRef.None? {
        return;
      }
      var explicit := ExplicitEnvName(secretRef.value);
      if explicit.None? {
        return;
      }
      var configured := ConfiguredName(envName);
      if configured.None? || configured == explicit {
        envName := explicit;
        secretRef := None;
      }
    }
  }

  lemma EnvValueEitherWay(w: World, r: SecretRef, name: string)
    requires ExplicitEnvName(r) == Some(name)
    ensures forall other :: ResolveSecretWithLegacyEnv(w, Some(r), other) == ReadNonEmptyEnvValue(w, Some(name))
  {
    hide Trim, ParseExplicitEnvReference;
    if r.Inline? {
      BlankIsNoReference(r.value);
    }
  }

  lemma BlankIsNoReference(value: string)
    ensures Trim(value) == "" ==> ParseExplicitEnvReference(value).None?
  {
    hide Trim;
  }

  /** Canonicalising preserves the resolved value in every world, for every kind
      of reference and every spelling. */
  lemma CanonicalResolves(w: World, p: Pair)
    ensures var c := Canonical(p);
      ResolveSecretWithLegacyEnv(w, c.secretRef, c.envName) == ResolveSecretWithLegacyEnv(w, p.secretRef, p.envName)
  {
    hide Trim, ParseExplicitEnvReference, ResolveSecret, ReadNonEmptyEnvValue;
    if p.secretRef.Some? && ExplicitEnvName(p.secretRef.value).Some? {
      EnvValueEitherWay(w, p.secretRef.value, ExplicitEnvName(p.secretRef.value).value);
    }
  }

  /** Canonicalising twice is canonicalising once. What a second pass would still
      have to rewrite is gone: an environment reference stays only beside a
      different configured name. */
  lemma CanonicalIsFixed(p: Pair)
    ensures Canonical(Canonical(p)) == Canonical(p)
    ensures var c := Canonical(p);
      c.secretRef.Some? && ExplicitEnvName(c.secretRef.value).Some? ==>
        ConfiguredName(c.envName).Some? && ConfiguredName(c.envName) != ExplicitEnvName(c.secretRef.value)
  {
    hide Trim, ParseExplicitEnvReference;
  }
}
