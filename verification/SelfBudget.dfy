/** Loading the runtime self model under a character budget:
    `load_runtime_self_model_with_budget` and the truncation it uses, from
    crates/app/src/runtime_self.rs. A source is given with what reading it
    produced. */
module SelfBudget {
  import opened Results
  import opened Sequences

  datatype Lane = ToolUsagePolicy | SoulGuidance | IdentityContext | UserContext

  /** `content` is absent when the file cannot be read or is blank. */
  datatype Source = Source(key: string, fileName: string, lane: Lane, content: Option<string>)

  datatype Model = Model(toolUsagePolicy: seq<string>, soulGuidance: seq<string>, identityContext: seq<string>,
                         userContext: seq<string>)

  const EMPTY_MODEL := Model([], [], [], [])

  datatype Cause = SourceBudget | TotalBudget

  // ------------------------------------------------------------------- notices

  function NoticeText(fileName: string, cause: Cause): string {
    "[runtime self source truncated: " + fileName + " exceeded the " +
    (match cause case SourceBudget => "per-source budget" case TotalBudget => "remaining total budget") + "]"
  }

  function Dots(n: nat): (s: string)
    ensures |s| == n
  {
    if n == 0 then "" else "." + Dots(n - 1)
  }

  /** From the most to the least detailed. */
  function Notices(fileName: string, cause: Cause): seq<string> {
    [NoticeText(fileName, cause), "[runtime self truncated: " + fileName + "]", "[runtime self truncated]", "[truncated]",
     "..."]
  }

  function FirstThatFits(notices: seq<string>, maxChars: nat): (s: string)
    ensures |s| <= maxChars
  {
    if notices == [] then Dots(maxChars)
    else if |notices[0]| <= maxChars then notices[0]
    else FirstThatFits(notices[1..], maxChars)
  }

  function CompactNotice(fileName: string, cause: Cause, maxChars: nat): (s: string)
    ensures |s| <= maxChars
  {
    FirstThatFits(Notices(fileName, cause), maxChars)
  }

  /** The compact notice is the longest form that fits; only below the length of
      the shortest form are dots shown instead. */
  lemma CompactIsLongest(fileName: string, cause: Cause, maxChars: nat)
    ensures var s, forms := CompactNotice(fileName, cause, maxChars), Notices(fileName, cause);
      && (forall i :: 0 <= i < |forms| && |forms[i]| <= maxChars ==> |forms[i]| <= |s|)
      && (s in forms <==> maxChars >= 3)
      && (maxChars < 3 ==> s == Dots(maxChars))
  {
    var forms := Notices(fileName, cause);
    assert |forms[0]| > |forms[1]| > |forms[2]| > |forms[3]| > |forms[4]| == 3;
    assert forms[1..] == [forms[1], forms[2], forms[3], forms[4]];
    assert forms[1..][1..] == [forms[2], forms[3], forms[4]];
    assert forms[1..][1..][1..] == [forms[3], forms[4]];
    assert forms[1..][1..][1..][1..] == [forms[4]];
    assert forms[1..][1..][1..][1..][1..] == [];
    Chosen(forms, maxChars);
  }

  lemma {:induction false} Chosen(notices: seq<string>, maxChars: nat)
    requires forall i, j :: 0 <= i < j < |notices| ==> |notices[i]| > |notices[j]|
    ensures var s := FirstThatFits(notices, maxChars);
      && (forall i :: 0 <= i < |notices| && |notices[i]| <= maxChars ==> s in notices && |notices[i]| <= |s|)
      && ((forall i :: 0 <= i < |notices| ==> |notices[i]| > maxChars) ==> s == Dots(maxChars))
  {
    if notices != [] && |notices[0]| > maxChars {
      Chosen(notices[1..], maxChars);
      assert forall i :: 0 < i < |notices| ==> notices[i] == notices[1..][i - 1];
    }
  }

  // ---------------------------------------------------------------- truncation

  datatype Truncated = Truncated(rendered: string, charged: nat)

  const SEPARATOR: string := "\n\n"

  function CauseOf(remaining: nat, maxSource: nat): Cause {
    if remaining < maxSource then TotalBudget else SourceBudget
  }

  function Truncate(fileName: string, content: string, remaining: nat, maxSource: nat): Truncated {
    if remaining == 0 then Truncated(NoticeText(fileName, TotalBudget), 0)
    else
      var limit := Least(maxSource, remaining);
      if |content| <= limit then Truncated(content, |content|)
      else
        var cause := CauseOf(remaining, maxSource);
        var notice := NoticeText(fileName, cause);
        if limit < |notice| + |SEPARATOR| + 1 then Truncated(CompactNotice(fileName, cause, limit), limit)
        else Truncated(content[..limit - |notice| - |SEPARATOR|] + SEPARATOR + notice, limit)
  }

  /** With budget left, a source never renders to more than it is charged, nor
      is charged more than both limits allow; it is shown whole exactly when it
      fits. */
  lemma TruncateMeaning(fileName: string, content: string, remaining: nat, maxSource: nat)
    ensures var t, limit := Truncate(fileName, content, remaining, maxSource), Least(maxSource, remaining);
      && t.charged <= remaining
      && (remaining == 0 ==> t == Truncated(
            "[runtime self source truncated: " + fileName + " exceeded the remaining total budget]", 0))
      && (remaining > 0 ==> |t.rendered| <= t.charged && t.charged == Least(|content|, limit))
      && (remaining > 0 && |content| <= limit ==> t.rendered == content)
  {
    NoticeMeaning(fileName, TotalBudget);
    hide NoticeText, CompactNotice, CauseOf;
  }

  lemma NoticeMeaning(fileName: string, cause: Cause)
    ensures NoticeText(fileName, cause) ==
      "[runtime self source truncated: " + fileName + " exceeded the " +
      (if cause.SourceBudget? then "per-source" else "remaining total") + " budget]"
  {
    assert "per-source budget" == "per-source" + " budget";
    assert "remaining total budget" == "remaining total" + " budget";
    assert " budget" + "]" == " budget]";
  }

  lemma FewDots()
    ensures Dots(0) == "" && Dots(1) == "." && Dots(2) == ".."
  {
    assert Dots(1) == "." + Dots(0) && Dots(2) == "." + Dots(1);
  }

  /** A source cut with room for the notice, its separator and one character is
      shown as a proper prefix of its text and the notice, in exactly the
      characters allowed; with less room no text of it is shown at all. */
  lemma CutMeaning(fileName: string, content: string, remaining: nat, maxSource: nat)
    requires |content| > Least(maxSource, remaining) && remaining > 0
    ensures var t, limit := Truncate(fileName, content, remaining, maxSource), Least(maxSource, remaining);
      var notice := "[runtime self source truncated: " + fileName + " exceeded the " +
        (if maxSource <= remaining then "per-source" else "remaining total") + " budget]";
      if limit >= |notice| + 3 then
        |t.rendered| == limit
        && exists k: nat :: 0 < k < |content| && t.rendered == content[..k] + "\n\n" + notice
      else
        t.rendered in ["[runtime self truncated: " + fileName + "]", "[runtime self truncated]", "[truncated]", "...",
                       "..", ".", ""] || t.rendered == notice
  {
    NoticeMeaning(fileName, CauseOf(remaining, maxSource));
    FewDots();
    var limit, cause := Least(maxSource, remaining), CauseOf(remaining, maxSource);
    CompactIsLongest(fileName, cause, limit);
    hide NoticeText, CompactNotice, CauseOf, Notices;
    var notice := NoticeText(fileName, cause);
    var t := Truncate(fileName, content, remaining, maxSource);
    if limit >= |notice| + 3 {
      var k := limit - |notice| - |SEPARATOR|;
      assert t.rendered == content[..k] + "\n\n" + notice;
    }
  }

  // ------------------------------------------------- what a run should produce

  /** One appended entry: its source, the budget it met, and what came of it. */
  datatype Entry = Entry(source: Source, budget: nat, rendered: string, charged: nat)

  /** The readable sources whose path was not loaded before, in order. */
  function Fresh(loaded: set<string>, sources: seq<Source>): seq<Source>
    decreases |sources|
  {
    if sources == [] then []
    else if sources[0].content.None? || sources[0].key in loaded then Fresh(loaded, sources[1..])
    else [sources[0]] + Fresh(loaded + {sources[0].key}, sources[1..])
  }

  function EntryFor(source: Source, budget: nat, maxSource: nat): (e: Entry)
    requires source.content.Some?
    ensures e.charged <= budget
  {
    TruncateMeaning(source.fileName, source.content.value, budget, maxSource);
    var t := Truncate(source.fileName, source.content.value, budget, maxSource);
    Entry(source, budget, t.rendered, t.charged)
  }

  /** Every source in turn, until one meets an exhausted budget. */
  function Entries(sources: seq<Source>, budget: nat, maxSource: nat): seq<Entry>
    requires forall s :: s in sources ==> s.content.Some?
  {
    if sources == [] then []
    else
      var e := EntryFor(sources[0], budget, maxSource);
      if budget == 0 then [e] else [e] + Entries(sources[1..], budget - e.charged, maxSource)
  }

  function Charged(entries: seq<Entry>): nat {
    if entries == [] then 0 else entries[0].charged + Charged(entries[1..])
  }

  function Rendered(entries: seq<Entry>): nat {
    if entries == [] then 0 else |entries[0].rendered| + Rendered(entries[1..])
  }

  function Append(m: Model, lane: Lane, content: string): Model {
    match lane
    case ToolUsagePolicy => m.(toolUsagePolicy := m.toolUsagePolicy + [content])
    case SoulGuidance => m.(soulGuidance := m.soulGuidance + [content])
    case IdentityContext => m.(identityContext := m.identityContext + [content])
    case UserContext => m.(userContext := m.userContext + [content])
  }

  function AppendAll(m: Model, entries: seq<Entry>): Model
    decreases |entries|
  {
    if entries == [] then m
    else AppendAll(Append(m, entries[0].source.lane, entries[0].rendered), entries[1..])
  }

  /** Some source listed has the path of `s`. */
  ghost predicate HasKey(news: seq<Source>, key: string) {
    exists i :: 0 <= i < |news| && news[i].key == key
  }

  lemma {:induction false} FreshMeaning(loaded: set<string>, sources: seq<Source>)
    ensures var news := Fresh(loaded, sources);
      && (forall s :: s in news ==> s.content.Some? && s.key !in loaded && s in sources)
      && (forall i, j :: 0 <= i < j < |news| ==> news[i].key != news[j].key)
      && (forall s :: s in sources && s.content.Some? && s.key !in loaded ==> HasKey(news, s.key))
    decreases |sources|
  {
    hide HasKey;
    if sources == [] {
    } else {
      var first, rest := sources[0], sources[1..];
      assert forall s :: s in sources <==> s == first || s in rest;
      if first.content.None? || first.key in loaded {
        FreshMeaning(loaded, rest);
      } else {
        FreshMeaning(loaded + {first.key}, rest);
        KeyCons(first, Fresh(loaded + {first.key}, rest));
      }
    }
  }

  lemma KeyCons(first: Source, tail: seq<Source>)
    ensures HasKey([first] + tail, first.key)
    ensures forall key :: HasKey(tail, key) ==> HasKey([first] + tail, key)
  {
    assert ([first] + tail)[0] == first;
    forall key | HasKey(tail, key) ensures HasKey([first] + tail, key) {
      var i :| 0 <= i < |tail| && tail[i].key == key;
      assert ([first] + tail)[i + 1] == tail[i];
    }
  }

  /** The budget law of a run. Each entry meets the initial budget less all
      earlier charges, which never underflows. Only the last entry can meet an
      exhausted budget; sources are left out only behind such an entry. All
      text shown exceeds the initial budget by at most one notice. */
  ghost predicate Lawful(sources: seq<Source>, entries: seq<Entry>, budget: nat) {
    && Charged(entries) <= budget
    && |entries| <= |sources|
    && (forall i :: 0 <= i < |entries| ==> entries[i].source == sources[i])
    && (forall i :: 0 <= i < |entries| ==> entries[i].budget == budget - Charged(entries[..i]))
    && (forall i :: 0 <= i < |entries| - 1 ==> entries[i].budget > 0)
    && (|entries| < |sources| ==> entries != [] && entries[|entries| - 1].budget == 0)
    && (var extra := if entries != [] && entries[|entries| - 1].budget == 0 then |entries[|entries| - 1].rendered| else 0;
        Rendered(entries) <= Charged(entries) + extra)
  }

  lemma {:induction false} RunIsLawful(sources: seq<Source>, budget: nat, maxSource: nat)
    requires forall s :: s in sources ==> s.content.Some?
    ensures Lawful(sources, Entries(sources, budget, maxSource), budget)
  {
    hide EntryFor, Lawful;
    if sources == [] {
      LawfulNothing(budget);
    } else {
      var e := EntryFor(sources[0], budget, maxSource);
      EntryMeaning(sources[0], budget, maxSource);
      if budget > 0 {
        var rest := Entries(sources[1..], budget - e.charged, maxSource);
        RunIsLawful(sources[1..], budget - e.charged, maxSource);
        LawfulCons(sources, e, rest, budget);
      } else {
        LawfulLast(sources, e);
      }
    }
  }

  lemma EntryMeaning(source: Source, budget: nat, maxSource: nat)
    requires source.content.Some?
    ensures var e := EntryFor(source, budget, maxSource);
      && e.source == source && e.budget == budget
      && (budget > 0 ==> |e.rendered| <= e.charged) && (budget == 0 ==> e.charged == 0)
  {
    hide Truncate;
    TruncateMeaning(source.fileName, source.content.value, budget, maxSource);
  }

  lemma EntryIs(source: Source, budget: nat, maxSource: nat)
    requires source.content.Some?
    ensures EntryFor(source, budget, maxSource) ==
      var t := Truncate(source.fileName, source.content.value, budget, maxSource);
      Entry(source, budget, t.rendered, t.charged)
  {
  }

  lemma LawfulNothing(budget: nat)
    ensures Lawful([], [], budget)
  {
  }

  lemma LawfulLast(sources: seq<Source>, e: Entry)
    requires sources != [] && e.source == sources[0] && e.budget == e.charged == 0
    ensures Lawful(sources, [e], 0)
  {
    assert [e][1..] == [];
  }

  lemma LawfulCons(sources: seq<Source>, e: Entry, rest: seq<Entry>, budget: nat)
    requires sources != [] && e.source == sources[0] && e.budget == budget > 0
    requires |e.rendered| <= e.charged <= budget
    requires Lawful(sources[1..], rest, budget - e.charged)
    ensures Lawful(sources, [e] + rest, budget)
  {
    var all := [e] + rest;
    assert all[1..] == rest;
    forall i | 0 <= i < |all| ensures all[i].source == sources[i] && all[i].budget == budget - Charged(all[..i]) {
      if i > 0 {
        assert all[i] == rest[i - 1];
        assert all[..i][1..] == rest[..i - 1];
      }
    }
    forall i | 0 <= i < |all| - 1 ensures all[i].budget > 0 {
      assert i > 0 ==> all[i] == rest[i - 1];
    }
  }

  /** Each entry is its source, truncated for the budget it met. */
  lemma {:induction false} EntriesAreTruncated(sources: seq<Source>, budget: nat, maxSource: nat)
    requires forall s :: s in sources ==> s.content.Some?
    ensures forall e :: e in Entries(sources, budget, maxSource) ==> IsTruncated(e, maxSource)
  {
    if sources == [] {
    } else {
      hide Truncate, EntryFor;
      var e := EntryFor(sources[0], budget, maxSource);
      EntryIs(sources[0], budget, maxSource);
      if budget > 0 {
        EntriesAreTruncated(sources[1..], budget - e.charged, maxSource);
      }
    }
  }

  ghost predicate IsTruncated(e: Entry, maxSource: nat) {
    && e.source.content.Some?
    && Truncate(e.source.fileName, e.source.content.value, e.budget, maxSource) == Truncated(e.rendered, e.charged)
  }

  /** What is shown of the entries of one lane, in order. */
  function RenderedIn(entries: seq<Entry>, lane: Lane): seq<string> {
    if entries == [] then []
    else (if entries[0].source.lane == lane then [entries[0].rendered] else []) + RenderedIn(entries[1..], lane)
  }

  /** Every entry goes to its own lane. */
  lemma {:induction false} LanesMeaning(m: Model, entries: seq<Entry>)
    ensures AppendAll(m, entries) == Model(
      m.toolUsagePolicy + RenderedIn(entries, ToolUsagePolicy), m.soulGuidance + RenderedIn(entries, SoulGuidance),
      m.identityContext + RenderedIn(entries, IdentityContext), m.userContext + RenderedIn(entries, UserContext))
    decreases |entries|
  {
    if entries == [] {
    } else {
      hide Append;
      var e, rest := entries[0], entries[1..];
      LanesMeaning(Append(m, e.source.lane, e.rendered), rest);
      AppendMeaning(m, e.source.lane, e.rendered);
      LaneCons(m.toolUsagePolicy, e, rest, ToolUsagePolicy);
      LaneCons(m.soulGuidance, e, rest, SoulGuidance);
      LaneCons(m.identityContext, e, rest, IdentityContext);
      LaneCons(m.userContext, e, rest, UserContext);
      assert entries == [e] + rest;
    }
  }

  lemma AppendMeaning(m: Model, lane: Lane, content: string)
    ensures Append(m, lane, content) == Model(
      m.toolUsagePolicy + (if lane.ToolUsagePolicy? then [content] else []),
      m.soulGuidance + (if lane.SoulGuidance? then [content] else []),
      m.identityContext + (if lane.IdentityContext? then [content] else []),
      m.userContext + (if lane.UserContext? then [content] else []))
  {
  }

  lemma LaneCons(shown: seq<string>, e: Entry, rest: seq<Entry>, lane: Lane)
    ensures shown + RenderedIn([e] + rest, lane) ==
      shown + (if e.source.lane == lane then [e.rendered] else []) + RenderedIn(rest, lane)
  {
    assert ([e] + rest)[1..] == rest;
  }

  // -------------------------------------------------------------- the procedure

  class Loader {
    var remaining: nat
    var loadedPaths: set<string>
    var model: Model

    constructor (budget: nat)
      ensures remaining == budget && loadedPaths == {} && model == EMPTY_MODEL
    {
      remaining, loadedPaths, model := budget, {}, EMPTY_MODEL;
    }

    method Ingest(source: Source, maxSource: nat) returns (appended: bool)
      requires source.content.Some?
      modifies this
      ensures appended <==> source.key !in old(loadedPaths)
      ensures loadedPaths == old(loadedPaths) + {source.key}
      ensures !appended ==> unchanged(this)
      ensures appended ==>
        var t := Truncate(source.fileName, source.content.value, old(remaining), maxSource);
        && t.charged <= old(remaining) && remaining == old(remaining) - t.charged
        && model == Append(old(model), source.lane, t.rendered)
        && model.toolUsagePolicy == old(model).toolUsagePolicy + (if source.lane.ToolUsagePolicy? then [t.rendered] else [])
        && model.soulGuidance == old(model).soulGuidance + (if source.lane.SoulGuidance? then [t.rendered] else [])
        && model.identityContext == old(model).identityContext + (if source.lane.IdentityContext? then [t.rendered] else [])
        && model.userContext == old(model).userContext + (if source.lane.UserContext? then [t.rendered] else [])
    {
      if source.key in loadedPaths {
        return false;
      }
      loadedPaths := loadedPaths + {source.key};
      TruncateMeaning(source.fileName, source.content.value, remaining, maxSource);
      var t := Truncate(source.fileName, source.content.value, remaining, maxSource);
      remaining := remaining - Least(t.charged, remaining);
      model := Append(model, source.lane, t.rendered);
      appended := true;
    }
  }

  /** What is still to come when the loop has loaded some paths. */
  function Coming(loaded: set<string>, remaining: nat, sources: seq<Source>, maxSource: nat): seq<Entry> {
    FreshMeaning(loaded, sources);
    Entries(Fresh(loaded, sources), remaining, maxSource)
  }

  ghost predicate Outcome(m: Model, remaining: nat, coming: seq<Entry>, model: Model, left: int) {
    AppendAll(m, coming) == model && remaining - Charged(coming) == left
  }

  lemma SkipSource(loaded: set<string>, remaining: nat, sources: seq<Source>, maxSource: nat)
    requires sources != [] && (sources[0].content.None? || sources[0].key in loaded)
    ensures Coming(loaded, remaining, sources, maxSource) == Coming(loaded, remaining, sources[1..], maxSource)
  {
  }

  lemma TakeSource(loaded: set<string>, remaining: nat, sources: seq<Source>, maxSource: nat)
    requires sources != [] && sources[0].content.Some? && sources[0].key !in loaded
    ensures var e := EntryFor(sources[0], remaining, maxSource);
      Coming(loaded, remaining, sources, maxSource) ==
      [e] + (if remaining == 0 then []
             else Coming(loaded + {sources[0].key}, remaining - e.charged, sources[1..], maxSource))
  {
    hide EntryFor;
    FreshMeaning(loaded, sources);
    var news := Fresh(loaded, sources);
    assert news[1..] == Fresh(loaded + {sources[0].key}, sources[1..]);
  }

  lemma OutcomeCons(m: Model, remaining: nat, e: Entry, rest: seq<Entry>, model: Model, left: int)
    requires Outcome(m, remaining, [e] + rest, model, left) && e.charged <= remaining
    ensures Outcome(Append(m, e.source.lane, e.rendered), remaining - e.charged, rest, model, left)
  {
    hide Append;
    assert ([e] + rest)[1..] == rest;
  }

  /** The model holds exactly the entries of the run, in order, and the budget
      left is the initial one less everything charged. */
  method LoadRuntimeSelfModel(sources: seq<Source>, budget: nat, maxSource: nat)
    returns (model: Model, remaining: nat)
    ensures var entries := Coming({}, budget, sources, maxSource);
      && Lawful(Fresh({}, sources), entries, budget)
      && remaining == budget - Charged(entries)
      && (forall e :: e in entries ==> IsTruncated(e, maxSource))
      && model == Model(RenderedIn(entries, ToolUsagePolicy), RenderedIn(entries, SoulGuidance),
                        RenderedIn(entries, IdentityContext), RenderedIn(entries, UserContext))
  {
    hide IsTruncated, RenderedIn, Lawful, EntryFor, Append, Coming, Outcome;
    var loader := new Loader(budget);
    ghost var entries := Coming({}, budget, sources, maxSource);
    ComingIsLawful(sources, budget, maxSource);
    ghost var final, left := AppendAll(EMPTY_MODEL, entries), budget - Charged(entries);
    OutcomeStart(EMPTY_MODEL, budget, entries);
    var i, stopped := 0, false;
    assert sources[0..] == sources;
    while i < |sources| && !stopped
      invariant i <= |sources| && fresh(loader)
      invariant Outcome(loader.model, loader.remaining,
                        if stopped then [] else Coming(loader.loadedPaths, loader.remaining, sources[i..], maxSource),
                        final, left)
      decreases |sources| - i, !stopped
    {
      var source := sources[i];
      ghost var ahead, rest := sources[i..], sources[i + 1..];
      assert ahead[0] == source && ahead[1..] == rest;
      if source.content.None? || source.key in loader.loadedPaths {
        SkipSource(loader.loadedPaths, loader.remaining, ahead, maxSource);
      } else {
        ghost var e := EntryFor(source, loader.remaining, maxSource);
        TakeSource(loader.loadedPaths, loader.remaining, ahead, maxSource);
        EntryMeaning(source, loader.remaining, maxSource);
        OutcomeCons(loader.model, loader.remaining, e,
                    if loader.remaining == 0 then []
                    else Coming(loader.loadedPaths + {source.key}, loader.remaining - e.charged, rest, maxSource),
                    final, left);
      }
      if source.content.Some? {
        EntryIs(source, loader.remaining, maxSource);
        var exhausted := loader.remaining == 0;
        var appended := loader.Ingest(source, maxSource);
        stopped := exhausted && appended;
      }
      i := i + 1;
    }
    NothingComing(loader.loadedPaths, loader.remaining, maxSource);
    OutcomeEnd(loader.model, loader.remaining, final, left);
    model, remaining := loader.model, loader.remaining;
    LanesMeaning(EMPTY_MODEL, entries);
  }

  lemma ComingIsLawful(sources: seq<Source>, budget: nat, maxSource: nat)
    ensures Lawful(Fresh({}, sources), Coming({}, budget, sources, maxSource), budget)
    ensures forall e :: e in Coming({}, budget, sources, maxSource) ==> IsTruncated(e, maxSource)
  {
    hide Lawful, IsTruncated;
    EntriesAreTruncatedFor(sources, budget, maxSource);
    FreshMeaning({}, sources);
    RunIsLawful(Fresh({}, sources), budget, maxSource);
  }

  lemma EntriesAreTruncatedFor(sources: seq<Source>, budget: nat, maxSource: nat)
    ensures forall e :: e in Coming({}, budget, sources, maxSource) ==> IsTruncated(e, maxSource)
  {
    hide IsTruncated;
    FreshMeaning({}, sources);
    EntriesAreTruncated(Fresh({}, sources), budget, maxSource);
  }

  lemma OutcomeStart(m: Model, remaining: nat, coming: seq<Entry>)
    ensures Outcome(m, remaining, coming, AppendAll(m, coming), remaining - Charged(coming))
  {
  }

  lemma OutcomeEnd(m: Model, remaining: nat, model: Model, left: int)
    requires Outcome(m, remaining, [], model, left)
    ensures m == model && remaining == left
  {
  }

  lemma NothingComing(loaded: set<string>, remaining: nat, maxSource: nat)
    ensures Coming(loaded, remaining, [], maxSource) == []
  {
  }
}
