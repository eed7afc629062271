/** What a compiled rule does on an event that does not report the fields of its selections
    (server/app/detection/sigma.py:22-23, 65-199, 219-233). */
module SigmaUnreported {
  import opened Text
  import D = Decimal
  import opened TextSearch
  import opened SigmaTokens
  import opened SigmaCondition
  import opened SigmaTotality
  import opened SigmaSyntax
  import opened SigmaCompiler
  import opened SigmaRules
  import opened SigmaSelection

  /** The named selections of a rule, as loaded. */
  type Specs = seq<(string, Spec)>

  function Predicates(specs: Specs, search: Search): Selections<Event> {
    seq(|specs|, i requires 0 <= i < |specs| => (specs[i].0, (ev: Event) => Selects(specs[i].1, ev, search)))
  }

  function NamesOf(specs: Specs): seq<string> {
    seq(|specs|, i requires 0 <= i < |specs| => specs[i].0)
  }

  predicate AllStopped(specs: Specs, ev: Event, search: Search) {
    forall i :: 0 <= i < |specs| ==> Stopped(specs[i].1, ev, search)
  }

  function Tree(specs: Specs, condition: Condition): Parse {
    ConditionTree(condition, NamesOf(specs))
  }

  ghost predicate Matches(specs: Specs, condition: Condition, ev: Event, search: Search)
    requires Tree(specs, condition).Parsed?
  {
    Holds(Tree(specs, condition).cond, NamesOf(specs), ResultsOf(Predicates(specs, search), ev))
  }

  // ---- The exact condition ----

  /** A condition that holds when no selection fires: read off its text, whatever the names. */
  predicate HoldsOfNothing(c: Cond) {
    match c
    case Never => false
    case Name(_) => false
    case Not(d) => !HoldsOfNothing(d)
    case And(a, b) => HoldsOfNothing(a) && HoldsOfNothing(b)
    case Or(a, b) => HoldsOfNothing(a) || HoldsOfNothing(b)
    case Of(count, _) => Lower(count) != "all" && Lower(count) != "any" && D.IsDecimal(count) && D.Number(count) == 0
  }

  lemma {:induction false} NothingFired(c: Cond, names: seq<string>, r: Results)
    requires forall n :: !Fired(r, n)
    ensures Holds(c, names, r) <==> HoldsOfNothing(c)
  {
    match c {
      case Never =>
      case Name(_) =>
      case Not(d) => NothingFired(d, names, r);
      case And(a, b) => NothingFired(a, names, r); NothingFired(b, names, r);
      case Or(a, b) => NothingFired(a, names, r); NothingFired(b, names, r);
      case Of(count, group) => assert FiredMembers(group, names, r) == {};
    }
  }

  lemma {:induction false} NoneSelected(selections: Selections<Event>, ev: Event, n: string)
    requires forall i :: 0 <= i < |selections| && selections[i].0 == n ==> !selections[i].1(ev)
    ensures !Fired(ResultsOf(selections, ev), n)
  {
    if selections != [] {
      NoneSelected(selections[..|selections| - 1], ev, n);
    }
  }

  /** A stopped selection counts as one that did not fire. */
  lemma StoppedNotFired(specs: Specs, ev: Event, search: Search, n: string)
    requires forall i :: 0 <= i < |specs| && specs[i].0 == n ==> Stopped(specs[i].1, ev, search)
    ensures !Fired(ResultsOf(Predicates(specs, search), ev), n)
  {
    var selections := Predicates(specs, search);
    forall i | 0 <= i < |selections| && selections[i].0 == n
      ensures !selections[i].1(ev)
    {
      StoppedNeverSelects(specs[i].1, ev, search);
    }
    NoneSelected(selections, ev, n);
  }

  /** A rule all of whose selections are stopped matches exactly when its condition holds of nothing. */
  lemma StoppedMatchesExactly(specs: Specs, condition: Condition, ev: Event, search: Search)
    requires Tree(specs, condition).Parsed? && AllStopped(specs, ev, search)
    ensures Matches(specs, condition, ev, search) <==> HoldsOfNothing(Tree(specs, condition).cond)
  {
    var r := ResultsOf(Predicates(specs, search), ev);
    forall n
      ensures !Fired(r, n)
    {
      StoppedNotFired(specs, ev, search, n);
    }
    NothingFired(Tree(specs, condition).cond, NamesOf(specs), r);
  }

  /** The event reports none of the fields that the rule's mappings name. */
  predicate Silent(specs: Specs, ev: Event) {
    forall i :: 0 <= i < |specs| && specs[i].1.Mapping? ==>
      forall j :: 0 <= j < |specs[i].1.entries| ==> Unreported(specs[i].1.entries[j], ev)
  }

  /** Whether a selection fires then: a mapping by its values alone, keywords by the event's text. */
  predicate FiresBlank(spec: Spec, haystack: string, search: Search) {
    match spec
    case Mapping(entries) => forall j :: 0 <= j < |entries| ==> EntryMatchesNothing(entries[j], search)
    case Keywords(words) => exists i :: 0 <= i < |words| && Contains(haystack, Lower(words[i]))
    case Keyword(word) => Contains(haystack, Lower(word))
  }

  function BlankResults(specs: Specs, haystack: string, search: Search): Results {
    if specs == [] then map[]
    else
      var last := specs[|specs| - 1];
      BlankResults(specs[..|specs| - 1], haystack, search)[last.0 := FiresBlank(last.1, haystack, search)]
  }

  lemma SilentSpec(spec: Spec, ev: Event, search: Search)
    requires spec.Mapping? ==> forall j :: 0 <= j < |spec.entries| ==> Unreported(spec.entries[j], ev)
    ensures Selects(spec, ev, search) <==> FiresBlank(spec, ev.haystack, search)
  {
    if spec.Mapping? {
      forall j | 0 <= j < |spec.entries|
        ensures MatchEntry(spec.entries[j], ev, search) <==> EntryMatchesNothing(spec.entries[j], search)
      {
        UnreportedEntry(spec.entries[j], ev, search);
      }
    }
  }

  lemma {:induction false} SilentResults(specs: Specs, ev: Event, search: Search)
    requires Silent(specs, ev)
    ensures ResultsOf(Predicates(specs, search), ev) == BlankResults(specs, ev.haystack, search)
  {
    if specs != [] {
      var front := specs[..|specs| - 1];
      SilentResults(front, ev, search);
      SilentSpec(specs[|specs| - 1].1, ev, search);
      assert Predicates(specs, search)[..|specs| - 1] == Predicates(front, search);
    }
  }

  /** On an event that reports none of its fields a rule matches exactly when its condition holds of what the values of each
      selection make of an empty text - which, keywords aside, is read off the rule alone. */
  lemma UnreportedMatchesExactly(specs: Specs, condition: Condition, ev: Event, search: Search)
    requires Tree(specs, condition).Parsed? && Silent(specs, ev)
    ensures Matches(specs, condition, ev, search)
      <==> Holds(Tree(specs, condition).cond, NamesOf(specs), BlankResults(specs, ev.haystack, search))
  {
    SilentResults(specs, ev, search);
  }

  /** So a rule of mappings matches all such events or none. */
  lemma {:induction false} MappingsIgnoreText(specs: Specs, haystack: string, other: string, search: Search)
    requires forall i :: 0 <= i < |specs| ==> specs[i].1.Mapping?
    ensures BlankResults(specs, haystack, search) == BlankResults(specs, other, search)
  {
    if specs != [] {
      MappingsIgnoreText(specs[..|specs| - 1], haystack, other, search);
    }
  }

  // ---- The compiler of a whole rule ----

  predicate DistinctNames(specs: Specs) {
    forall i, j :: 0 <= i < j < |specs| ==> specs[i].0 != specs[j].0
  }

  /** The result map says of each selection whether the event means it, and of nothing else that it fired. */
  ghost predicate Reads(r: Results, specs: Specs, ev: Event, search: Search) {
    && (forall i :: 0 <= i < |specs| ==> (Fired(r, specs[i].0) <==> SelectionMeans(specs[i].1, ev, search)))
    && forall n :: Fired(r, n) ==> n in NamesOf(specs)
  }

  lemma {:induction false} SameResults(c: Cond, names: seq<string>, r: Results, s: Results)
    requires forall n :: Fired(r, n) <==> Fired(s, n)
    ensures Holds(c, names, r) <==> Holds(c, names, s)
  {
    match c {
      case Never =>
      case Name(_) =>
      case Not(d) => SameResults(d, names, r, s);
      case And(a, b) => SameResults(a, names, r, s); SameResults(b, names, r, s);
      case Or(a, b) => SameResults(a, names, r, s); SameResults(b, names, r, s);
      case Of(_, group) => assert FiredMembers(group, names, r) == FiredMembers(group, names, s);
    }
  }

  /** A rule whose selections have different names matches exactly the events of which its condition holds, each selection taken
      by what it means. */
  lemma MatchesMeaning(specs: Specs, condition: Condition, ev: Event, search: Search, r: Results)
    requires Tree(specs, condition).Parsed? && DistinctNames(specs) && Reads(r, specs, ev, search)
    ensures Matches(specs, condition, ev, search) <==> Holds(Tree(specs, condition).cond, NamesOf(specs), r)
  {
    var selections := Predicates(specs, search);
    var s := ResultsOf(selections, ev);
    forall i | 0 <= i < |specs|
      ensures Fired(s, specs[i].0) <==> Fired(r, specs[i].0)
    {
      ResultsOfReads(selections, ev, i);
      SelectsMeans(specs[i].1, ev, search);
    }
    forall n
      ensures Fired(s, n) <==> Fired(r, n)
    {
      if n !in NamesOf(specs) {
        assert forall i :: 0 <= i < |specs| ==> NamesOf(specs)[i] == specs[i].0;
        NoneSelected(selections, ev, n);
      } else {
        var i :| 0 <= i < |specs| && NamesOf(specs)[i] == n;
      }
    }
    SameResults(Tree(specs, condition).cond, NamesOf(specs), s, r);
  }

  method CompileSigma(specs: Specs, condition: Condition, search: Search) returns (rule: Rule<Event>)
    ensures rule.NoSelections? <==> specs == []
    ensures rule.ReadsPastEnd? <==> specs != [] && Tree(specs, condition).IndexError?
    ensures rule.Compiled? ==> forall ev :: rule.matches(ev) <==> Matches(specs, condition, ev, search)
    ensures rule.Compiled? && DistinctNames(specs) ==> forall ev, r :: Reads(r, specs, ev, search) ==>
      (rule.matches(ev) <==> Holds(Tree(specs, condition).cond, NamesOf(specs), r))
    ensures rule.Compiled? ==> forall ev :: Silent(specs, ev) ==>
      (rule.matches(ev) <==> Holds(Tree(specs, condition).cond, NamesOf(specs), BlankResults(specs, ev.haystack, search)))
  {
    var selections := Predicates(specs, search);
    assert Names(selections) == NamesOf(specs);
    rule := CompileRule(selections, condition);
    if rule.Compiled? {
      forall ev | Silent(specs, ev)
        ensures rule.matches(ev) <==> Holds(Tree(specs, condition).cond, NamesOf(specs), BlankResults(specs, ev.haystack, search))
      {
        UnreportedMatchesExactly(specs, condition, ev, search);
      }
      forall ev, r | DistinctNames(specs) && Reads(r, specs, ev, search)
        ensures rule.matches(ev) <==> Holds(Tree(specs, condition).cond, NamesOf(specs), r)
      {
        MatchesMeaning(specs, condition, ev, search, r);
      }
    }
  }

  // ---- When the promise is kept ----

  predicate NoZero(ts: seq<string>) {
    forall t <- ts :: D.IsDecimal(t) ==> D.Number(t) > 0
  }

  lemma {:induction false} WrittenNeverHolds(c: Cond, ts: seq<string>)
    requires FromTokens(c, ts) && Positive(c) && NoZero(ts)
    ensures !HoldsOfNothing(c)
  {
    match c {
      case Never =>
      case Name(_) =>
      case And(a, b) => WrittenNeverHolds(a, ts); WrittenNeverHolds(b, ts);
      case Or(a, b) => WrittenNeverHolds(a, ts); WrittenNeverHolds(b, ts);
      case Of(count, group) =>
        var k: nat :| AggregateAt(ts, k) && ts[k] == count && ts[k + 2] == group;
        assert ts[k] in ts;
    }
  }

  /** A rule whose condition contains no `not` and no count of zero does not match an event that stops all its selections. */
  lemma PositiveRuleIsQuiet(specs: Specs, condition: Condition, ev: Event, search: Search)
    requires Tree(specs, condition).Parsed? && AllStopped(specs, ev, search)
    requires var ts := Tokenize(SourceText(condition, NamesOf(specs))); NotFree(ts) && NoZero(ts)
    ensures !Matches(specs, condition, ev, search)
  {
    var ts := Tokenize(SourceText(condition, NamesOf(specs)));
    ExprSound(ts, ts);
    WrittenNeverHolds(Tree(specs, condition).cond, ts);
    StoppedMatchesExactly(specs, condition, ev, search);
  }

  // ---- When it is not ----

  lemma FooField()
    ensures FieldOf(Entry("foo", ["bar"])) == FieldOf(Entry("foo", [""])) == "foo"
    ensures ModifiersOf(Entry("foo", ["bar"])) == ModifiersOf(Entry("foo", [""])) == []
  {
    SplitAbsent("foo", '|');
  }

  lemma NotSTokens()
    ensures Tokenize("not s") == ["not", "s"]
  {
    var gaps := ["", " ", ""];
    assert IsWord("not") && IsWord("s");
    assert gaps[1..] == [" ", ""] && gaps[1..][1..] == [""] && ["not", "s"][1..] == ["s"] && ["s"][1..] == [];
    assert Lay(["s"], [" ", ""]) == " s";
    assert Lay(["not", "s"], gaps) == "not s";
    TokenizeLay(["not", "s"], gaps);
  }

  lemma NegationParses(n: string)
    requires IsName(n)
    ensures ParseExpr(["not", n]) == Parsed(Not(Name(n)), [])
  {
    var ts := ["not", n];
    KeywordsOk();
    NameReads(n, []);
    assert [n] + [] == [n] == ts[1..];
    assert ParseFactor(ts) == Parsed(Not(Name(n)), []);
    assert ParseTerm(ts) == Parsed(Not(Name(n)), []);
  }

  lemma NotSReads(names: seq<string>)
    ensures ConditionTree(One("not s"), names) == Parsed(Not(Name("s")), [])
  {
    NotSTokens();
    assert Lower("s")[0] == 's';
    NegationParses("s");
  }

  lemma FooStopped(ev: Event, search: Search)
    requires FieldValue(ev, "foo") == ""
    ensures Stopped(Mapping([Entry("foo", ["bar"])]), ev, search)
  {
    FooField();
    var entries := [Entry("foo", ["bar"])];
    assert Unreported(entries[0], ev) && !EntryMatchesNothing(entries[0], search);
  }

  /** The rule `not s` on an unreported field matches every event. */
  lemma NegatedRuleMatches(ev: Event, search: Search)
    requires FieldValue(ev, "foo") == ""
    ensures var specs := [("s", Mapping([Entry("foo", ["bar"])]))];
      Tree(specs, One("not s")).Parsed? && Matches(specs, One("not s"), ev, search)
  {
    var specs := [("s", Mapping([Entry("foo", ["bar"])]))];
    NotSReads(NamesOf(specs));
    FooStopped(ev, search);
    StoppedMatchesExactly(specs, One("not s"), ev, search);
  }

  lemma SingleBlank(n: string, e: Entry, haystack: string, search: Search)
    requires EntryMatchesNothing(e, search)
    ensures BlankResults([(n, Mapping([e]))], haystack, search) == map[n := true]
  {
    var specs: Specs := [(n, Mapping([e]))];
    assert specs[..0] == [];
    assert FiresBlank(specs[0].1, haystack, search);
    assert BlankResults(specs, haystack, search) == map[][n := true];
  }

  /** So does the rule whose one selection asks for an empty value. */
  lemma EmptyValueMatches(ev: Event, search: Search)
    requires FieldValue(ev, "foo") == ""
    ensures var specs := [("s", Mapping([Entry("foo", [""])]))];
      Tree(specs, Missing).Parsed? && Matches(specs, Missing, ev, search)
  {
    var specs := [("s", Mapping([Entry("foo", [""])]))];
    FooField();
    assert NamesOf(specs) == ["s"];
    assert Lower("s")[0] == 's';
    assert IsOperand("s");
    var e := specs[0].1.entries[0];
    assert MatchesNothing(ModifiersOf(e), e.values[0], search);
    assert EntryMatchesNothing(e, search);
    SingleBlank("s", e, ev.haystack, search);
    var r := map["s" := true];
    MissingIsConjunction(["s"], r);
    UnreportedMatchesExactly(specs, Missing, ev, search);
  }
}
