/** Selections of a Sigma rule: predicates over one event (server/app/detection/sigma.py:65-113). */
module SigmaSelection {
  import opened Text
  import opened TextSearch

  /** The detail keys are lower-cased already; a detail may be null. */
  datatype Event = Event(details: map<string, Option<string>>, commandLine: string, haystack: string)

  /** A mapping of `Field|modifier` to values, a list of keywords, or one keyword. */
  datatype Spec = Mapping(entries: seq<Entry>) | Keywords(words: seq<string>) | Keyword(word: string)

  datatype Entry = Entry(key: string, values: seq<string>)

  /** Regular-expression search: none for an invalid expression. */
  type Search = (string, string) -> Option<bool>

  const COMMAND_FIELDS := {"commandline", "cmdline", "image", "process", "processpath", "originalfilename", "targetobject", "targetfilename"}
  const NAME_FIELDS := {"processname", "name", "imagename"}

  function FieldOf(e: Entry): string {
    Split(e.key, '|')[0]
  }

  function ModifiersOf(e: Entry): seq<string> {
    Split(e.key, '|')[1..]
  }

  /** What an event reports for a field, empty if nothing. A null `name` is spelled out when another field falls back to it. */
  function FieldValue(ev: Event, field: string): string {
    var key := Lower(field);
    if key in ev.details && ev.details[key].Some? then ev.details[key].value
    else if key in COMMAND_FIELDS then ev.commandLine
    else if key in NAME_FIELDS then
      if "name" !in ev.details then "" else if ev.details["name"].Some? then ev.details["name"].value else "None"
    else ""
  }

  predicate MatchValue(modifiers: seq<string>, raw: string, value: string, search: Search) {
    if "re" in modifiers then search(value, raw) == Some(true)
    else
      var (fv, v) := (Lower(raw), Lower(value));
      if "contains" in modifiers then Contains(fv, v)
      else if "startswith" in modifiers then StartsWith(fv, v)
      else if "endswith" in modifiers then EndsWith(fv, v)
      else fv == v
  }

  predicate MatchEntry(e: Entry, ev: Event, search: Search) {
    var raw := FieldValue(ev, FieldOf(e));
    if "all" in ModifiersOf(e) then forall i :: 0 <= i < |e.values| ==> MatchValue(ModifiersOf(e), raw, e.values[i], search)
    else exists i :: 0 <= i < |e.values| && MatchValue(ModifiersOf(e), raw, e.values[i], search)
  }

  predicate Selects(spec: Spec, ev: Event, search: Search) {
    match spec
    case Mapping(entries) => forall i :: 0 <= i < |entries| ==> MatchEntry(entries[i], ev, search)
    case Keywords(words) => exists i :: 0 <= i < |words| && Contains(ev.haystack, Lower(words[i]))
    case Keyword(word) => Contains(ev.haystack, Lower(word))
  }

  // ---- What a selection means, in terms of texts ----

  /** Whether a field matches a value. Of several modifiers `re` wins over `contains`, that over `startswith`, and that over
      `endswith`; case is folded except for `re`. */
  ghost predicate ValueMeans(modifiers: seq<string>, field: string, value: string, search: Search) {
    if "re" in modifiers then search(value, field) == Some(true)
    else if "contains" in modifiers then exists before, after :: Lower(field) == before + Lower(value) + after
    else if "startswith" in modifiers then exists after :: Lower(field) == Lower(value) + after
    else if "endswith" in modifiers then exists before :: Lower(field) == before + Lower(value)
    else Lower(field) == Lower(value)
  }

  /** What an event reports for a field: the detail of that name; failing that, the command line for the fields that Sigma has
      for it, the process name for those it has for that; failing that nothing. */
  ghost predicate ReportsField(ev: Event, field: string, text: string) {
    var key := Lower(field);
    if key in ev.details && ev.details[key] != None then ev.details[key] == Some(text)
    else if key in {"image", "process", "processpath", "commandline", "cmdline", "originalfilename", "targetobject", "targetfilename"}
    then text == ev.commandLine
    else if key in {"name", "processname", "imagename"} && "name" in ev.details
    then ev.details["name"] == Some(text) || (ev.details["name"] == None && text == "None")
    else text == ""
  }

  /** All values must match with the modifier `all`, else one of them. */
  ghost predicate EntryMeans(name: string, modifiers: seq<string>, values: seq<string>, ev: Event, search: Search) {
    forall text :: ReportsField(ev, name, text) ==> ValuesMean(modifiers, text, values, search)
  }

  ghost predicate ValuesMean(modifiers: seq<string>, text: string, values: seq<string>, search: Search) {
    if "all" in modifiers then forall v <- values :: ValueMeans(modifiers, text, v, search)
    else exists v <- values :: ValueMeans(modifiers, text, v, search)
  }

  /** A key is a field name and modifiers, with bars between. */
  predicate Spells(key: string, name: string, modifiers: seq<string>) {
    key == Join("|", [name] + modifiers) && '|' !in name && forall i :: 0 <= i < |modifiers| ==> '|' !in modifiers[i]
  }

  ghost predicate SelectionMeans(spec: Spec, ev: Event, search: Search) {
    match spec
    case Mapping(entries) =>
      forall e <- entries, name, modifiers :: Spells(e.key, name, modifiers) ==> EntryMeans(name, modifiers, e.values, ev, search)
    case Keywords(words) => exists w <- words, before, after :: ev.haystack == before + Lower(w) + after
    case Keyword(word) => exists before, after :: ev.haystack == before + Lower(word) + after
  }

  lemma MatchValueMeans(modifiers: seq<string>, field: string, value: string, search: Search)
    ensures MatchValue(modifiers, field, value, search) <==> ValueMeans(modifiers, field, value, search)
  {
    ContainsMeans(Lower(field), Lower(value));
    StartsMeans(Lower(field), Lower(value));
    EndsMeans(Lower(field), Lower(value));
  }

  lemma FieldValueMeans(ev: Event, field: string, text: string)
    ensures ReportsField(ev, field, text) <==> text == FieldValue(ev, field)
  {
  }

  /** A key is spelled in one way, and read so. */
  lemma KeyReads(e: Entry, name: string, modifiers: seq<string>)
    ensures Spells(e.key, name, modifiers) <==> name == FieldOf(e) && modifiers == ModifiersOf(e)
  {
    JoinSplit(e.key, '|');
    PartsFree(e.key, '|');
    assert [FieldOf(e)] + ModifiersOf(e) == Split(e.key, '|');
    if Spells(e.key, name, modifiers) {
      SplitJoined([name] + modifiers, '|');
    }
  }

  lemma MatchEntryMeans(e: Entry, ev: Event, search: Search)
    ensures MatchEntry(e, ev, search) <==> EntryMeans(FieldOf(e), ModifiersOf(e), e.values, ev, search)
  {
    var text := FieldValue(ev, FieldOf(e));
    forall t
      ensures ReportsField(ev, FieldOf(e), t) <==> t == text
    {
      FieldValueMeans(ev, FieldOf(e), t);
    }
    ValuesMatch(e, ev, search);
  }

  lemma ValuesMatch(e: Entry, ev: Event, search: Search)
    ensures MatchEntry(e, ev, search) <==> ValuesMean(ModifiersOf(e), FieldValue(ev, FieldOf(e)), e.values, search)
  {
    var modifiers, text := ModifiersOf(e), FieldValue(ev, FieldOf(e));
    forall i | 0 <= i < |e.values|
      ensures MatchValue(modifiers, text, e.values[i], search) <==> ValueMeans(modifiers, text, e.values[i], search)
    {
      MatchValueMeans(modifiers, text, e.values[i], search);
    }
    if "all" !in modifiers {
      if i :| 0 <= i < |e.values| && MatchValue(modifiers, text, e.values[i], search) {
        assert e.values[i] in e.values && ValueMeans(modifiers, text, e.values[i], search);
      }
      if v :| v in e.values && ValueMeans(modifiers, text, v, search) {
        var i :| 0 <= i < |e.values| && e.values[i] == v;
        assert MatchValue(modifiers, text, e.values[i], search);
      }
    }
  }

  lemma MappingMeans(entries: seq<Entry>, ev: Event, search: Search)
    ensures Selects(Mapping(entries), ev, search) <==> SelectionMeans(Mapping(entries), ev, search)
  {
    forall e
      ensures MatchEntry(e, ev, search) <==>
        forall name, modifiers :: Spells(e.key, name, modifiers) ==> EntryMeans(name, modifiers, e.values, ev, search)
    {
      MatchEntryMeans(e, ev, search);
      KeyReads(e, FieldOf(e), ModifiersOf(e));
      forall name, modifiers | Spells(e.key, name, modifiers)
        ensures name == FieldOf(e) && modifiers == ModifiersOf(e)
      {
        KeyReads(e, name, modifiers);
      }
    }
  }

  /** Compiled selections do what they mean. */
  lemma SelectsMeans(spec: Spec, ev: Event, search: Search)
    ensures Selects(spec, ev, search) <==> SelectionMeans(spec, ev, search)
  {
    match spec {
      case Mapping(entries) => MappingMeans(entries, ev, search);
      case Keyword(word) => ContainsMeans(ev.haystack, Lower(word));
      case Keywords(words) =>
        forall w
          ensures Contains(ev.haystack, Lower(w)) <==> exists before, after :: ev.haystack == before + Lower(w) + after
        {
          ContainsMeans(ev.haystack, Lower(w));
        }
        assert forall w :: w in words <==> exists i :: 0 <= i < |words| && words[i] == w;
    }
  }

  // ---- Fields an event does not report ----

  predicate Unreported(e: Entry, ev: Event) {
    FieldValue(ev, FieldOf(e)) == ""
  }

  /** A value that matches even an empty field. */
  predicate MatchesNothing(modifiers: seq<string>, value: string, search: Search) {
    if "re" in modifiers then search(value, "") == Some(true) else value == ""
  }

  /** An empty value, an expression that matches nothing, or `all` of no values. */
  predicate EntryMatchesNothing(e: Entry, search: Search) {
    if "all" in ModifiersOf(e) then forall i :: 0 <= i < |e.values| ==> MatchesNothing(ModifiersOf(e), e.values[i], search)
    else exists i :: 0 <= i < |e.values| && MatchesNothing(ModifiersOf(e), e.values[i], search)
  }

  lemma EmptyFieldMatches(modifiers: seq<string>, value: string, search: Search)
    ensures MatchValue(modifiers, "", value, search) <==> MatchesNothing(modifiers, value, search)
  {
    var v := Lower(value);
    assert Lower("") == "";
    if v == "" {
      assert OccursAt("", v, 0);
      assert value == "";
    } else {
      EmptyFree(v);
    }
  }

  lemma UnreportedEntry(e: Entry, ev: Event, search: Search)
    requires Unreported(e, ev)
    ensures MatchEntry(e, ev, search) <==> EntryMatchesNothing(e, search)
  {
    forall j | 0 <= j < |e.values|
      ensures MatchValue(ModifiersOf(e), "", e.values[j], search) <==> MatchesNothing(ModifiersOf(e), e.values[j], search)
    {
      EmptyFieldMatches(ModifiersOf(e), e.values[j], search);
    }
  }

  /** A selection with an entry on an unreported field that cannot match an empty text. */
  predicate Stopped(spec: Spec, ev: Event, search: Search) {
    spec.Mapping? && exists i :: 0 <= i < |spec.entries| && Unreported(spec.entries[i], ev) && !EntryMatchesNothing(spec.entries[i], search)
  }

  /** One such entry stops its selection, whatever the other entries say. */
  lemma StoppedNeverSelects(spec: Spec, ev: Event, search: Search)
    requires Stopped(spec, ev, search)
    ensures !Selects(spec, ev, search)
  {
    var i :| 0 <= i < |spec.entries| && Unreported(spec.entries[i], ev) && !EntryMatchesNothing(spec.entries[i], search);
    UnreportedEntry(spec.entries[i], ev, search);
  }

  /** A mapping selects exactly the events that do not stop it and that match its entries on reported fields. */
  lemma SelectsExactly(entries: seq<Entry>, ev: Event, search: Search)
    ensures Selects(Mapping(entries), ev, search)
      <==> !Stopped(Mapping(entries), ev, search)
           && forall i :: 0 <= i < |entries| && !Unreported(entries[i], ev) ==> MatchEntry(entries[i], ev, search)
  {
    forall i | 0 <= i < |entries| && Unreported(entries[i], ev)
      ensures MatchEntry(entries[i], ev, search) <==> EntryMatchesNothing(entries[i], search)
    {
      UnreportedEntry(entries[i], ev, search);
    }
  }
}
