/** Exactly when a missing condition means "all selections": the names are pasted into a condition text,
    so a name that the tokenizer or the parser does not take for one operand changes the meaning. */
module SigmaMissing {
  import opened Text
  import opened SigmaTokens
  import opened SigmaCondition
  import opened SigmaTotality
  import opened SigmaSyntax
  import opened SigmaCompiler
  import opened SigmaRules

  ghost predicate MeansAll(names: seq<string>) {
    && ConditionTree(Missing, names).Parsed?
    && forall r: Results :: Holds(ConditionTree(Missing, names).cond, names, r) <==> AllFired(names, r)
  }

  predicate NoBlank(s: string) {
    forall c <- s :: !IsSpace(c)
  }

  predicate IsParen(c: char) {
    c == '(' || c == ')'
  }

  // ---- A name without blanks holds no two adjacent words ----

  predicate Alternating(ts: seq<string>) {
    forall i :: 0 < i < |ts| ==> !(IsWord(ts[i - 1]) && IsWord(ts[i]))
  }

  function PlainLength(s: string): (n: nat)
    ensures n <= |s| && forall i :: 0 <= i < n ==> !IsParen(s[i])
    ensures n < |s| ==> IsParen(s[n])
  {
    if s == [] || IsParen(s[0]) then 0 else 1 + PlainLength(s[1..])
  }

  lemma TokenizeParenFirst(s: string)
    requires s != [] && IsParen(s[0])
    ensures Tokenize(s) == [[s[0]]] + Tokenize(s[1..])
    ensures Pad(s) != [] && IsSpace(Pad(s)[0])
  {
    var p := [s[0]];
    assert s == p + s[1..];
    PadConcat(p, s[1..]);
    PadParen(p);
    SplitConcat(" " + p + " ", Pad(s[1..]));
    TokenizeOne("", p, "");
    assert "" + p + "" == p;
  }

  lemma TokenizePlainFirst(w: string, s: string)
    requires IsWord(w) && (s == [] || IsParen(s[0]))
    ensures Tokenize(w + s) == [w] + Tokenize(s)
  {
    PadConcat(w, s);
    PadWord(w);
    if s != [] {
      TokenizeParenFirst(s);
    }
    SplitTakesWord(w, Pad(s));
  }

  lemma {:induction false} NoBlankAlternates(s: string)
    requires NoBlank(s)
    ensures Alternating(Tokenize(s))
    ensures s != [] && IsParen(s[0]) ==> Tokenize(s) != [] && !IsWord(Tokenize(s)[0])
    decreases |s|
  {
    if s == [] {
    } else if IsParen(s[0]) {
      TokenizeParenFirst(s);
      NoBlankAlternates(s[1..]);
      assert s[0] in [s[0]];
    } else {
      var n := PlainLength(s);
      var w, rest := s[..n], s[n..];
      assert s == w + rest;
      assert IsWord(w);
      TokenizePlainFirst(w, rest);
      NoBlankAlternates(rest);
    }
  }

  // ---- So no aggregate can appear between the `and`s ----

  lemma AlternatingNoAggregate(ts: seq<string>, i: nat)
    requires Alternating(ts) && (forall t <- ts :: IsToken(t)) && i + 1 < |ts|
    ensures !(IsCount(ts[i]) && Lower(ts[i + 1]) == "of")
  {
    if IsCount(ts[i]) && Lower(ts[i + 1]) == "of" {
      CountIsNotOperator(ts[i]);
      assert ts[i] in ts && ts[i + 1] in ts;
      ParensAreNoWords();
    }
  }

  lemma ParensAreNoWords()
    ensures !IsCount(")") && !IsCount("and") && Lower("and") != "of" && Lower("(") != "of" && Lower(")") != "of"
  {
    assert Lower(")") == ")" && Lower("and") == "and" && Lower("(") == "(";
    assert ')' in ")" && 'n' in "and";
  }

  ghost predicate NoAggregate(ts: seq<string>) {
    forall i :: 0 <= i && i + 1 < |ts| ==> !(IsCount(ts[i]) && Lower(ts[i + 1]) == "of")
  }

  lemma {:induction false} InterleavedNoAggregate(lists: seq<seq<string>>)
    requires forall i :: 0 <= i < |lists| ==> NoAggregate(lists[i])
    ensures NoAggregate(Interleaved("and", lists))
  {
    if lists != [] {
      var last := |lists| - 1;
      if last > 0 {
        InterleavedNoAggregate(lists[..last]);
        AppendNoAggregate(Interleaved("and", lists[..last]), lists[last]);
      } else {
        assert Interleaved("and", lists) == lists[0];
      }
    }
  }

  lemma AppendNoAggregate(a: seq<string>, b: seq<string>)
    requires NoAggregate(a) && NoAggregate(b)
    ensures NoAggregate(a + ["and"] + b)
  {
    var ts := a + ["and"] + b;
    forall i | 0 <= i && i + 1 < |ts|
      ensures !(IsCount(ts[i]) && Lower(ts[i + 1]) == "of")
    {
      ParensAreNoWords();
      if i + 1 < |a| {
        assert ts[i] == a[i] && ts[i + 1] == a[i + 1];
      } else if i > |a| {
        var j := i - |a| - 1;
        assert ts[i] == b[j] && ts[i + 1] == b[j + 1];
      }
    }
  }

  lemma JoinedNoAggregate(names: seq<string>)
    requires forall n <- names :: NoBlank(n)
    ensures NoAggregate(Tokenize(Join(" and ", names)))
  {
    KeywordsOk();
    TokenizeJoin("and", names);
    assert " " + "and" + " " == " and ";
    var lists := TokenLists(names);
    forall k | 0 <= k < |lists|
      ensures NoAggregate(lists[k])
    {
      NoBlankAlternates(names[k]);
      TokenizeKeepsText(names[k]);
      forall i | 0 <= i && i + 1 < |lists[k]|
        ensures !(IsCount(lists[k][i]) && Lower(lists[k][i + 1]) == "of")
      {
        AlternatingNoAggregate(lists[k], i);
      }
    }
    InterleavedNoAggregate(lists);
  }

  // ---- And a condition without aggregates depends only on the names in its tokens ----

  lemma {:induction false} DependsOnTokens(c: Cond, ts: seq<string>, names: seq<string>, r: Results, n: string)
    requires FromTokens(c, ts) && NoAggregate(ts)
    requires n in ts ==> n == "(" || Lower(n) == "not"
    ensures Holds(c, names, r) <==> Holds(c, names, r[n := false])
  {
    match c {
      case Never =>
      case Name(_) =>
      case Not(d) => DependsOnTokens(d, ts, names, r, n);
      case And(a, b) => DependsOnTokens(a, ts, names, r, n); DependsOnTokens(b, ts, names, r, n);
      case Or(a, b) => DependsOnTokens(a, ts, names, r, n); DependsOnTokens(b, ts, names, r, n);
      case Of(_, _) =>
    }
  }

  function AllTrue(names: seq<string>): Results {
    map n | n in names :: true
  }

  /** The names pasted together do not read `<count> of` anywhere. */
  ghost predicate PastesNoAggregate(names: seq<string>) {
    NoAggregate(Tokenize(Join(" and ", names)))
  }

  lemma NonOperandBreaks(names: seq<string>, n: string)
    requires n in names && !IsOperand(n) && PastesNoAggregate(names)
    ensures !MeansAll(names)
  {
    var text := Join(" and ", names);
    var ts := Tokenize(text);
    TokenizeKeepsText(text);
    assert SourceText(Missing, names) == text;
    ParserTotal(ts);
    var r := AllTrue(names);
    AllTrueFires(names, n);
    if ConditionTree(Missing, names).Parsed? {
      DependsOnTokens(ConditionTree(Missing, names).cond, ts, names, r, n);
    }
  }

  lemma AllTrueFires(names: seq<string>, n: string)
    requires n in names
    ensures AllFired(names, AllTrue(names)) && !AllFired(names, AllTrue(names)[n := false])
  {
    var i :| 0 <= i < |names| && names[i] == n;
    assert !Fired(AllTrue(names)[n := false], names[i]);
  }

  /** A missing condition means "all selections" exactly when each name is `)` or a blank-free, parenthesis-free
      word other than `not` - provided the pasted names do not happen to spell an aggregate. */
  lemma MissingMeansAllExactly(names: seq<string>)
    requires names != [] && PastesNoAggregate(names)
    ensures MeansAll(names) <==> forall n <- names :: IsOperand(n)
  {
    if forall n <- names :: IsOperand(n) {
      MissingIsConjunction(names, map[]);
      forall r: Results
        ensures Holds(ConditionTree(Missing, names).cond, names, r) <==> AllFired(names, r)
      {
        MissingIsConjunction(names, r);
      }
    } else {
      var n :| n in names && !IsOperand(n);
      NonOperandBreaks(names, n);
    }
  }

  /** Names without white space never spell an aggregate. */
  lemma NoBlankPastesNoAggregate(names: seq<string>)
    requires forall n <- names :: NoBlank(n)
    ensures PastesNoAggregate(names)
  {
    JoinedNoAggregate(names);
  }

  lemma TwoWords()
    ensures Tokenize("a b") == ["a", "b"]
  {
    var gaps := ["", " ", ""];
    assert IsWord("a") && IsWord("b");
    assert gaps[1..] == [" ", ""] && gaps[1..][1..] == [""] && ["a", "b"][1..] == ["b"] && ["b"][1..] == [];
    assert Lay(["b"], [" ", ""]) == " b";
    assert Lay(["a", "b"], gaps) == "a b";
    TokenizeLay(["a", "b"], gaps);
  }

  /** A rule with the single selection `a b` and no condition does not mean that selection. */
  lemma BlankInNameBreaks()
    ensures !MeansAll(["a b"])
  {
    TwoWords();
    assert Join(" and ", ["a b"]) == "a b";
    assert Lower("b")[0] == 'b';
    assert PastesNoAggregate(["a b"]);
    var n := "a b";
    assert n[1] in n;
    NonOperandBreaks([n], n);
  }
}
