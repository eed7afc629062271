/** Whole rules: lists of conditions, a missing condition, and the predicate of a compiled rule
    (server/app/detection/sigma.py:121-124, 210-243). */
module SigmaRules {
  import opened Text
  import opened SigmaTokens
  import opened SigmaCondition
  import opened SigmaTotality
  import opened SigmaSyntax
  import opened SigmaCompiler

  // ---- Tokens of joined texts ----

  lemma TokenizeSeparated(s: string, kw: string, t: string)
    requires IsWord(kw)
    ensures Tokenize(s + (" " + kw + " ") + t) == Tokenize(s) + [kw] + Tokenize(t)
  {
    var sep := " " + kw + " ";
    TokenizeOne(" ", kw, " ");
    TokenizeConcat(s, sep);
    assert (s + sep)[|s + sep| - 1] == ' ';
    TokenizeConcat(s + sep, t);
  }

  lemma {:induction false} JoinLast(sep: string, parts: seq<string>)
    requires |parts| >= 2
    ensures Join(sep, parts) == Join(sep, parts[..|parts| - 1]) + sep + parts[|parts| - 1]
  {
    var last := |parts| - 1;
    if last > 1 {
      JoinLast(sep, parts[1..]);
      assert parts[1..][..last - 1] == parts[..last][1..];
    }
  }

  /** The token lists with `kw` between them. */
  function Interleaved(kw: string, lists: seq<seq<string>>): seq<string> {
    if lists == [] then []
    else
      var last := |lists| - 1;
      (if last == 0 then [] else Interleaved(kw, lists[..last]) + [kw]) + lists[last]
  }

  function TokenLists(texts: seq<string>): seq<seq<string>> {
    seq(|texts|, i requires 0 <= i < |texts| => Tokenize(texts[i]))
  }

  lemma {:induction false} TokenizeJoin(kw: string, texts: seq<string>)
    requires IsWord(kw)
    ensures Tokenize(Join(" " + kw + " ", texts)) == Interleaved(kw, TokenLists(texts))
  {
    if |texts| > 1 {
      var last := |texts| - 1;
      TokenizeJoin(kw, texts[..last]);
      JoinLast(" " + kw + " ", texts);
      TokenizeSeparated(Join(" " + kw + " ", texts[..last]), kw, texts[last]);
      assert TokenLists(texts)[..last] == TokenLists(texts[..last]);
    }
  }

  lemma TokenizeJoinOr(texts: seq<string>)
    ensures Tokenize(Join(" or ", texts)) == Interleaved("or", TokenLists(texts))
  {
    KeywordsOk();
    TokenizeJoin("or", texts);
    assert " " + "or" + " " == " or ";
  }

  lemma TokenizeParenthesized(text: string)
    ensures Tokenize("( " + text + " )") == ["("] + Tokenize(text) + [")"]
  {
    TokenizeOne("", "(", " ");
    assert "" + "(" + " " == "( ";
    TokenizeOne(" ", ")", "");
    assert " " + ")" + "" == " )";
    TokenizeConcat("( ", text);
    TokenizeConcat("( " + text, " )");
  }

  // ---- A list of conditions is their disjunction ----

  /** A condition text that the grammar reads without leftovers. */
  ghost predicate ReadsAs(text: string, e: Expr) {
    ExprOk(e) && Tokenize(text) == ExprTokens(e)
  }

  function Disjunction(es: seq<Expr>): Expr
    requires es != []
  {
    var last := OneFactor(Group(es[|es| - 1]));
    if |es| == 1 then OneTerm(last) else OrElse(Disjunction(es[..|es| - 1]), "or", last)
  }

  lemma GroupTokens(e: Expr)
    requires ExprOk(e)
    ensures var t := OneFactor(Group(e)); TermOk(t) && TermTokens(t) == ["("] + ExprTokens(e) + [")"]
  {
    var f := Group(e);
    assert FactorOk(f) && FactorTokens(f) == ["("] + ExprTokens(e) + [")"];
  }

  lemma {:induction false} DisjunctionTokens(lists: seq<seq<string>>, es: seq<Expr>)
    requires |lists| == |es| > 0
    requires forall i :: 0 <= i < |es| ==> ExprOk(es[i]) && lists[i] == ["("] + ExprTokens(es[i]) + [")"]
    ensures ExprOk(Disjunction(es)) && ExprTokens(Disjunction(es)) == Interleaved("or", lists)
  {
    var last := |es| - 1;
    GroupTokens(es[last]);
    if last > 0 {
      DisjunctionTokens(lists[..last], es[..last]);
    }
  }

  lemma {:induction false} DisjunctionHolds(es: seq<Expr>, names: seq<string>, r: Results)
    requires es != []
    ensures Holds(ExprCond(Disjunction(es)), names, r)
      <==> exists i :: 0 <= i < |es| && Holds(ExprCond(es[i]), names, r)
  {
    var last := |es| - 1;
    var t := OneFactor(Group(es[last]));
    assert TermCond(t) == FactorCond(Group(es[last])) == ExprCond(es[last]);
    if last > 0 {
      var front := es[..last];
      DisjunctionHolds(front, names, r);
      assert Disjunction(es) == OrElse(Disjunction(front), "or", t);
      assert Holds(ExprCond(Disjunction(es)), names, r)
        <==> Holds(ExprCond(Disjunction(front)), names, r) || Holds(ExprCond(es[last]), names, r);
      assert forall i :: 0 <= i < last ==> front[i] == es[i];
    }
  }

  lemma ReadableText(text: string, e: Expr, names: seq<string>)
    requires ReadsAs(text, e)
    ensures text != "" && ConditionTree(One(text), names) == Parsed(ExprCond(e), [])
  {
    assert Tokenize("") == [];
    ExprTokensAreTokens(e);
    ParsePrinted(e);
  }

  lemma ListParts(texts: seq<string>, es: seq<Expr>)
    requires |texts| == |es| > 0
    requires forall i :: 0 <= i < |es| ==> ReadsAs(texts[i], es[i])
    ensures ExprOk(Disjunction(es))
    ensures ExprTokens(Disjunction(es)) == Interleaved("or", TokenLists(Parenthesized(texts)))
  {
    var lists := TokenLists(Parenthesized(texts));
    forall i | 0 <= i < |es|
      ensures lists[i] == ["("] + ExprTokens(es[i]) + [")"]
    {
      TokenizeParenthesized(texts[i]);
    }
    DisjunctionTokens(lists, es);
  }

  lemma ListTokens(texts: seq<string>, es: seq<Expr>)
    requires |texts| == |es| > 0
    requires forall i :: 0 <= i < |es| ==> ReadsAs(texts[i], es[i])
    ensures ReadsAs(Join(" or ", Parenthesized(texts)), Disjunction(es))
  {
    ListParts(texts, es);
    TokenizeJoinOr(Parenthesized(texts));
  }

  lemma ListReads(texts: seq<string>, es: seq<Expr>, names: seq<string>)
    requires |texts| == |es| > 0
    requires forall i :: 0 <= i < |es| ==> ReadsAs(texts[i], es[i])
    ensures ConditionTree(Many(texts), names) == Parsed(ExprCond(Disjunction(es)), [])
  {
    var text := Join(" or ", Parenthesized(texts));
    ListTokens(texts, es);
    ReadableText(text, Disjunction(es), names);
    assert SourceText(Many(texts), names) == text == SourceText(One(text), names);
  }

  /** A non-empty list of readable conditions compiles to the disjunction of what each compiles to alone. */
  lemma ListIsDisjunction(texts: seq<string>, es: seq<Expr>, names: seq<string>, r: Results)
    requires |texts| == |es| > 0
    requires forall i :: 0 <= i < |es| ==> ReadsAs(texts[i], es[i])
    ensures ConditionTree(Many(texts), names).Parsed?
    ensures forall i :: 0 <= i < |es| ==> ConditionTree(One(texts[i]), names).Parsed?
    ensures Holds(ConditionTree(Many(texts), names).cond, names, r)
      <==> exists i :: 0 <= i < |es| && Holds(ConditionTree(One(texts[i]), names).cond, names, r)
  {
    forall i | 0 <= i < |es|
      ensures ConditionTree(One(texts[i]), names) == Parsed(ExprCond(es[i]), [])
    {
      ReadableText(texts[i], es[i], names);
    }
    ListReads(texts, es, names);
    DisjunctionHolds(es, names, r);
  }

  /** A printed condition - fewest or all parentheses, any white space - compiles as the condition itself. */
  lemma PrintedCondition(c: Cond, full: bool, gaps: seq<string>, names: seq<string>)
    requires CondOk(c)
    requires IsLayout(ExprTokens(if full then OneTerm(OneFactor(FullFactor(c))) else MinimalExpr(c)), gaps)
    ensures var e := if full then OneTerm(OneFactor(FullFactor(c))) else MinimalExpr(c);
      ConditionTree(One(Lay(ExprTokens(e), gaps)), names) == Parsed(c, [])
  {
    var e := if full then OneTerm(OneFactor(FullFactor(c))) else MinimalExpr(c);
    MinimalExprOk(c);
    FullFactorOk(c);
    WrapOk(FullFactor(c));
    TokenizeLay(ExprTokens(e), gaps);
    ReadableText(Lay(ExprTokens(e), gaps), e, names);
  }

  // ---- A missing condition is the conjunction of all selections ----

  /** A name that, met where an operand is due, is read as a selection. A lone `)` is one. */
  predicate IsOperand(n: string) {
    n == ")" || IsName(n)
  }

  ghost predicate AllFired(names: seq<string>, r: Results) {
    forall i :: 0 <= i < |names| ==> Fired(r, names[i])
  }

  function Conjunction(names: seq<string>): Cond
    requires names != []
  {
    var last := |names| - 1;
    if last == 0 then Name(names[0]) else And(Conjunction(names[..last]), Name(names[last]))
  }

  lemma {:induction false} ConjunctionHolds(names: seq<string>, all: seq<string>, r: Results)
    requires names != []
    ensures Holds(Conjunction(names), all, r) <==> AllFired(names, r)
  {
    var last := |names| - 1;
    if last > 0 {
      ConjunctionHolds(names[..last], all, r);
      assert forall i :: 0 <= i < last ==> names[..last][i] == names[i];
    }
  }

  lemma OperandReads(n: string, rest: seq<string>)
    requires IsOperand(n) && !Next(rest, "of")
    ensures ParseFactor([n] + rest) == Parsed(Name(n), rest)
  {
    if n == ")" {
    } else {
      NameReads(n, rest);
    }
  }

  lemma OperandToken(n: string)
    requires IsOperand(n)
    ensures Tokenize(n) == [n]
  {
    TokenizeOne("", n, "");
    assert "" + n + "" == n;
  }

  lemma {:induction false} ConjunctionReads(lists: seq<seq<string>>, names: seq<string>, rest: seq<string>)
    requires |lists| == |names| > 0 && forall i :: 0 <= i < |names| ==> IsOperand(names[i]) && lists[i] == [names[i]]
    requires !Next(rest, "of")
    ensures ParseTerm(Interleaved("and", lists) + rest) == TermTail(Conjunction(names), rest)
  {
    var last := |names| - 1;
    OperandReads(names[last], rest);
    if last > 0 {
      AndStep(Conjunction(names[..last]), names[last], rest);
      ConjunctionReads(lists[..last], names[..last], ["and"] + ([names[last]] + rest));
      InterleavedLast("and", lists, rest);
    } else {
      assert Interleaved("and", lists) == [names[0]];
    }
  }

  lemma InterleavedLast(kw: string, lists: seq<seq<string>>, rest: seq<string>)
    requires |lists| > 1
    ensures var last := |lists| - 1;
      Interleaved(kw, lists) + rest == Interleaved(kw, lists[..last]) + ([kw] + (lists[last] + rest))
  {
  }

  lemma AndStep(acc: Cond, n: string, rest: seq<string>)
    requires ParseFactor([n] + rest) == Parsed(Name(n), rest)
    ensures !Next(["and"] + ([n] + rest), "of")
    ensures TermTail(acc, ["and"] + ([n] + rest)) == TermTail(And(acc, Name(n)), rest)
  {
    KeywordsOk();
    assert (["and"] + ([n] + rest))[1..] == [n] + rest;
  }

  function Singletons(names: seq<string>): seq<seq<string>> {
    seq(|names|, i requires 0 <= i < |names| => [names[i]])
  }

  lemma ConjunctionTokens(names: seq<string>)
    requires forall n <- names :: IsOperand(n)
    ensures Tokenize(Join(" and ", names)) == Interleaved("and", Singletons(names))
  {
    KeywordsOk();
    TokenizeJoin("and", names);
    forall i | 0 <= i < |names|
      ensures TokenLists(names)[i] == [names[i]]
    {
      OperandToken(names[i]);
    }
    assert TokenLists(names) == Singletons(names);
    assert " " + "and" + " " == " and ";
  }

  lemma ConjunctionParses(names: seq<string>)
    requires names != [] && forall n <- names :: IsOperand(n)
    ensures ParseExpr(Interleaved("and", Singletons(names))) == Parsed(Conjunction(names), [])
  {
    ConjunctionReads(Singletons(names), names, []);
    assert Interleaved("and", Singletons(names)) + [] == Interleaved("and", Singletons(names));
  }

  /** With operand names only, a missing (or empty) condition means that every selection fired. */
  lemma MissingIsConjunction(names: seq<string>, r: Results)
    requires names != [] && forall n <- names :: IsOperand(n)
    ensures ConditionTree(Missing, names) == Parsed(Conjunction(names), [])
    ensures Holds(ConditionTree(Missing, names).cond, names, r) <==> AllFired(names, r)
  {
    ConjunctionTokens(names);
    ConjunctionParses(names);
    ConjunctionHolds(names, names, r);
  }

  // ---- Whole rules ----

  /** A rule's selections: names (the keys of a mapping, so distinct) with predicates over events. */
  type Selections<!Ctx> = seq<(string, Ctx -> bool)>

  /** No selections is an error of the rule; reading past the end is an exception of the parser. */
  datatype Rule<!Ctx> = NoSelections | ReadsPastEnd | Compiled(matches: Ctx -> bool)

  function Names<Ctx>(selections: Selections<Ctx>): seq<string> {
    seq(|selections|, i requires 0 <= i < |selections| => selections[i].0)
  }

  /** Which selections fire on an event. */
  function ResultsOf<Ctx>(selections: Selections<Ctx>, ctx: Ctx): Results {
    if selections == [] then map[]
    else
      var last := selections[|selections| - 1];
      ResultsOf(selections[..|selections| - 1], ctx)[last.0 := last.1(ctx)]
  }

  method CompileRule<Ctx(!new)>(selections: Selections<Ctx>, condition: Condition) returns (rule: Rule<Ctx>)
    ensures rule.NoSelections? <==> |selections| == 0
    ensures rule.ReadsPastEnd? <==> |selections| > 0 && ConditionTree(condition, Names(selections)).IndexError?
    ensures rule.Compiled? ==>
      var c := ConditionTree(condition, Names(selections)).cond;
      forall ctx :: rule.matches(ctx) <==> Holds(c, Names(selections), ResultsOf(selections, ctx))
  {
    if |selections| == 0 {
      return NoSelections;
    }
    var p := CompileCondition(condition, Names(selections));
    if p.None? {
      return ReadsPastEnd;
    }
    var pred := p.value;
    rule := Compiled(ctx => pred(ResultsOf(selections, ctx)));
  }

  lemma {:induction false} ResultsOfReads<Ctx(!new)>(selections: Selections<Ctx>, ctx: Ctx, i: nat)
    requires i < |selections| && forall j, k :: 0 <= j < k < |selections| ==> selections[j].0 != selections[k].0
    ensures Fired(ResultsOf(selections, ctx), selections[i].0) <==> selections[i].1(ctx)
  {
    var last := |selections| - 1;
    if i < last {
      ResultsOfReads(selections[..last], ctx, i);
    }
  }

  /** A rule with operand names and no condition matches an event exactly when all of its selections do. */
  lemma RuleWithoutCondition<Ctx(!new)>(selections: Selections<Ctx>, ctx: Ctx)
    requires |selections| > 0 && forall j, k :: 0 <= j < k < |selections| ==> selections[j].0 != selections[k].0
    requires forall i :: 0 <= i < |selections| ==> IsOperand(selections[i].0)
    ensures var names := Names(selections);
      ConditionTree(Missing, names).Parsed? &&
      (Holds(ConditionTree(Missing, names).cond, names, ResultsOf(selections, ctx))
       <==> forall i :: 0 <= i < |selections| ==> selections[i].1(ctx))
  {
    var names := Names(selections);
    MissingIsConjunction(names, ResultsOf(selections, ctx));
    forall i | 0 <= i < |selections|
      ensures Fired(ResultsOf(selections, ctx), names[i]) <==> selections[i].1(ctx)
    {
      ResultsOfReads(selections, ctx, i);
    }
  }
}
