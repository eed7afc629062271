/** The condition grammar as concrete syntax trees, printing them, and the proof that the
    parser reads back exactly the condition a tree stands for. */
module SigmaSyntax {
  import opened Text
  import opened SigmaTokens
  import opened SigmaCondition

  /** `or` binds loosest, then `and`, then `not`, then aggregates and parentheses. Keywords keep their letter case. */
  datatype Expr = OneTerm(t: Term) | OrElse(e: Expr, or: string, t: Term)
  datatype Term = OneFactor(f: Factor) | AndAlso(t: Term, and: string, f: Factor)
  datatype Factor =
    | Selection(name: string)
    | Negation(not: string, f: Factor)
    | Group(e: Expr)
    | Aggregate(count: string, of: string, group: string)

  // ---- The condition a tree stands for, and its tokens ----

  function ExprCond(e: Expr): Cond {
    match e
    case OneTerm(t) => TermCond(t)
    case OrElse(l, _, t) => Or(ExprCond(l), TermCond(t))
  }

  function TermCond(t: Term): Cond {
    match t
    case OneFactor(f) => FactorCond(f)
    case AndAlso(l, _, f) => And(TermCond(l), FactorCond(f))
  }

  function FactorCond(f: Factor): Cond {
    match f
    case Selection(n) => Name(n)
    case Negation(_, g) => Not(FactorCond(g))
    case Group(e) => ExprCond(e)
    case Aggregate(count, _, group) => Of(count, group)
  }

  function ExprTokens(e: Expr): seq<string> {
    match e
    case OneTerm(t) => TermTokens(t)
    case OrElse(l, kw, t) => ExprTokens(l) + [kw] + TermTokens(t)
  }

  function TermTokens(t: Term): seq<string> {
    match t
    case OneFactor(f) => FactorTokens(f)
    case AndAlso(l, kw, f) => TermTokens(l) + [kw] + FactorTokens(f)
  }

  function FactorTokens(f: Factor): seq<string> {
    match f
    case Selection(n) => [n]
    case Negation(kw, g) => [kw] + FactorTokens(g)
    case Group(e) => ["("] + ExprTokens(e) + [")"]
    case Aggregate(count, kw, group) => [count, kw, group]
  }

  /** A name the parser takes for a selection wherever an operand is due: a word other than `not`. */
  predicate IsName(n: string) {
    IsWord(n) && Lower(n) != "not"
  }

  predicate ExprOk(e: Expr) {
    match e
    case OneTerm(t) => TermOk(t)
    case OrElse(l, kw, t) => ExprOk(l) && IsWord(kw) && Lower(kw) == "or" && TermOk(t)
  }

  predicate TermOk(t: Term) {
    match t
    case OneFactor(f) => FactorOk(f)
    case AndAlso(l, kw, f) => TermOk(l) && IsWord(kw) && Lower(kw) == "and" && FactorOk(f)
  }

  predicate FactorOk(f: Factor) {
    match f
    case Selection(n) => IsName(n)
    case Negation(kw, g) => IsWord(kw) && Lower(kw) == "not" && FactorOk(g)
    case Group(e) => ExprOk(e)
    case Aggregate(count, kw, group) =>
      IsWord(count) && IsCount(count) && IsWord(kw) && Lower(kw) == "of" && IsWord(group)
  }

  // ---- Parsing inverts printing ----

  /** Parsing an expression in front of `rest` reads that expression and then goes on from it. */
  lemma {:induction false} ExprReads(e: Expr, rest: seq<string>)
    requires ExprOk(e) && !Next(rest, "and") && !Next(rest, "of")
    ensures ParseExpr(ExprTokens(e) + rest) == ExprTail(ExprCond(e), rest)
    decreases e
  {
    match e {
      case OneTerm(t) =>
        TermReads(t, rest);
      case OrElse(l, kw, t) =>
        assert ExprTokens(e) + rest == ExprTokens(l) + ([kw] + (TermTokens(t) + rest));
        ExprReads(l, [kw] + (TermTokens(t) + rest));
        assert ([kw] + (TermTokens(t) + rest))[1..] == TermTokens(t) + rest;
        TermReads(t, rest);
    }
  }

  lemma {:induction false} TermReads(t: Term, rest: seq<string>)
    requires TermOk(t) && !Next(rest, "of")
    ensures ParseTerm(TermTokens(t) + rest) == TermTail(TermCond(t), rest)
    decreases t
  {
    match t {
      case OneFactor(f) =>
        FactorReads(f, rest);
      case AndAlso(l, kw, f) =>
        assert TermTokens(t) + rest == TermTokens(l) + ([kw] + (FactorTokens(f) + rest));
        TermReads(l, [kw] + (FactorTokens(f) + rest));
        assert ([kw] + (FactorTokens(f) + rest))[1..] == FactorTokens(f) + rest;
        FactorReads(f, rest);
    }
  }

  lemma {:induction false} FactorReads(f: Factor, rest: seq<string>)
    requires FactorOk(f) && !Next(rest, "of")
    ensures ParseFactor(FactorTokens(f) + rest) == Parsed(FactorCond(f), rest)
    decreases f, 1
  {
    match f {
      case Selection(n) => NameReads(n, rest);
      case Negation(_, _) => NegationReads(f, rest);
      case Group(_) => GroupReads(f, rest);
      case Aggregate(count, kw, group) => AggregateReads(count, kw, group, rest);
    }
  }

  lemma {:induction false} NegationReads(f: Factor, rest: seq<string>)
    requires f.Negation? && FactorOk(f) && !Next(rest, "of")
    ensures ParseFactor(FactorTokens(f) + rest) == Parsed(FactorCond(f), rest)
    decreases f, 0
  {
    FactorReads(f.f, rest);
    assert (FactorTokens(f) + rest)[1..] == FactorTokens(f.f) + rest;
  }

  lemma {:induction false} GroupReads(f: Factor, rest: seq<string>)
    requires f.Group? && FactorOk(f)
    ensures ParseFactor(FactorTokens(f) + rest) == Parsed(FactorCond(f), rest)
    decreases f, 0
  {
    ExprReads(f.e, [")"] + rest);
    assert (FactorTokens(f) + rest)[1..] == ExprTokens(f.e) + ([")"] + rest);
    assert ([")"] + rest)[1..] == rest;
    assert Lower("(") == "(";
  }

  lemma NameReads(n: string, rest: seq<string>)
    requires IsName(n) && !Next(rest, "of")
    ensures ParseFactor([n] + rest) == Parsed(Name(n), rest)
  {
    var ts := [n] + rest;
    assert n[0] in n;
    assert ts[0] == n && ts[1..] == rest;
    assert rest != [] ==> ts[1] == rest[0];
  }

  lemma AggregateReads(count: string, kw: string, group: string, rest: seq<string>)
    requires IsCount(count) && Lower(kw) == "of"
    ensures ParseFactor([count, kw, group] + rest) == Parsed(Of(count, group), rest)
  {
    var ts := [count, kw, group] + rest;
    CountIsNotOperator(count);
    assert ts[..3] == [count, kw, group] && ts[3..] == rest;
  }

  lemma CountIsNotOperator(count: string)
    requires IsCount(count)
    ensures Lower(count) != "not" && count != "("
  {
    var low := Lower(count);
    assert low != [] ==> low[0] in low;
    assert Lower("(") == "(";
  }

  /** Parsing the tokens of a well-formed expression consumes them all and yields its condition. */
  lemma ParsePrinted(e: Expr)
    requires ExprOk(e)
    ensures ParseExpr(ExprTokens(e)) == Parsed(ExprCond(e), [])
  {
    ExprReads(e, []);
    assert ExprTokens(e) + [] == ExprTokens(e);
  }

  /** The one way to fail is always near: behind any well-formed expression, `or`, a count word and `of` make
      the parser read past the end. */
  lemma TruncatedAggregateFails(e: Expr, count: string, kw: string)
    requires ExprOk(e) && IsCount(count) && Lower(kw) == "of"
    ensures ParseExpr(ExprTokens(e) + ["or", count, kw]).IndexError?
  {
    var rest := ["or", count, kw];
    KeywordsOk();
    ExprReads(e, rest);
    CountIsNotOperator(count);
    assert rest[1..] == [count, kw];
    assert ParseFactor([count, kw]).IndexError?;
  }

  // ---- Any layout of the tokens is a text for the tree ----

  lemma {:induction false} ExprTokensAreTokens(e: Expr)
    requires ExprOk(e)
    ensures ExprTokens(e) != [] && forall t <- ExprTokens(e) :: IsToken(t)
    decreases e
  {
    match e {
      case OneTerm(t) => TermTokensAreTokens(t);
      case OrElse(l, _, t) => ExprTokensAreTokens(l); TermTokensAreTokens(t);
    }
  }

  lemma {:induction false} TermTokensAreTokens(t: Term)
    requires TermOk(t)
    ensures TermTokens(t) != [] && forall x <- TermTokens(t) :: IsToken(x)
    decreases t
  {
    match t {
      case OneFactor(f) => FactorTokensAreTokens(f);
      case AndAlso(l, _, f) => TermTokensAreTokens(l); FactorTokensAreTokens(f);
    }
  }

  lemma {:induction false} FactorTokensAreTokens(f: Factor)
    requires FactorOk(f)
    ensures FactorTokens(f) != [] && forall x <- FactorTokens(f) :: IsToken(x)
    decreases f
  {
    match f {
      case Selection(_) =>
      case Negation(_, g) => FactorTokensAreTokens(g);
      case Group(e) => ExprTokensAreTokens(e);
      case Aggregate(_, _, _) =>
    }
  }

  /** The text of a well-formed expression, with any white space, is read back as its condition. */
  lemma ReadText(e: Expr, gaps: seq<string>)
    requires ExprOk(e) && IsLayout(ExprTokens(e), gaps)
    ensures ParseExpr(Tokenize(Lay(ExprTokens(e), gaps))) == Parsed(ExprCond(e), [])
  {
    TokenizeLay(ExprTokens(e), gaps);
    ParsePrinted(e);
  }

  // ---- Printing conditions ----

  /** A condition over selection names and aggregates, as a rule author writes it. */
  predicate CondOk(c: Cond) {
    match c
    case Never => false
    case Name(n) => IsName(n)
    case Not(d) => CondOk(d)
    case And(a, b) => CondOk(a) && CondOk(b)
    case Or(a, b) => CondOk(a) && CondOk(b)
    case Of(count, group) => IsWord(count) && IsCount(count) && IsWord(group)
  }

  // Parentheses only where precedence and left association need them.

  function MinimalExpr(c: Cond): Expr
    requires CondOk(c)
    decreases c, 2
  {
    if c.Or? then OrElse(MinimalExpr(c.left), "or", MinimalTerm(c.right)) else OneTerm(MinimalTerm(c))
  }

  function MinimalTerm(c: Cond): Term
    requires CondOk(c)
    decreases c, 1
  {
    if c.And? then AndAlso(MinimalTerm(c.left), "and", MinimalFactor(c.right)) else OneFactor(MinimalFactor(c))
  }

  function MinimalFactor(c: Cond): Factor
    requires CondOk(c)
    decreases c, 0
  {
    match c
    case Name(n) => Selection(n)
    case Not(d) => Negation("not", MinimalFactor(d))
    case Of(count, group) => Aggregate(count, "of", group)
    case And(a, b) => Group(OneTerm(AndAlso(MinimalTerm(a), "and", MinimalFactor(b))))
    case Or(a, b) => Group(OrElse(MinimalExpr(a), "or", MinimalTerm(b)))
  }

  /** Parentheses around every operator application. */
  function FullFactor(c: Cond): Factor
    requires CondOk(c)
  {
    match c
    case Name(n) => Selection(n)
    case Not(d) => Group(OneTerm(OneFactor(Negation("not", FullFactor(d)))))
    case Of(count, group) => Group(OneTerm(OneFactor(Aggregate(count, "of", group))))
    case And(a, b) => Group(OneTerm(AndAlso(OneFactor(FullFactor(a)), "and", FullFactor(b))))
    case Or(a, b) => Group(OrElse(OneTerm(OneFactor(FullFactor(a))), "or", OneFactor(FullFactor(b))))
  }

  lemma KeywordsOk()
    ensures IsWord("or") && IsWord("and") && IsWord("not") && IsWord("of")
    ensures Lower("or") == "or" && Lower("and") == "and" && Lower("not") == "not" && Lower("of") == "of"
  {
  }

  lemma AndOk(t: Term, f: Factor)
    requires TermOk(t) && FactorOk(f)
    ensures ExprOk(OneTerm(AndAlso(t, "and", f)))
    ensures ExprCond(OneTerm(AndAlso(t, "and", f))) == And(TermCond(t), FactorCond(f))
  {
    KeywordsOk();
    assert TermOk(AndAlso(t, "and", f)) && TermCond(AndAlso(t, "and", f)) == And(TermCond(t), FactorCond(f));
  }

  lemma {:induction false} MinimalExprOk(c: Cond)
    requires CondOk(c)
    ensures ExprOk(MinimalExpr(c)) && ExprCond(MinimalExpr(c)) == c
    decreases c, 2
  {
    KeywordsOk();
    if c.Or? { MinimalExprOk(c.left); MinimalTermOk(c.right); } else { MinimalTermOk(c); }
  }

  lemma {:induction false} MinimalTermOk(c: Cond)
    requires CondOk(c)
    ensures TermOk(MinimalTerm(c)) && TermCond(MinimalTerm(c)) == c
    decreases c, 1
  {
    KeywordsOk();
    if c.And? { MinimalTermOk(c.left); MinimalFactorOk(c.right); } else { MinimalFactorOk(c); }
  }

  lemma {:induction false} MinimalFactorOk(c: Cond)
    requires CondOk(c)
    ensures FactorOk(MinimalFactor(c)) && FactorCond(MinimalFactor(c)) == c
    decreases c, 0
  {
    KeywordsOk();
    match c {
      case Not(d) => MinimalFactorOk(d);
      case And(a, b) =>
        MinimalTermOk(a);
        MinimalFactorOk(b);
        AndOk(MinimalTerm(a), MinimalFactor(b));
      case Or(a, b) =>
        MinimalExprOk(a);
        MinimalTermOk(b);
        assert ExprOk(OrElse(MinimalExpr(a), "or", MinimalTerm(b)));
      case _ =>
    }
  }

  lemma WrapOk(f: Factor)
    requires FactorOk(f)
    ensures ExprOk(OneTerm(OneFactor(f))) && ExprCond(OneTerm(OneFactor(f))) == FactorCond(f)
  {
    assert TermOk(OneFactor(f)) && TermCond(OneFactor(f)) == FactorCond(f);
  }

  lemma {:induction false} FullFactorOk(c: Cond)
    requires CondOk(c)
    ensures FactorOk(FullFactor(c)) && FactorCond(FullFactor(c)) == c
  {
    KeywordsOk();
    match c {
      case Name(_) =>
      case Not(d) =>
        FullFactorOk(d);
        WrapOk(Negation("not", FullFactor(d)));
      case Of(count, group) =>
        WrapOk(Aggregate(count, "of", group));
      case And(a, b) =>
        FullFactorOk(a);
        FullFactorOk(b);
        AndOk(OneFactor(FullFactor(a)), FullFactor(b));
      case Or(a, b) =>
        FullFactorOk(a);
        FullFactorOk(b);
        var l, r := OneTerm(OneFactor(FullFactor(a))), OneFactor(FullFactor(b));
        WrapOk(FullFactor(a));
        assert TermOk(r) && TermCond(r) == b;
        assert ExprOk(OrElse(l, "or", r)) && ExprCond(OrElse(l, "or", r)) == c;
    }
  }

  /** Printing a condition, with the fewest or with all parentheses and any white space, and parsing the text
      gives the condition back. */
  lemma PrintParse(c: Cond, full: bool, gaps: seq<string>)
    requires CondOk(c)
    requires IsLayout(ExprTokens(if full then OneTerm(OneFactor(FullFactor(c))) else MinimalExpr(c)), gaps)
    ensures var e := if full then OneTerm(OneFactor(FullFactor(c))) else MinimalExpr(c);
      ParseExpr(Tokenize(Lay(ExprTokens(e), gaps))) == Parsed(c, [])
  {
    MinimalExprOk(c);
    FullFactorOk(c);
    WrapOk(FullFactor(c));
    ReadText(if full then OneTerm(OneFactor(FullFactor(c))) else MinimalExpr(c), gaps);
  }
}
