/** What the condition parser guarantees on every token list, well formed or not. */
module SigmaTotality {
  import opened Text
  import opened SigmaCondition

  predicate EndsInCountOf(ts: seq<string>) {
    |ts| >= 2 && IsCount(ts[|ts| - 2]) && Lower(ts[|ts| - 1]) == "of"
  }

  predicate IsSuffix(rest: seq<string>, ts: seq<string>) {
    |rest| <= |ts| && ts[|ts| - |rest|..] == rest
  }

  predicate NotFree(ts: seq<string>) {
    forall t <- ts :: Lower(t) != "not"
  }

  predicate Positive(c: Cond) {
    match c
    case Not(_) => false
    case And(a, b) => Positive(a) && Positive(b)
    case Or(a, b) => Positive(a) && Positive(b)
    case _ => true
  }

  /** Token `k` starts an aggregate: a count word, `of`, and a group. */
  predicate AggregateAt(all: seq<string>, k: nat) {
    k + 2 < |all| && IsCount(all[k]) && Lower(all[k + 1]) == "of"
  }

  /** Every name and every aggregate of the condition was written in the tokens. */
  ghost predicate FromTokens(c: Cond, all: seq<string>) {
    match c
    case Never => true
    case Name(n) => n in all && n != "(" && Lower(n) != "not"
    case Not(d) => FromTokens(d, all)
    case And(a, b) => FromTokens(a, all) && FromTokens(b, all)
    case Or(a, b) => FromTokens(a, all) && FromTokens(b, all)
    case Of(count, group) => exists k: nat | AggregateAt(all, k) :: all[k] == count && all[k + 2] == group
  }

  /** An outcome of parsing somewhere inside `all`: a failure only if `all` ends in a count word and `of`;
      else a suffix of `all` is left, everything built was written, and a negation only for a `not`. */
  ghost predicate Sound(all: seq<string>, p: Parse) {
    match p
    case IndexError => EndsInCountOf(all)
    case Parsed(c, rest) => IsSuffix(rest, all) && Built(c, all)
  }

  ghost predicate Built(c: Cond, all: seq<string>) {
    FromTokens(c, all) && (NotFree(all) ==> Positive(c))
  }

  lemma Advance(all: seq<string>, ts: seq<string>, k: nat)
    requires IsSuffix(ts, all) && k <= |ts|
    ensures IsSuffix(ts[k..], all)
  {
    assert ts[k..] == all[|all| - |ts| + k..];
  }

  lemma {:induction false} ExprSound(all: seq<string>, ts: seq<string>)
    requires IsSuffix(ts, all)
    ensures Sound(all, ParseExpr(ts))
    decreases |ts|, 4
  {
    TermSound(all, ts);
    var p := ParseTerm(ts);
    if p.Parsed? {
      ExprTailSound(all, p.cond, p.rest);
    }
  }

  lemma {:induction false} ExprTailSound(all: seq<string>, acc: Cond, ts: seq<string>)
    requires IsSuffix(ts, all) && Built(acc, all)
    ensures Sound(all, ExprTail(acc, ts))
    decreases |ts|, 0
  {
    if Next(ts, "or") {
      Advance(all, ts, 1);
      TermSound(all, ts[1..]);
      var p := ParseTerm(ts[1..]);
      if p.Parsed? {
        ExprTailSound(all, Or(acc, p.cond), p.rest);
      }
    }
  }

  lemma {:induction false} TermSound(all: seq<string>, ts: seq<string>)
    requires IsSuffix(ts, all)
    ensures Sound(all, ParseTerm(ts))
    decreases |ts|, 3
  {
    FactorSound(all, ts);
    var p := ParseFactor(ts);
    if p.Parsed? {
      TermTailSound(all, p.cond, p.rest);
    }
  }

  lemma {:induction false} TermTailSound(all: seq<string>, acc: Cond, ts: seq<string>)
    requires IsSuffix(ts, all) && Built(acc, all)
    ensures Sound(all, TermTail(acc, ts))
    decreases |ts|, 0
  {
    if Next(ts, "and") {
      Advance(all, ts, 1);
      FactorSound(all, ts[1..]);
      var p := ParseFactor(ts[1..]);
      if p.Parsed? {
        TermTailSound(all, And(acc, p.cond), p.rest);
      }
    }
  }

  lemma {:induction false} FactorSound(all: seq<string>, ts: seq<string>)
    requires IsSuffix(ts, all)
    ensures Sound(all, ParseFactor(ts))
    decreases |ts|, 2
  {
    if ts != [] {
      assert all[|all| - |ts|] == ts[0];
      Advance(all, ts, 1);
      if Next(ts, "not") {
        FactorSound(all, ts[1..]);
      } else if ts[0] == "(" {
        ExprSound(all, ts[1..]);
        var p := ParseExpr(ts[1..]);
        if p.Parsed? && p.rest != [] {
          Advance(all, p.rest, 1);
        }
      } else if StartsCount(ts) {
        assert all[|all| - |ts| + 1] == ts[1];
        if |ts| > 2 {
          assert AggregateAt(all, |all| - |ts|) && all[|all| - |ts| + 2] == ts[2];
          Advance(all, ts, 3);
        }
      }
    }
  }

  /** The parser is total up to one exception: parsing fails only on tokens that end in a count word and `of`;
      otherwise it consumes at least one token of a non-empty list. */
  lemma ParserTotal(ts: seq<string>)
    ensures ParseExpr(ts).IndexError? ==> EndsInCountOf(ts)
    ensures ParseExpr(ts).Parsed? ==> IsSuffix(ParseExpr(ts).rest, ts) && FromTokens(ParseExpr(ts).cond, ts)
    ensures ParseExpr(ts).Parsed? && ts != [] ==> |ParseExpr(ts).rest| < |ts|
  {
    ExprSound(ts, ts);
  }

  // ---- Monotonicity ----

  /** Every selection that fired in `r` also fired in `s`. */
  ghost predicate Below(r: Results, s: Results) {
    forall n :: Fired(r, n) ==> Fired(s, n)
  }

  lemma SubsetSize(a: set<nat>, b: set<nat>)
    requires a <= b
    ensures |a| <= |b|
  {
    assert b == a + (b - a);
  }

  lemma {:induction false} PositiveMonotone(c: Cond, names: seq<string>, r: Results, s: Results)
    requires Positive(c) && Below(r, s) && Holds(c, names, r)
    ensures Holds(c, names, s)
  {
    match c {
      case Never =>
      case Name(_) =>
      case And(a, b) =>
        PositiveMonotone(a, names, r, s);
        PositiveMonotone(b, names, r, s);
      case Or(a, b) =>
        if Holds(a, names, r) { PositiveMonotone(a, names, r, s); } else { PositiveMonotone(b, names, r, s); }
      case Of(count, group) =>
        SubsetSize(FiredMembers(group, names, r), FiredMembers(group, names, s));
    }
  }

  /** Any token list without `not` that parses means a monotone predicate. */
  lemma ParsedMonotone(ts: seq<string>, names: seq<string>, r: Results, s: Results)
    requires NotFree(ts) && ParseExpr(ts).Parsed? && Below(r, s)
    requires Holds(ParseExpr(ts).cond, names, r)
    ensures Holds(ParseExpr(ts).cond, names, s)
  {
    ExprSound(ts, ts);
    PositiveMonotone(ParseExpr(ts).cond, names, r, s);
  }
}
