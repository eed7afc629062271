/** The condition compiler: a recursive-descent parser with one moving position that builds
    closures over selection results (server/app/detection/sigma.py:121-199). */
module SigmaCompiler {
  import opened Text
  import D = Decimal
  import opened SigmaTokens
  import opened SigmaCondition

  type Pred = Results -> bool

  // ---- Aggregates ----

  function Targets(group: string, names: seq<string>): seq<string> {
    if names == [] then []
    else
      var last := |names| - 1;
      Targets(group, names[..last]) + if InGroup(names[last], group) then [names[last]] else []
  }

  function Hits(targets: seq<string>, r: Results): nat {
    if targets == [] then 0
    else
      var last := |targets| - 1;
      Hits(targets[..last], r) + if Fired(r, targets[last]) then 1 else 0
  }

  function CompileOf(count: string, group: string, names: seq<string>): Pred {
    var targets := Targets(group, names);
    r =>
      var hits := Hits(targets, r);
      if Lower(count) == "all" then targets != [] && hits == |targets|
      else if Lower(count) == "any" || Lower(count) == "1" then hits >= 1
      else if D.IsDecimal(count) then hits >= D.Number(count)
      else hits >= 1
  }

  lemma {:induction false} TargetsCount(group: string, names: seq<string>)
    ensures |Targets(group, names)| == |Members(group, names)|
  {
    if names == [] {
      assert Members(group, names) == {};
    } else {
      var last := |names| - 1;
      TargetsCount(group, names[..last]);
      assert Members(group, names) == Members(group, names[..last]) + if InGroup(names[last], group) then {last} else {};
    }
  }

  lemma FiredStep(group: string, names: seq<string>, r: Results)
    requires names != []
    ensures var last := |names| - 1;
      FiredMembers(group, names, r) == FiredMembers(group, names[..last], r)
        + if InGroup(names[last], group) && Fired(r, names[last]) then {last} else {}
    ensures |names| - 1 !in FiredMembers(group, names[..|names| - 1], r)
  {
  }

  lemma {:induction false} HitsCount(group: string, names: seq<string>, r: Results)
    ensures Hits(Targets(group, names), r) == |FiredMembers(group, names, r)|
  {
    if names == [] {
      assert FiredMembers(group, names, r) == {};
    } else {
      var last := |names| - 1;
      var front := names[..last];
      HitsCount(group, front, r);
      FiredStep(group, names, r);
      if InGroup(names[last], group) {
      } else {
        assert Targets(group, names) == Targets(group, front);
      }
    }
  }

  lemma SameSizeSubset(a: set<nat>, b: set<nat>)
    requires a <= b && |a| == |b|
    ensures a == b
  {
    assert b == a + (b - a);
  }

  lemma OneIsOne(count: string)
    requires Lower(count) == "1"
    ensures D.IsDecimal(count) && D.Number(count) == 1
  {
    assert Lower(count)[0] == LowerChar(count[0]);
    assert count == ['1'];
    assert D.Number(count[..0]) == 0;
  }

  /** The counting closure decides the aggregate. */
  lemma CompileOfMeans(count: string, group: string, names: seq<string>, r: Results)
    ensures CompileOf(count, group, names)(r) <==> OfHolds(count, group, names, r)
  {
    TargetsCount(group, names);
    HitsCount(group, names, r);
    var members, fired := Members(group, names), FiredMembers(group, names, r);
    if |fired| == |members| {
      SameSizeSubset(fired, members);
    }
    if Lower(count) == "1" {
      OneIsOne(count);
    }
  }

  // ---- Aggregates, read off the words of the rule ----

  /** `them` is every selection, `prefix*` those whose name starts with the prefix, and any other word the one of that name,
      in any case. */
  ghost predicate Belongs(name: string, group: string) {
    || Lower(group) == "them"
    || (exists prefix, start, rest :: group == prefix + "*" && name == start + rest && Lower(start) == Lower(prefix))
    || Lower(name) == Lower(group)
  }

  lemma StarBelongs(name: string, prefix: string)
    ensures StartsWith(Lower(name), Lower(prefix)) <==> exists start, rest :: name == start + rest && Lower(start) == Lower(prefix)
  {
    var n := |prefix|;
    if StartsWith(Lower(name), Lower(prefix)) {
      assert Lower(name[..n]) == Lower(name)[..n];
      assert name == name[..n] + name[n..];
    }
    forall start, rest | name == start + rest && Lower(start) == Lower(prefix)
      ensures StartsWith(Lower(name), Lower(prefix))
    {
      assert Lower(name)[..|start|] == Lower(start);
    }
  }

  lemma StarStays(group: string)
    ensures EndsWith(Lower(group), "*") <==> EndsWith(group, "*")
    ensures EndsWith(group, "*") ==>
      var prefix := group[..|group| - 1]; group == prefix + "*" && Lower(group)[..|group| - 1] == Lower(prefix)
  {
    if group != "" {
      assert group[|group| - 1..] == [group[|group| - 1]];
      assert Lower(group)[|group| - 1..] == [LowerChar(group[|group| - 1])];
    }
  }

  lemma BelongsExactly(name: string, group: string)
    ensures InGroup(name, group) <==> Belongs(name, group)
  {
    StarStays(group);
    if EndsWith(group, "*") {
      var prefix := group[..|group| - 1];
      StarBelongs(name, prefix);
      assert forall p :: group == p + "*" ==> p == prefix;
      if Lower(name) == Lower(group) {
        assert StartsWith(Lower(name), Lower(prefix));
      }
    } else {
      assert forall p: string :: EndsWith(p + "*", "*");
    }
  }

  /** What a count word asks of the numbers of selections in the group: `all` that there are some and all fired, a printed
      number that at least as many fired, and `any`, or any other digits, that one did. */
  lemma AggregateExactly(group: string, names: seq<string>, r: Results, members: set<nat>, fired: set<nat>, count: string, n: nat)
    requires members == set i: nat | i < |names| && Belongs(names[i], group)
    requires fired == set i | i in members && names[i] in r && r[names[i]]
    ensures Lower(count) == "all" ==> (CompileOf(count, group, names)(r) <==> members != {} && fired == members)
    ensures count == D.Print(n) ==> (CompileOf(count, group, names)(r) <==> |fired| >= n)
    ensures Lower(count) != "all" && !D.IsDecimal(count) ==> (CompileOf(count, group, names)(r) <==> fired != {})
  {
    forall i: nat | i < |names|
      ensures InGroup(names[i], group) <==> Belongs(names[i], group)
    {
      BelongsExactly(names[i], group);
    }
    assert members == Members(group, names) && fired == FiredMembers(group, names, r);
    CompileOfMeans(count, group, names, r);
    D.NumberOfPrinted(n);
    if count == D.Print(n) {
      assert D.IsDigit(count[0]) && Lower(count)[0] == count[0];
    }
  }

  /** The count words: `all` and `any` in any case, and what consists of digits, superscripts among them. */
  lemma CountsExactly(t: string, n: nat)
    ensures IsCount(t)
      <==> Lower(t) in {"all", "any"} || (t != "" && forall c <- t :: D.IsDigit(c) || c as int in {0xb2, 0xb3, 0xb9})
    ensures IsCount(D.Print(n))
  {
    D.NumberOfPrinted(n);
    var low := Lower(t);
    assert forall i :: 0 <= i < |t| ==> t[i] in t && low[i] in low && low[i] == LowerChar(t[i]);
    DigitsStay(D.Print(n));
    DigitsStay(t);
  }

  lemma DigitsStay(t: string)
    ensures (forall c <- Lower(t) :: IsDigit(c)) <==> forall c <- t :: D.IsDigit(c) || c as int in {0xb2, 0xb3, 0xb9}
  {
    var low := Lower(t);
    forall i | 0 <= i < |t|
      ensures IsDigit(low[i]) <==> D.IsDigit(t[i]) || t[i] as int in {0xb2, 0xb3, 0xb9}
    {
    }
    assert (forall c <- low :: IsDigit(c)) <==> forall i :: 0 <= i < |low| ==> IsDigit(low[i]);
    assert (forall c <- t :: D.IsDigit(c) || c as int in {0xb2, 0xb3, 0xb9})
      <==> forall i :: 0 <= i < |t| ==> D.IsDigit(t[i]) || t[i] as int in {0xb2, 0xb3, 0xb9};
  }

  // ---- The parser ----

  /** The closure computes the meaning of the condition on every result map. */
  ghost predicate Means(p: Pred, c: Cond, names: seq<string>) {
    forall r: Results :: p(r) <==> Holds(c, names, r)
  }

  class ConditionParser {
    const tokens: seq<string>
    const names: seq<string>
    var pos: nat

    constructor (tokens: seq<string>, names: seq<string>)
      ensures this.tokens == tokens && this.names == names && pos == 0
    {
      this.tokens, this.names, pos := tokens, names, 0;
    }

    ghost predicate Valid()
      reads this
    {
      pos <= |tokens|
    }

    /** The parser stands where the grammar leaves off, with a closure that means the parsed condition;
        no closure stands for the exception of reading past the end. */
    ghost predicate Follows(p: Parse, node: Option<Pred>)
      requires Valid()
      reads this
    {
      match p
      case IndexError => node.None?
      case Parsed(c, rest) => node.Some? && tokens[pos..] == rest && Means(node.value, c, names)
    }

    predicate AtKeyword(keyword: string)
      requires Valid()
      reads this
      ensures AtKeyword(keyword) == Next(tokens[pos..], keyword)
    {
      pos < |tokens| && Lower(tokens[pos]) == keyword
    }

    method Advance() returns (token: string)
      requires Valid() && pos < |tokens|
      modifies this`pos
      ensures Valid() && pos == old(pos) + 1 && token == tokens[old(pos)]
      ensures tokens[pos..] == tokens[old(pos)..][1..]
    {
      token := tokens[pos];
      pos := pos + 1;
    }

    method Expr() returns (node: Option<Pred>)
      requires Valid()
      modifies this`pos
      ensures Valid() && Follows(ParseExpr(tokens[old(pos)..]), node)
      decreases |tokens| - pos, 4
    {
      ghost var goal := ParseExpr(tokens[pos..]);
      node := Term();
      if node.None? {
        return;
      }
      ghost var c := ParseTerm(tokens[old(pos)..]).cond;
      while AtKeyword("or")
        invariant Valid() && node.Some? && Means(node.value, c, names)
        invariant pos > old(pos) || old(pos) == |tokens|
        invariant goal == ExprTail(c, tokens[pos..])
        decreases |tokens| - pos
      {
        var _ := Advance();
        ghost var before := tokens[pos..];
        var rhs := Term();
        if rhs.None? {
          return None;
        }
        var a, b := node.value, rhs.value;
        node := Some((r: Results) => a(r) || b(r));
        c := Or(c, ParseTerm(before).cond);
      }
    }

    method Term() returns (node: Option<Pred>)
      requires Valid()
      modifies this`pos
      ensures Valid() && Follows(ParseTerm(tokens[old(pos)..]), node)
      decreases |tokens| - pos, 3
    {
      ghost var goal := ParseTerm(tokens[pos..]);
      node := Factor();
      if node.None? {
        return;
      }
      ghost var c := ParseFactor(tokens[old(pos)..]).cond;
      while AtKeyword("and")
        invariant Valid() && node.Some? && Means(node.value, c, names)
        invariant pos > old(pos) || old(pos) == |tokens|
        invariant goal == TermTail(c, tokens[pos..])
        decreases |tokens| - pos
      {
        var _ := Advance();
        ghost var before := tokens[pos..];
        var rhs := Factor();
        if rhs.None? {
          return None;
        }
        var a, b := node.value, rhs.value;
        node := Some((r: Results) => a(r) && b(r));
        c := And(c, ParseFactor(before).cond);
      }
    }

    method Factor() returns (node: Option<Pred>)
      requires Valid()
      modifies this`pos
      ensures Valid() && Follows(ParseFactor(tokens[old(pos)..]), node)
      decreases |tokens| - pos, 2
    {
      if pos == |tokens| {
        return Some((r: Results) => false);
      }
      var tok := tokens[pos];
      if Lower(tok) == "not" {
        var _ := Advance();
        var operand := Factor();
        if operand.None? {
          return None;
        }
        var p := operand.value;
        return Some((r: Results) => !p(r));
      }
      if tok == "(" {
        var _ := Advance();
        node := Expr();
        if node.Some? && pos < |tokens| && tokens[pos] == ")" {
          var _ := Advance();
        }
        return;
      }
      if IsCount(tok) && pos + 1 < |tokens| && Lower(tokens[pos + 1]) == "of" {
        ghost var ts := tokens[pos..];
        assert StartsCount(ts);
        var count := Advance();
        var _ := Advance();
        if pos == |tokens| {
          return None;
        }
        var group := Advance();
        forall r: Results
          ensures CompileOf(count, group, names)(r) <==> Holds(Of(count, group), names, r)
        {
          CompileOfMeans(count, group, names, r);
        }
        return Some(CompileOf(count, group, names));
      }
      var name := Advance();
      return Some((r: Results) => Fired(r, name));
    }
  }

  // ---- The source text of a condition ----

  /** What a rule's `condition` holds: nothing, a text, or a list of texts. */
  datatype Condition = Missing | One(text: string) | Many(texts: seq<string>)

  function Parenthesized(texts: seq<string>): seq<string> {
    seq(|texts|, i requires 0 <= i < |texts| => "( " + texts[i] + " )")
  }

  function SourceText(condition: Condition, names: seq<string>): string {
    var text := match condition
      case Missing => ""
      case One(t) => t
      case Many(ts) => Join(" or ", Parenthesized(ts));
    if text == "" then Join(" and ", names) else text
  }

  function ConditionTree(condition: Condition, names: seq<string>): Parse {
    ParseExpr(Tokenize(SourceText(condition, names)))
  }

  /** Compiling a condition gives a closure that means the condition its text reads as; it fails exactly
      when the grammar reads past the last token. */
  method CompileCondition(condition: Condition, names: seq<string>) returns (p: Option<Pred>)
    ensures p.None? <==> ConditionTree(condition, names).IndexError?
    ensures p.Some? ==> Means(p.value, ConditionTree(condition, names).cond, names)
  {
    var parser := new ConditionParser(Tokenize(SourceText(condition, names)), names);
    p := parser.Expr();
    assert parser.tokens[0..] == parser.tokens;
  }
}
