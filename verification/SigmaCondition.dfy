/** Conditions as trees: what they mean, and the grammar the recursive-descent parser
    follows (server/app/detection/sigma.py:121-199). */
module SigmaCondition {
  import opened Text
  import D = Decimal

  /** `Never` is what an operator with a missing operand stands for. */
  datatype Cond =
    | Never
    | Name(name: string)
    | Not(c: Cond)
    | And(left: Cond, right: Cond)
    | Or(left: Cond, right: Cond)
    | Of(count: string, group: string)

  /** Which selections fired; a name that is not a key did not. */
  type Results = map<string, bool>

  predicate Fired(r: Results, name: string) {
    name in r && r[name]
  }

  // ---- Meaning ----

  /** Whether the selection `name` belongs to the group of an aggregate. */
  predicate InGroup(name: string, group: string) {
    var g := Lower(group);
    if g == "them" then true
    else if EndsWith(g, "*") then StartsWith(Lower(name), g[..|g| - 1])
    else Lower(name) == g
  }

  ghost function Members(group: string, names: seq<string>): set<nat> {
    set i: nat | i < |names| && InGroup(names[i], group)
  }

  ghost function FiredMembers(group: string, names: seq<string>, r: Results): set<nat> {
    set i | i in Members(group, names) && Fired(r, names[i])
  }

  /** `all of g`, `any of g`, `N of g`: the group is non-empty and all fired, some fired, or at least N did. */
  ghost predicate OfHolds(count: string, group: string, names: seq<string>, r: Results) {
    var members, fired := Members(group, names), FiredMembers(group, names, r);
    if Lower(count) == "all" then members != {} && fired == members
    else if Lower(count) != "any" && D.IsDecimal(count) then |fired| >= D.Number(count)
    else fired != {}
  }

  ghost predicate Holds(c: Cond, names: seq<string>, r: Results) {
    match c
    case Never => false
    case Name(n) => Fired(r, n)
    case Not(d) => !Holds(d, names, r)
    case And(a, b) => Holds(a, names, r) && Holds(b, names, r)
    case Or(a, b) => Holds(a, names, r) || Holds(b, names, r)
    case Of(count, group) => OfHolds(count, group, names, r)
  }

  // ---- Grammar over token lists ----

  /** `IndexError` is the exception of reading past the last token. */
  datatype Parse = IndexError | Parsed(cond: Cond, rest: seq<string>)

  predicate Next(ts: seq<string>, keyword: string) {
    ts != [] && Lower(ts[0]) == keyword
  }

  predicate IsDigit(c: char) {
    || '0' <= c <= '9'
    || c as int == 0xb2 || c as int == 0xb3 || c as int == 0xb9  // superscripts: digits that `int` refuses
  }

  predicate IsCount(t: string) {
    var low := Lower(t);
    low == "all" || low == "any" || low == "1" || (low != [] && forall c <- low :: IsDigit(c))
  }

  predicate StartsCount(ts: seq<string>) {
    |ts| >= 2 && IsCount(ts[0]) && Lower(ts[1]) == "of"
  }

  function ParseExpr(ts: seq<string>): (p: Parse)
    ensures p.Parsed? ==> |p.rest| <= |ts| && (ts != [] ==> |p.rest| < |ts|)
    decreases |ts|, 4
  {
    match ParseTerm(ts)
    case IndexError => IndexError
    case Parsed(c, rest) => ExprTail(c, rest)
  }

  /** The loop over `or`. */
  function ExprTail(acc: Cond, ts: seq<string>): (p: Parse)
    ensures p.Parsed? ==> |p.rest| <= |ts|
    decreases |ts|, 0
  {
    if !Next(ts, "or") then Parsed(acc, ts)
    else
      match ParseTerm(ts[1..])
      case IndexError => IndexError
      case Parsed(c, rest) => ExprTail(Or(acc, c), rest)
  }

  function ParseTerm(ts: seq<string>): (p: Parse)
    ensures p.Parsed? ==> |p.rest| <= |ts| && (ts != [] ==> |p.rest| < |ts|)
    decreases |ts|, 3
  {
    match ParseFactor(ts)
    case IndexError => IndexError
    case Parsed(c, rest) => TermTail(c, rest)
  }

  /** The loop over `and`. */
  function TermTail(acc: Cond, ts: seq<string>): (p: Parse)
    ensures p.Parsed? ==> |p.rest| <= |ts|
    decreases |ts|, 0
  {
    if !Next(ts, "and") then Parsed(acc, ts)
    else
      match ParseFactor(ts[1..])
      case IndexError => IndexError
      case Parsed(c, rest) => TermTail(And(acc, c), rest)
  }

  function ParseFactor(ts: seq<string>): (p: Parse)
    ensures p.Parsed? ==> |p.rest| <= |ts| && (ts != [] ==> |p.rest| < |ts|)
    decreases |ts|, 2
  {
    if ts == [] then Parsed(Never, ts)
    else if Next(ts, "not") then
      match ParseFactor(ts[1..])
      case IndexError => IndexError
      case Parsed(c, rest) => Parsed(Not(c), rest)
    else if ts[0] == "(" then
      match ParseExpr(ts[1..])
      case IndexError => IndexError
      case Parsed(c, rest) => Parsed(c, if rest != [] && rest[0] == ")" then rest[1..] else rest)
    else if StartsCount(ts) then
      if |ts| == 2 then IndexError else Parsed(Of(ts[0], ts[2]), ts[3..])
    else Parsed(Name(ts[0]), ts[1..])
  }
}
