/** The tokenizer of Sigma conditions: parentheses are padded with blanks, then the
    text is split at white space (server/app/detection/sigma.py:117-118). */
module SigmaTokens {
  import opened Text

  function Pad(s: string): string {
    Replace(Replace(s, '(', " ( "), ')', " ) ")
  }

  /** Length of the longest blank-free prefix. */
  function WordLength(s: string): (n: nat)
    ensures n <= |s|
    ensures forall i :: 0 <= i < n ==> !IsSpace(s[i])
    ensures n < |s| ==> IsSpace(s[n])
  {
    if s == [] || IsSpace(s[0]) then 0 else 1 + WordLength(s[1..])
  }

  /** `str.split()` without arguments. */
  function SplitWords(s: string): seq<string> {
    if s == [] then []
    else if IsSpace(s[0]) then SplitWords(s[1..])
    else [s[..WordLength(s)]] + SplitWords(s[WordLength(s)..])
  }

  function Tokenize(condition: string): seq<string> {
    SplitWords(Pad(condition))
  }

  // ---- What a token is, and how tokens may be laid out as text ----

  predicate IsWord(t: string) {
    t != [] && forall c <- t :: !IsSpace(c) && c != '(' && c != ')'
  }

  predicate IsToken(t: string) {
    t == "(" || t == ")" || IsWord(t)
  }

  predicate IsBlank(s: string) {
    forall c <- s :: IsSpace(c)
  }

  /** `gaps[i]` is the white space before token `i`; only two adjacent words need some. */
  predicate IsLayout(tokens: seq<string>, gaps: seq<string>) {
    && |gaps| == |tokens| + 1
    && (forall t <- tokens :: IsToken(t))
    && (forall g <- gaps :: IsBlank(g))
    && (forall i :: 0 < i < |tokens| && IsWord(tokens[i - 1]) && IsWord(tokens[i]) ==> gaps[i] != [])
  }

  function Lay(tokens: seq<string>, gaps: seq<string>): string
    requires |gaps| == |tokens| + 1
  {
    gaps[0] + if tokens == [] then [] else tokens[0] + Lay(tokens[1..], gaps[1..])
  }

  // ---- Lemmas about the two passes ----

  lemma PadConcat(s: string, t: string)
    ensures Pad(s + t) == Pad(s) + Pad(t)
  {
    ReplaceConcat(s, t, '(', " ( ");
    ReplaceConcat(Replace(s, '(', " ( "), Replace(t, '(', " ( "), ')', " ) ");
  }

  lemma PadPlain(s: string)
    requires '(' !in s && ')' !in s
    ensures Pad(s) == s
  {
    ReplaceAbsent(s, '(', " ( ");
    ReplaceAbsent(s, ')', " ) ");
  }

  lemma {:induction false} SplitSkipsBlank(blank: string, s: string)
    requires IsBlank(blank)
    ensures SplitWords(blank + s) == SplitWords(s)
  {
    if blank == [] {
      assert blank + s == s;
    } else {
      assert (blank + s)[1..] == blank[1..] + s;
      SplitSkipsBlank(blank[1..], s);
    }
  }

  lemma SplitTakesWord(word: string, s: string)
    requires word != [] && forall c <- word :: !IsSpace(c)
    requires s != [] ==> IsSpace(s[0])
    ensures SplitWords(word + s) == [word] + SplitWords(s)
  {
    var t := word + s;
    assert forall i :: 0 <= i < |word| ==> t[i] in word;
    assert s != [] ==> t[|word|] == s[0];
    assert WordLength(t) == |word|;
    assert t[..|word|] == word && t[|word|..] == s;
  }

  /** Padding a parenthesis leaves a blank on both sides of it. */
  lemma PadParen(t: string)
    requires t == "(" || t == ")"
    ensures Pad(t) == " " + t + " "
  {
    if t == "(" {
      assert t[1..] == "";
      assert Replace(t, '(', " ( ") == " ( ";
      assert '(' != ')' && ')' !in " ( ";
      ReplaceAbsent(" ( ", ')', " ) ");
    } else {
      ReplaceAbsent(t, '(', " ( ");
      assert t[1..] == "";
      assert Replace(t, ')', " ) ") == " ) ";
    }
  }

  lemma PadBlank(s: string)
    requires IsBlank(s)
    ensures Pad(s) == s
  {
    PadPlain(s);
  }

  lemma PadWord(s: string)
    requires IsWord(s)
    ensures Pad(s) == s
  {
    PadPlain(s);
  }

  /** However tokens are laid out, tokenizing the text gives them back. */
  lemma {:induction false} TokenizeLay(tokens: seq<string>, gaps: seq<string>)
    requires IsLayout(tokens, gaps)
    ensures Tokenize(Lay(tokens, gaps)) == tokens
  {
    PadBlank(gaps[0]);
    if tokens == [] {
      assert Lay(tokens, gaps) == gaps[0];
      SplitSkipsBlank(gaps[0], []);
      assert gaps[0] + [] == gaps[0];
    } else {
      var rest := Lay(tokens[1..], gaps[1..]);
      TokenizeLay(tokens[1..], gaps[1..]);
      PadConcat(gaps[0], tokens[0] + rest);
      PadConcat(tokens[0], rest);
      SplitSkipsBlank(gaps[0], Pad(tokens[0]) + Pad(rest));
      assert IsToken(tokens[0]);
      if IsWord(tokens[0]) {
        PadWord(tokens[0]);
        PaddedLayStartsBlank(tokens[1..], gaps[1..]);
        SplitTakesWord(tokens[0], Pad(rest));
      } else {
        SplitTakesParen(tokens[0], Pad(rest));
      }
    }
  }

  lemma SplitTakesParen(t: string, s: string)
    requires t == "(" || t == ")"
    ensures SplitWords(Pad(t) + s) == [t] + SplitWords(s)
  {
    PadParen(t);
    assert Pad(t) + s == " " + (t + (" " + s));
    SplitSkipsBlank(" ", t + (" " + s));
    SplitTakesWord(t, " " + s);
    SplitSkipsBlank(" ", s);
  }

  /** A layout whose first gap is non-blank, or that starts with a parenthesis, is padded on the left. */
  lemma PaddedLayStartsBlank(tokens: seq<string>, gaps: seq<string>)
    requires IsLayout(tokens, gaps)
    requires tokens != [] && IsWord(tokens[0]) ==> gaps[0] != []
    ensures var p := Pad(Lay(tokens, gaps)); p != [] ==> IsSpace(p[0])
  {
    PadBlank(gaps[0]);
    if tokens == [] {
      assert Lay(tokens, gaps) == gaps[0];
    } else {
      var rest := Lay(tokens[1..], gaps[1..]);
      PadConcat(gaps[0], tokens[0] + rest);
      PadConcat(tokens[0], rest);
      if !IsWord(tokens[0]) {
        assert IsToken(tokens[0]);
        PadParen(tokens[0]);
      }
    }
  }

  /** A single token, with blanks around it or not, tokenizes to itself. */
  lemma TokenizeOne(before: string, t: string, after: string)
    requires IsToken(t) && IsBlank(before) && IsBlank(after)
    ensures Tokenize(before + t + after) == [t]
  {
    var gaps := [before, after];
    assert gaps[1..] == [after] && [t][1..] == [];
    assert Lay([t], gaps) == before + (t + after) == before + t + after;
    TokenizeLay([t], gaps);
  }

  // ---- Tokens of concatenated texts ----

  predicate Separated(s: string, t: string) {
    s == [] || t == [] || IsSpace(s[|s| - 1]) || IsSpace(t[0])
  }

  lemma SplitWordConcat(s: string, t: string)
    requires s != [] && !IsSpace(s[0]) && Separated(s, t)
    ensures WordLength(s) > 0
    ensures SplitWords(s) == [s[..WordLength(s)]] + SplitWords(s[WordLength(s)..])
    ensures SplitWords(s + t) == [s[..WordLength(s)]] + SplitWords(s[WordLength(s)..] + t)
  {
    var n := WordLength(s);
    var rest := s[n..] + t;
    assert s + t == s[..n] + rest;
    assert n < |s| ==> rest[0] == s[n];
    assert n == |s| && t != [] ==> rest[0] == t[0] && !IsSpace(s[|s| - 1]);
    SplitTakesWord(s[..n], rest);
  }

  lemma {:induction false} SplitConcat(s: string, t: string)
    requires Separated(s, t)
    ensures SplitWords(s + t) == SplitWords(s) + SplitWords(t)
    decreases |s|
  {
    if s == [] {
      assert s + t == t;
    } else if IsSpace(s[0]) {
      assert (s + t)[1..] == s[1..] + t;
      SplitConcat(s[1..], t);
    } else {
      SplitWordConcat(s, t);
      SplitConcat(s[WordLength(s)..], t);
    }
  }

  lemma PadKeepsSeparation(s: string, t: string)
    requires Separated(s, t)
    ensures Separated(Pad(s), Pad(t))
  {
    if s != [] && IsSpace(s[|s| - 1]) {
      var last := [s[|s| - 1]];
      assert s == s[..|s| - 1] + last;
      PadConcat(s[..|s| - 1], last);
      PadBlank(last);
    } else if t != [] && IsSpace(t[0]) {
      assert t == [t[0]] + t[1..];
      PadConcat([t[0]], t[1..]);
      PadBlank([t[0]]);
    }
  }

  /** Texts with a blank between them tokenize separately. */
  lemma TokenizeConcat(s: string, t: string)
    requires Separated(s, t)
    ensures Tokenize(s + t) == Tokenize(s) + Tokenize(t)
  {
    PadConcat(s, t);
    PadKeepsSeparation(s, t);
    SplitConcat(Pad(s), Pad(t));
  }

  // ---- The converse: every text is a layout of its tokens ----

  function Concat(parts: seq<string>): string {
    if parts == [] then [] else parts[0] + Concat(parts[1..])
  }

  function DropBlanks(s: string): string {
    if s == [] then [] else (if IsSpace(s[0]) then [] else [s[0]]) + DropBlanks(s[1..])
  }

  lemma {:induction false} DropBlanksConcat(s: string, t: string)
    ensures DropBlanks(s + t) == DropBlanks(s) + DropBlanks(t)
  {
    if s == [] {
      assert s + t == t;
    } else {
      assert (s + t)[1..] == s[1..] + t;
      DropBlanksConcat(s[1..], t);
    }
  }

  lemma {:induction false} DropBlanksWord(s: string)
    requires forall c <- s :: !IsSpace(c)
    ensures DropBlanks(s) == s
  {
    if s != [] {
      DropBlanksWord(s[1..]);
    }
  }

  lemma {:induction false} PadKeepsText(s: string)
    ensures DropBlanks(Pad(s)) == DropBlanks(s)
  {
    if s != [] {
      assert s == [s[0]] + s[1..];
      PadConcat([s[0]], s[1..]);
      DropBlanksConcat(Pad([s[0]]), Pad(s[1..]));
      PadKeepsText(s[1..]);
      if s[0] == '(' || s[0] == ')' {
        PadParen([s[0]]);
        DropBlanksConcat(" ", [s[0]] + " ");
        DropBlanksConcat([s[0]], " ");
      } else {
        PadPlain([s[0]]);
      }
      DropBlanksConcat([s[0]], s[1..]);
    }
  }

  lemma {:induction false} SplitKeepsText(s: string)
    ensures Concat(SplitWords(s)) == DropBlanks(s)
    decreases |s|
  {
    if s == [] {
    } else if IsSpace(s[0]) {
      SplitKeepsText(s[1..]);
    } else {
      var n := WordLength(s);
      SplitKeepsText(s[n..]);
      assert s == s[..n] + s[n..];
      DropBlanksConcat(s[..n], s[n..]);
      DropBlanksWord(s[..n]);
    }
  }

  /** A text in which each parenthesis has a blank (or an end) on both sides. */
  predicate Padded(s: string) {
    forall i :: 0 <= i < |s| && (s[i] == '(' || s[i] == ')') ==>
      && (i > 0 ==> IsSpace(s[i - 1]))
      && (i + 1 < |s| ==> IsSpace(s[i + 1]))
  }

  lemma {:induction false} PadIsPadded(s: string)
    ensures Padded(Pad(s))
    ensures var p := Pad(s); p != [] ==> p[0] != '(' && p[0] != ')'
  {
    if s != [] {
      assert s == [s[0]] + s[1..];
      PadConcat([s[0]], s[1..]);
      PadIsPadded(s[1..]);
      if s[0] == '(' || s[0] == ')' {
        PadParen([s[0]]);
      } else {
        PadPlain([s[0]]);
      }
    }
  }

  lemma {:induction false} SplitGivesTokens(s: string)
    requires Padded(s)
    ensures forall t <- SplitWords(s) :: IsToken(t)
    decreases |s|
  {
    if s == [] {
    } else if IsSpace(s[0]) {
      SplitGivesTokens(s[1..]);
    } else {
      var n := WordLength(s);
      SplitGivesTokens(s[n..]);
      assert n > 0;
      var w := s[..n];
      if n == 1 {
        assert w == [s[0]];
      } else {
        forall i | 0 <= i < n
          ensures s[i] != '(' && s[i] != ')'
        {
          var neighbour := if i > 0 then i - 1 else i + 1;
          assert !IsSpace(s[neighbour]);
        }
        assert forall i :: 0 <= i < n ==> w[i] == s[i];
      }
    }
  }

  /** Tokenizing loses and invents nothing but white space, and yields tokens only. */
  lemma TokenizeKeepsText(s: string)
    ensures Concat(Tokenize(s)) == DropBlanks(s)
    ensures forall t <- Tokenize(s) :: IsToken(t)
  {
    PadKeepsText(s);
    SplitKeepsText(Pad(s));
    PadIsPadded(s);
    SplitGivesTokens(Pad(s));
  }
}
