/** The string operations the modelled code relies on, over Python's `str`.
    Case folding is ASCII; white space is exactly what `str.isspace` accepts. */
module Text {

  datatype Option<+T> = None | Some(value: T)

  function LowerChar(c: char): char {
    if 'A' <= c <= 'Z' then (c as int + 32) as char else c
  }

  function Lower(s: string): (r: string)
    ensures |r| == |s|
  {
    seq(|s|, i requires 0 <= i < |s| => LowerChar(s[i]))
  }

  predicate IsSpace(c: char) {
    var k := c as int;
    || 0x09 <= k <= 0x0d || 0x1c <= k <= 0x20 || k == 0x85 || k == 0xa0 || k == 0x1680
    || 0x2000 <= k <= 0x200a || k == 0x2028 || k == 0x2029 || k == 0x202f || k == 0x205f || k == 0x3000
  }

  /** The white space of Unicode and the separators of ASCII. */
  lemma SpacesAre(c: char)
    ensures IsSpace(c) <==> c as int in {
      9, 10, 11, 12, 13, 28, 29, 30, 31, 32, 0x85, 0xa0, 0x1680, 0x2000, 0x2001, 0x2002, 0x2003, 0x2004, 0x2005, 0x2006,
      0x2007, 0x2008, 0x2009, 0x200a, 0x2028, 0x2029, 0x202f, 0x205f, 0x3000}
  {
  }

  predicate StartsWith(s: string, prefix: string) {
    |prefix| <= |s| && s[..|prefix|] == prefix
  }

  predicate EndsWith(s: string, suffix: string) {
    |suffix| <= |s| && s[|s| - |suffix|..] == suffix
  }

  lemma StartsMeans(s: string, prefix: string)
    ensures StartsWith(s, prefix) <==> exists after :: s == prefix + after
  {
    if StartsWith(s, prefix) {
      assert s == prefix + s[|prefix|..];
    }
  }

  lemma EndsMeans(s: string, suffix: string)
    ensures EndsWith(s, suffix) <==> exists before :: s == before + suffix
  {
    if EndsWith(s, suffix) {
      assert s == s[..|s| - |suffix|] + suffix;
    }
    forall before | s == before + suffix
      ensures EndsWith(s, suffix)
    {
    }
  }

  /** Folding exchanges capitals for the small letters at the same places of the alphabet, and nothing else. */
  lemma FoldsLetters(c: char, i: nat)
    ensures i < 26 ==> LowerChar(('A' as int + i) as char) == ('a' as int + i) as char
    ensures c < 'A' || 'Z' < c ==> LowerChar(c) == c
  {
  }

  /** `s.replace(c, sub)` for a one-character `c`. */
  function Replace(s: string, c: char, sub: string): string {
    if s == [] then [] else (if s[0] == c then sub else [s[0]]) + Replace(s[1..], c, sub)
  }

  lemma {:induction false} ReplaceConcat(s: string, t: string, c: char, sub: string)
    ensures Replace(s + t, c, sub) == Replace(s, c, sub) + Replace(t, c, sub)
  {
    if s == [] {
      assert s + t == t;
    } else {
      assert (s + t)[1..] == s[1..] + t;
      ReplaceConcat(s[1..], t, c, sub);
    }
  }

  lemma {:induction false} ReplaceAbsent(s: string, c: char, sub: string)
    requires c !in s
    ensures Replace(s, c, sub) == s
  {
    if s != [] {
      ReplaceAbsent(s[1..], c, sub);
    }
  }

  /** `s.strip()`. */
  function Strip(s: string): string {
    if s == "" then s
    else if IsSpace(s[0]) then Strip(s[1..])
    else if IsSpace(s[|s| - 1]) then Strip(s[..|s| - 1])
    else s
  }

  predicate Blank(s: string) {
    forall c <- s :: IsSpace(c)
  }

  predicate Trimmed(s: string) {
    s == "" || (!IsSpace(s[0]) && !IsSpace(s[|s| - 1]))
  }

  /** Stripping takes the white space off both ends, and nothing else. */
  lemma {:induction false} StripBlanks(a: string, s: string, b: string)
    requires Blank(a) && Blank(b) && Trimmed(s)
    ensures Strip(a + s + b) == s
    decreases |a| + |b|
  {
    var t := a + s + b;
    if a != "" {
      assert t[0] in a && t[1..] == a[1..] + s + b;
      StripBlanks(a[1..], s, b);
    } else if b == "" {
      assert t == s;
    } else if s == "" {
      assert t[0] in b && t[1..] == "" + s + b[1..];
      StripBlanks("", s, b[1..]);
    } else {
      assert t[|t| - 1] in b && t[..|t| - 1] == "" + s + b[..|b| - 1];
      StripBlanks("", s, b[..|b| - 1]);
    }
  }

  /** `s.split(sep)` for a one-character `sep`. */
  function Split(s: string, sep: char): (parts: seq<string>)
    ensures parts != []
  {
    if s == "" then [""]
    else
      var rest := Split(s[1..], sep);
      if s[0] == sep then [""] + rest else [[s[0]] + rest[0]] + rest[1..]
  }

  lemma {:induction false} SplitAbsent(s: string, sep: char)
    requires sep !in s
    ensures Split(s, sep) == [s]
  {
    if s != "" {
      SplitAbsent(s[1..], sep);
      assert s[0] in s && s == [s[0]] + s[1..];
    }
  }

  lemma JoinGrows(sep: string, head: string, parts: seq<string>)
    requires parts != []
    ensures Join(sep, [head + parts[0]] + parts[1..]) == head + Join(sep, parts)
  {
    var more := [head + parts[0]] + parts[1..];
    assert more[1..] == parts[1..];
    if |parts| > 1 {
      JoinFirst(sep, more);
      JoinFirst(sep, parts);
    }
  }

  /** Joining the parts of a text gives it back. */
  lemma {:induction false} JoinSplit(s: string, sep: char)
    ensures Join([sep], Split(s, sep)) == s
  {
    if s != "" {
      var rest := Split(s[1..], sep);
      JoinSplit(s[1..], sep);
      if s[0] == sep {
        JoinFirst([sep], [""] + rest);
        assert ([""] + rest)[1..] == rest;
      } else {
        JoinGrows([sep], [s[0]], rest);
      }
    }
  }

  /** Splitting cuts at every separator. */
  lemma {:induction false} PartsFree(s: string, sep: char)
    ensures forall i :: 0 <= i < |Split(s, sep)| ==> sep !in Split(s, sep)[i]
  {
    if s != "" {
      PartsFree(s[1..], sep);
      var rest := Split(s[1..], sep);
      assert sep !in rest[0];
    }
  }

  /** Splitting what was joined gives the parts back. */
  lemma {:induction false} SplitJoined(parts: seq<string>, sep: char)
    requires parts != [] && forall i :: 0 <= i < |parts| ==> sep !in parts[i]
    ensures Split(Join([sep], parts), sep) == parts
  {
    if |parts| == 1 {
      SplitAbsent(parts[0], sep);
    } else {
      var more := Join([sep], parts[1..]);
      SplitJoined(parts[1..], sep);
      SplitBehind(parts[0], more, sep);
      JoinFirst([sep], parts);
    }
  }

  lemma JoinFirst(sep: string, parts: seq<string>)
    requires |parts| > 1
    ensures Join(sep, parts) == parts[0] + sep + Join(sep, parts[1..])
  {
  }

  lemma {:induction false} SplitBehind(a: string, b: string, sep: char)
    requires sep !in a
    ensures Split(a + [sep] + b, sep) == [a] + Split(b, sep)
  {
    var s := a + [sep] + b;
    if a == "" {
      assert s[0] == sep && s[1..] == b;
    } else {
      assert a[0] in a && s[0] == a[0] && s[1..] == a[1..] + [sep] + b;
      SplitBehind(a[1..], b, sep);
      assert [a[0]] + a[1..] == a;
    }
  }

  /** `sep.join(parts)`. */
  function Join(sep: string, parts: seq<string>): string {
    if parts == [] then []
    else if |parts| == 1 then parts[0]
    else parts[0] + sep + Join(sep, parts[1..])
  }
}
