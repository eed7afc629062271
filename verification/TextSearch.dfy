/** Searching a text for a pattern, as `in` and `split(pattern, 1)` do. */
module TextSearch {
  predicate OccursAt(s: string, pat: string, i: nat) {
    i + |pat| <= |s| && s[i..i + |pat|] == pat
  }

  /** The first place at which `pat` occurs, or the length of `s` plus one. */
  function Find(s: string, pat: string): (i: nat)
    ensures i <= |s| + 1
  {
    if OccursAt(s, pat, 0) then 0 else if s == "" then 1 else 1 + Find(s[1..], pat)
  }

  predicate Contains(s: string, pat: string) {
    Find(s, pat) <= |s|
  }

  lemma {:induction false} Found(s: string, pat: string)
    requires Contains(s, pat)
    ensures OccursAt(s, pat, Find(s, pat))
  {
    if !OccursAt(s, pat, 0) && s != "" {
      Found(s[1..], pat);
    }
  }

  /** Contained is what stands somewhere in between. */
  lemma ContainsMeans(s: string, pat: string)
    ensures Contains(s, pat) <==> exists before, after :: s == before + pat + after
  {
    if Contains(s, pat) {
      Found(s, pat);
      var i := Find(s, pat);
      assert s == s[..i] + pat + s[i + |pat|..];
    }
    forall before, after | s == before + pat + after
      ensures Contains(s, pat)
    {
      assert s[|before|..|before| + |pat|] == pat;
      FoundFirst(s, pat, |before|);
    }
  }

  /** Nothing is found before the place `Find` returns. */
  lemma {:induction false} FoundFirst(s: string, pat: string, j: nat)
    requires OccursAt(s, pat, j)
    ensures Find(s, pat) <= j && Contains(s, pat)
  {
    if j > 0 {
      FoundFirst(s[1..], pat, j - 1);
    }
  }

  lemma FindIs(s: string, pat: string, i: nat)
    requires OccursAt(s, pat, i) && forall j :: 0 <= j < i ==> !OccursAt(s, pat, j)
    ensures Find(s, pat) == i
  {
    FoundFirst(s, pat, i);
    Found(s, pat);
  }

  /** A pattern without newlines never spans one. */
  lemma OccursInLines(a: string, b: string, pat: string, i: nat)
    requires pat != "" && '\n' !in pat
    ensures OccursAt(a + "\n" + b, pat, i) <==>
      (if i <= |a| then OccursAt(a, pat, i) else OccursAt(b, pat, i - |a| - 1))
  {
    var s := a + "\n" + b;
    if i + |pat| <= |s| {
      if i + |pat| <= |a| {
        assert s[i..i + |pat|] == a[i..i + |pat|];
      } else if i <= |a| {
        assert s[i..i + |pat|][|a| - i] == '\n';
      } else {
        assert s[i..i + |pat|] == b[i - |a| - 1..i - |a| - 1 + |pat|];
      }
    }
  }

  /** In front of line `b` there is nothing to find. */
  lemma FreeBehindLine(a: string, b: string, pat: string, j: nat)
    requires pat != "" && '\n' !in pat && !Contains(a, pat) && j < |a| + 1 + Find(b, pat)
    ensures !OccursAt(a + "\n" + b, pat, j)
  {
    OccursInLines(a, b, pat, j);
    if j <= |a| && OccursAt(a, pat, j) {
      FoundFirst(a, pat, j);
    } else if j > |a| && OccursAt(b, pat, j - |a| - 1) {
      FoundFirst(b, pat, j - |a| - 1);
    }
  }

  lemma FindBehindLine(a: string, b: string, pat: string)
    requires pat != "" && '\n' !in pat && !Contains(a, pat) && Contains(b, pat)
    ensures Find(a + "\n" + b, pat) == |a| + 1 + Find(b, pat)
  {
    var s, k := a + "\n" + b, |a| + 1 + Find(b, pat);
    Found(b, pat);
    OccursInLines(a, b, pat, k);
    forall j | 0 <= j < k
      ensures !OccursAt(s, pat, j)
    {
      FreeBehindLine(a, b, pat, j);
    }
    FindIs(s, pat, k);
  }

  lemma ContainsLines(a: string, b: string, pat: string)
    requires pat != "" && '\n' !in pat
    ensures Contains(a + "\n" + b, pat) <==> Contains(a, pat) || Contains(b, pat)
  {
    var s := a + "\n" + b;
    if Contains(s, pat) {
      var i := Find(s, pat);
      Found(s, pat);
      OccursInLines(a, b, pat, i);
      if i <= |a| { FoundFirst(a, pat, i); } else { FoundFirst(b, pat, i - |a| - 1); }
    }
    if Contains(a, pat) {
      Found(a, pat);
      OccursInLines(a, b, pat, Find(a, pat));
      FoundFirst(s, pat, Find(a, pat));
    }
    if Contains(b, pat) {
      Found(b, pat);
      OccursInLines(a, b, pat, |a| + 1 + Find(b, pat));
      FoundFirst(s, pat, |a| + 1 + Find(b, pat));
    }
  }

  lemma FreeAt(s: string, pat: string, j: nat)
    requires !Contains(s, pat)
    ensures !OccursAt(s, pat, j)
  {
    if OccursAt(s, pat, j) {
      FoundFirst(s, pat, j);
    }
  }

  lemma PrefixFree(s: string, n: nat, pat: string)
    requires n <= |s| && !Contains(s, pat)
    ensures !Contains(s[..n], pat)
  {
    if Contains(s[..n], pat) {
      var i := Find(s[..n], pat);
      Found(s[..n], pat);
      assert s[..n][i..i + |pat|] == s[i..i + |pat|];
      FoundFirst(s, pat, i);
    }
  }

  lemma SuffixFree(s: string, n: nat, pat: string)
    requires n <= |s| && !Contains(s, pat)
    ensures !Contains(s[n..], pat)
  {
    if Contains(s[n..], pat) {
      var i := Find(s[n..], pat);
      Found(s[n..], pat);
      assert s[n..][i..i + |pat|] == s[n + i..n + i + |pat|];
      FoundFirst(s, pat, n + i);
    }
  }

  lemma EmptyFree(pat: string)
    requires pat != ""
    ensures !Contains("", pat)
  {
  }
}
