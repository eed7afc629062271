/** Exactly when rewriting the hosts file a second time replaces what the first time wrote
    (agent/silentguard_agent/monitors/dns_sinkhole.py:78-84, desktop/silentguard_home/engine.py:43-49). */
module HostsExact {
  import opened Text
  import opened TextSearch
  import opened HostsFile

  lemma FindStrayBegin(kept: string, tail: string, pat: string)
    requires IsLine(pat) && Contains(kept, pat)
    ensures Find(kept + "\n" + tail, pat) == Find(kept, pat)
  {
    var c, i := kept + "\n" + tail, Find(kept, pat);
    Found(kept, pat);
    OccursInLines(kept, tail, pat, i);
    FoundFirst(c, pat, i);
    Found(c, pat);
    OccursInLines(kept, tail, pat, Find(c, pat));
    FoundFirst(kept, pat, Find(c, pat));
  }

  lemma BlockEnds(m: Markers, hosts: seq<string>)
    requires MarkersOk(m) && HostsOk(m, hosts) && !Contains(m.begin, m.end)
    ensures EndsBlock(m.begin + "\n" + Body(m, hosts), m)
  {
    EndOfBody(m, hosts);
    BodyEndsLine(m, hosts);
    EndsBehind(m.begin, Body(m, hosts), m);
  }

  // ---- A stray begin marker with no end marker behind it: the second strip reaches to the end of the new block ----

  lemma StrayEnds(kept: string, tail: string, m: Markers, n: nat) returns (rest: string)
    requires MarkersOk(m) && n <= |kept| && !Contains(kept[n..], m.end) && EndsBlock(tail, m)
    ensures rest == (kept + "\n" + tail)[n..] && EndsBlock(rest, m) && Contains(kept + "\n" + tail, m.end)
  {
    rest := kept[n..] + "\n" + tail;
    EndsBehind(kept[n..], tail, m);
    ContainsLines(kept, tail, m.end);
  }

  lemma StrayFacts(kept: string, tail: string, m: Markers) returns (c: string, i: nat, rest: string)
    requires MarkersOk(m) && Contains(kept, m.begin) && !Contains(Behind(kept, m.begin), m.end) && EndsBlock(tail, m)
    ensures c == kept + "\n" + tail && Find(c, m.begin) == i && i < |kept| && i + |m.begin| <= |c| && c[..i] == kept[..i]
    ensures Contains(c, m.end) && rest == c[i + |m.begin|..] && EndsBlock(rest, m)
  {
    c, i := kept + "\n" + tail, Find(kept, m.begin);
    Found(kept, m.begin);
    FindStrayBegin(kept, tail, m.begin);
    rest := StrayEnds(kept, tail, m, i + |m.begin|);
  }

  lemma StrayShortens(kept: string, tail: string, m: Markers, hosts: seq<string>)
    requires MarkersOk(m) && Contains(kept, m.begin) && !Contains(Behind(kept, m.begin), m.end) && EndsBlock(tail, m)
    ensures Rewrite(kept + "\n" + tail, m, hosts) != Some(kept + "\n" + Block(m, hosts) + "\n")
  {
    var c, i, rest := StrayFacts(kept, tail, m);
    CutShortens(c, m, i, rest, |kept|, hosts);
  }

  lemma CutShortens(c: string, m: Markers, i: nat, rest: string, n: nat, hosts: seq<string>)
    requires i + |m.begin| <= |c| && Find(c, m.begin) == i && Contains(c, m.end) && rest == c[i + |m.begin|..]
    requires EndsBlock(rest, m) && i < n
    ensures Rewrite(c, m, hosts).Some? && |Rewrite(c, m, hosts).value| < n + |Block(m, hosts)| + 2
  {
    StripToEnd(c, m, i, rest);
    RStripShortens(c[..i] + "\n");
  }

  lemma RStripShortens(s: string)
    requires s != "" && s[|s| - 1] == '\n'
    ensures |RStrip(s)| < |s|
  {
    RStripSplits(s[..|s| - 1]);
  }

  // ---- One with an end marker behind it: the second strip removes that stretch and leaves the new block ----

  /** A text from a begin marker to the first end marker behind it. */
  predicate Stretch(p: string, m: Markers) {
    && |p| >= |m.begin| + |m.end| && p[..|m.begin|] == m.begin && p[|p| - |m.end|..] == m.end
    && forall k :: |m.begin| <= k < |p| - |m.end| ==> !OccursAt(p, m.end, k)
  }

  /** A text that starts with a newline and whose last line is the end marker. */
  predicate LastLine(q: string, m: Markers) {
    && |q| > |m.end| && q[0] == '\n' && q[|q| - |m.end| - 1] == '\n' && q[|q| - |m.end|..] == m.end
  }

  lemma ShortRotation(p: string, q: string, t: string, m: Markers)
    requires MarkersOk(m) && Stretch(p, m) && LastLine(q, m) && |p| == |q| && |t| < |p|
    ensures t + q != p + t
  {
    if |t| < |m.begin| {
      assert (p + t)[|t|] == p[..|m.begin|][|t|];
      assert (t + q)[|t|] == '\n';
    } else if |t| <= |m.end| {
      var z := |p| + |t| - |m.end| - 1;
      assert (p + t)[z] == p[|p| - |m.end|..][|t| - 1];
      assert (t + q)[z] == '\n';
    } else {
      LongerRotation(p, q, t, m);
    }
  }

  lemma LongerRotation(p: string, q: string, t: string, m: Markers)
    requires MarkersOk(m) && Stretch(p, m) && LastLine(q, m) && |p| == |q| && |m.begin| <= |t| < |p| && |m.end| < |t|
    ensures t + q != p + t
  {
    if t + q == p + t {
      RotationFacts(p, q, t, m);
    }
  }

  lemma RotationFacts(p: string, q: string, t: string, m: Markers)
    requires LastLine(q, m) && |p| == |q| && |m.end| < |t| < |p| && t + q == p + t
    ensures OccursAt(p, m.end, |t| - |m.end|) && p[|t| - |m.end| - 1] == '\n'
  {
    var k := |t| - |m.end|;
    assert t == (t + q)[..|t|] == (p + t)[..|t|] == p[..|t|];
    assert t[k..] == (p + t)[|p| + k..] == (t + q)[|p| + k..] == m.end;
    assert t[k - 1] == (p + t)[|p| + k - 1] == (t + q)[|p| + k - 1] == '\n';
    assert p[k..|t|] == t[k..];
  }

  /** No text turns the one into the other by moving from its front to its back. */
  lemma {:induction false} NoRotation(p: string, q: string, t: string, m: Markers)
    requires MarkersOk(m) && Stretch(p, m) && LastLine(q, m) && |p| == |q|
    ensures t + q != p + t
    decreases |t|
  {
    if |t| < |p| {
      ShortRotation(p, q, t, m);
    } else if t + q == p + t {
      var u := t[|p|..];
      assert t[..|p|] == (t + q)[..|p|] == (p + t)[..|p|] == p;
      assert u + q == (t + q)[|p|..] == (p + t)[|p|..] == t == p + u;
      NoRotation(p, q, u, m);
    }
  }

  lemma {:induction false} BodyTail(m: Markers, hosts: seq<string>) returns (y: string)
    ensures Body(m, hosts) == y + m.end + "\n" && (y != "" ==> y[|y| - 1] == '\n')
  {
    y := "";
    if hosts != [] {
      var z := BodyTail(m, hosts[1..]);
      y := PinLine(hosts[0]) + "\n" + z;
      assert Body(m, hosts) == PinLine(hosts[0]) + "\n" + (z + m.end + "\n");
    }
  }

  lemma BlockLastLine(m: Markers, hosts: seq<string>)
    requires MarkersOk(m)
    ensures LastLine("\n" + Block(m, hosts), m)
  {
    var y := BodyTail(m, hosts);
    var x := m.begin + "\n" + y;
    BlockIsBody(m, hosts);
    assert x + m.end + "\n" == m.begin + "\n" + (y + m.end + "\n");
    SameFront(Block(m, hosts), x + m.end, "\n");
    assert "\n" + x + m.end == "\n" + (x + m.end);
  }

  lemma SplitAtFirst(s: string, pat: string) returns (x: string)
    requires Contains(s, pat)
    ensures s == x + pat + Behind(s, pat) && |x| == Find(s, pat)
  {
    Found(s, pat);
    x := s[..Find(s, pat)];
    assert s[Find(s, pat)..Find(s, pat) + |pat|] == pat;
  }

  lemma StretchIs(rest: string, m: Markers, u: string, t: string)
    requires rest == u + m.end + t && Find(rest, m.end) == |u|
    ensures Stretch(m.begin + u + m.end, m)
  {
    var p := m.begin + u + m.end;
    forall k | |m.begin| <= k < |p| - |m.end|
      ensures !OccursAt(p, m.end, k)
    {
      if OccursAt(p, m.end, k) {
        FoundFirst(rest, m.end, k - |m.begin|);
      }
    }
  }

  /** Where the first begin marker and the first end marker behind it stand decides what is stripped. */
  lemma StripForm(c: string, m: Markers, a: string, u: string, z: string)
    requires c == a + m.begin + (u + m.end + z) && Find(c, m.begin) == |a| && Find(u + m.end + z, m.end) == |u|
    ensures StripBlock(c, m) == Some(a + z)
  {
    var rest := u + m.end + z;
    assert c[|a| + |m.begin|..] == rest;
    assert c[..|a|] == a && rest[|u| + |m.end|..] == z;
    ContainsLater(c, m.end, |a| + |m.begin|);
    assert Behind(c, m.begin) == rest;
  }

  lemma ContainsLater(s: string, pat: string, n: nat)
    requires n <= |s| && Contains(s[n..], pat)
    ensures Contains(s, pat)
  {
    var j := OccursBefore(s, n, pat);
    FoundFirst(s, pat, j);
  }

  lemma Regroup(a: string, b: string, u: string, e: string, t: string, tail: string)
    ensures u + e + t + "\n" + tail == u + e + (t + "\n" + tail)
    ensures a + b + (u + e + t) + "\n" + tail == a + b + (u + e + (t + "\n" + tail))
  {
  }

  /** The second strip removes the stretch behind the stray begin marker. */
  lemma StripStretch(c: string, kept: string, tail: string, m: Markers, a: string, u: string, t: string)
    requires MarkersOk(m) && kept == a + m.begin + (u + m.end + t) && c == kept + "\n" + tail
    requires Contains(kept, m.begin) && Find(kept, m.begin) == |a|
    requires Contains(u + m.end + t, m.end) && Find(u + m.end + t, m.end) == |u|
    ensures StripBlock(c, m) == Some(a + (t + "\n" + tail))
  {
    FindStrayBegin(kept, tail, m.begin);
    FindStrayBegin(u + m.end + t, tail, m.end);
    Regroup(a, m.begin, u, m.end, t, tail);
    StripForm(c, m, a, u, t + "\n" + tail);
  }

  lemma SameFront(x: string, y: string, z: string)
    requires x + z == y + z
    ensures x == y
  {
    assert x == (x + z)[..|x|] && y == (y + z)[..|y|];
  }

  /** So the second rewrite keeps another text than the first. */
  lemma StretchDiffers(kept: string, m: Markers, hosts1: seq<string>, hosts2: seq<string>)
    requires MarkersOk(m) && Contains(kept, m.begin) && Contains(Behind(kept, m.begin), m.end)
    ensures Rewrite(kept + "\n" + Block(m, hosts1) + "\n", m, hosts2) != Some(kept + "\n" + Block(m, hosts2) + "\n")
  {
    var rest := Behind(kept, m.begin);
    var a := SplitAtFirst(kept, m.begin);
    var u := SplitAtFirst(rest, m.end);
    var t := Behind(rest, m.end);
    SecondKeeps(kept, m, hosts1, hosts2, a, u, t);
    OtherKept(a, m.begin + u + m.end, t, kept, m, hosts1, rest, u);
    OtherFront(a + t + ("\n" + Block(m, hosts1)), kept, "\n" + Block(m, hosts2) + "\n");
    assert kept + ("\n" + Block(m, hosts2) + "\n") == kept + "\n" + Block(m, hosts2) + "\n";
  }

  lemma RewriteForm(c: string, m: Markers, x: string, s: string, hosts: seq<string>)
    requires StripBlock(c, m) == Some(x) && RStrip(x) == s
    ensures Rewrite(c, m, hosts) == Some(s + ("\n" + Block(m, hosts) + "\n"))
  {
    assert s + "\n" + Block(m, hosts) + "\n" == s + ("\n" + Block(m, hosts) + "\n");
  }

  lemma SecondKeeps(kept: string, m: Markers, hosts1: seq<string>, hosts2: seq<string>, a: string, u: string, t: string)
    requires MarkersOk(m) && kept == a + m.begin + (u + m.end + t)
    requires Contains(kept, m.begin) && Find(kept, m.begin) == |a|
    requires Contains(u + m.end + t, m.end) && Find(u + m.end + t, m.end) == |u|
    ensures Rewrite(kept + "\n" + Block(m, hosts1) + "\n", m, hosts2)
      == Some(a + t + ("\n" + Block(m, hosts1)) + ("\n" + Block(m, hosts2) + "\n"))
  {
    var tail, c := Block(m, hosts1) + "\n", kept + "\n" + Block(m, hosts1) + "\n";
    GroupEnd(kept, Block(m, hosts1));
    StripStretch(c, kept, tail, m, a, u, t);
    GroupMiddle(a, t, tail);
    StrippedBlock(a + t, m, hosts1);
    RewriteForm(c, m, a + t + "\n" + tail, a + t + ("\n" + Block(m, hosts1)), hosts2);
  }

  lemma GroupEnd(x: string, y: string)
    ensures x + "\n" + y + "\n" == x + "\n" + (y + "\n")
  {
  }

  lemma GroupMiddle(x: string, y: string, z: string)
    ensures x + (y + "\n" + z) == x + y + "\n" + z
  {
  }

  lemma Associate(x: string, y: string, z: string)
    ensures x + y + z == x + (y + z)
  {
  }

  lemma OtherKept(a: string, p: string, t: string, kept: string, m: Markers, hosts: seq<string>, rest: string, u: string)
    requires MarkersOk(m) && p == m.begin + u + m.end && rest == u + m.end + t && Find(rest, m.end) == |u|
    requires kept == a + m.begin + rest
    ensures a + t + ("\n" + Block(m, hosts)) != kept
  {
    var q := "\n" + Block(m, hosts);
    StretchIs(rest, m, u, t);
    BlockLastLine(m, hosts);
    RotationDiffers(a, p, q, t, m);
    GroupStretch(a, m.begin, u, m.end, t);
    Associate(a, t, q);
  }

  lemma GroupStretch(a: string, b: string, u: string, e: string, t: string)
    ensures a + b + (u + e + t) == a + (b + u + e + t)
  {
  }

  lemma RotationDiffers(a: string, p: string, q: string, t: string, m: Markers)
    requires MarkersOk(m) && Stretch(p, m) && LastLine(q, m)
    ensures a + (t + q) != a + (p + t)
  {
    if |p| == |q| {
      NoRotation(p, q, t, m);
      if a + (t + q) == a + (p + t) {
        SameBack(a, t + q, p + t);
      }
    } else {
      assert |a + (t + q)| != |a + (p + t)|;
    }
  }

  lemma OtherFront(x: string, y: string, z: string)
    requires x != y
    ensures x + z != y + z
  {
    if x + z == y + z {
      SameFront(x, y, z);
    }
  }

  lemma SameBack(a: string, x: string, y: string)
    requires a + x == a + y
    ensures x == y
  {
    assert x == (a + x)[|a|..] && y == (a + y)[|a|..];
  }

  /** A block ends no text in newlines. */
  lemma StrippedBlock(s: string, m: Markers, hosts: seq<string>)
    requires MarkersOk(m)
    ensures RStrip(s + "\n" + (Block(m, hosts) + "\n")) == s + ("\n" + Block(m, hosts))
  {
    var q := "\n" + Block(m, hosts);
    BlockLastLine(m, hosts);
    assert (s + q)[|s + q| - 1] == q[|q| - |m.end|..][|m.end| - 1];
    assert s + "\n" + (Block(m, hosts) + "\n") == s + q + "\n";
  }

  // ---- Both ----

  /** A later rewrite replaces an earlier one exactly when nothing outside the first block spells the begin marker. */
  lemma LastRewriteWinsExactly(content: string, m: Markers, hosts1: seq<string>, hosts2: seq<string>)
    requires MarkersOk(m) && HostsOk(m, hosts1) && !Contains(m.begin, m.end) && StripBlock(content, m).Some?
    ensures Rewrite(Rewrite(content, m, hosts1).value, m, hosts2) == Rewrite(content, m, hosts2)
      <==> !Contains(StripBlock(content, m).value, m.begin)
  {
    var stripped := StripBlock(content, m).value;
    if !Contains(stripped, m.begin) {
      LastRewriteWins(content, m, hosts1, hosts2);
    } else {
      FreeWhenStripped(stripped, m.begin);
      KeptBeginDiffers(RStrip(stripped), m, hosts1, hosts2);
    }
  }

  lemma KeptBeginDiffers(kept: string, m: Markers, hosts1: seq<string>, hosts2: seq<string>)
    requires MarkersOk(m) && HostsOk(m, hosts1) && !Contains(m.begin, m.end) && Contains(kept, m.begin)
    ensures Rewrite(kept + "\n" + Block(m, hosts1) + "\n", m, hosts2) != Some(kept + "\n" + Block(m, hosts2) + "\n")
  {
    if Contains(Behind(kept, m.begin), m.end) {
      StretchDiffers(kept, m, hosts1, hosts2);
    } else {
      BlockEnds(m, hosts1);
      BlockIsBody(m, hosts1);
      StrayShortens(kept, Block(m, hosts1) + "\n", m, hosts2);
      assert kept + "\n" + Block(m, hosts1) + "\n" == kept + "\n" + (Block(m, hosts1) + "\n");
    }
  }

  /** A rewritten file is never malformed. */
  lemma StripsAgain(content: string, m: Markers, hosts: seq<string>)
    requires MarkersOk(m) && HostsOk(m, hosts) && !Contains(m.begin, m.end) && StripBlock(content, m).Some?
    ensures StripBlock(Rewrite(content, m, hosts).value, m).Some?
  {
    var kept := RStrip(StripBlock(content, m).value);
    GroupEnd(kept, Block(m, hosts));
    if !Contains(kept, m.begin) {
      BlockIsBody(m, hosts);
      StripOwnBlock(kept, m, hosts);
    } else if Contains(Behind(kept, m.begin), m.end) {
      var a := SplitAtFirst(kept, m.begin);
      var rest := Behind(kept, m.begin);
      var u := SplitAtFirst(rest, m.end);
      var t := Behind(rest, m.end);
      StripStretch(kept + "\n" + (Block(m, hosts) + "\n"), kept, Block(m, hosts) + "\n", m, a, u, t);
    } else {
      BlockEnds(m, hosts);
      BlockIsBody(m, hosts);
      var c, i, rest := StrayFacts(kept, Block(m, hosts) + "\n", m);
      StripToEnd(c, m, i, rest);
    }
  }

  // ---- Two well-formed blocks: what is stripped is the foreign one, and the list written before stays in force ----

  /** The block as the markers around a text that spells no end marker. */
  lemma BlockForm(m: Markers, hosts: seq<string>) returns (u: string)
    requires MarkersOk(m) && HostsOk(m, hosts)
    ensures Block(m, hosts) == m.begin + (u + m.end) && Contains(u + m.end, m.end) && Find(u + m.end, m.end) == |u|
  {
    var y := BodyTail(m, hosts);
    u := "\n" + y;
    BlockIsBody(m, hosts);
    GroupBlock(m.begin, y, m.end);
    SameFront(Block(m, hosts), m.begin + (u + m.end), "\n");
    BodyEndsBlock(m, hosts);
    OccursLast(u, m.end);
    GroupTail(y, m.end);
    FindStrayBegin(u + m.end, "", m.end);
  }

  lemma GroupBlock(b: string, y: string, e: string)
    ensures b + "\n" + (y + e + "\n") == b + ("\n" + y + e) + "\n"
  {
  }

  lemma GroupTail(y: string, e: string)
    ensures "\n" + (y + e + "\n") == "\n" + y + e + "\n" + ""
  {
  }

  lemma OccursLast(u: string, pat: string)
    ensures Contains(u + pat, pat)
  {
    assert OccursAt(u + pat, pat, |u|);
    FoundFirst(u + pat, pat, |u|);
  }

  lemma FirstBlockAt(a: string, m: Markers, block: string, rest: string)
    requires IsLine(m.begin) && block == m.begin + rest && !Contains(a, m.begin)
    ensures Contains(a + "\n" + block, m.begin) && Find(a + "\n" + block, m.begin) == |a| + 1
  {
    FirstIs(block, m.begin, rest);
    FindBehindLine(a, block, m.begin);
    ContainsLines(a, block, m.begin);
  }

  /** The first block is stripped, whatever follows its line. */
  lemma StripFirstBlock(a: string, m: Markers, hosts: seq<string>, tail: string)
    requires MarkersOk(m) && HostsOk(m, hosts) && !Contains(a, m.begin)
    ensures StripBlock(a + "\n" + Block(m, hosts) + "\n" + tail, m) == Some(a + "\n" + ("\n" + tail))
  {
    var u := BlockForm(m, hosts);
    var kept := a + "\n" + Block(m, hosts);
    FirstBlockAt(a, m, Block(m, hosts), u + m.end);
    GroupKept(a, m.begin, u, m.end);
    StripStretch(kept + "\n" + tail, kept, tail, m, a + "\n", u, "");
    NothingInFront(tail);
  }

  lemma NothingInFront(tail: string)
    ensures "" + "\n" + tail == "\n" + tail
  {
  }

  lemma GroupKept(a: string, b: string, u: string, e: string)
    ensures u + e + "" == u + e
    ensures a + "\n" + (b + (u + e)) == a + "\n" + b + (u + e + "")
  {
  }

  lemma FirstIs(s: string, pat: string, rest: string)
    requires s == pat + rest
    ensures Find(s, pat) == 0 && Contains(s, pat)
  {
    assert OccursAt(s, pat, 0);
  }

  function TwoBlocks(a: string, m: Markers, first: seq<string>, second: seq<string>): string {
    a + "\n" + Block(m, first) + "\n" + (Block(m, second) + "\n")
  }

  /** A rewrite drops the first of two blocks, and puts its own behind the second. */
  lemma BlocksSlide(a: string, m: Markers, first: seq<string>, second: seq<string>, hosts: seq<string>)
    requires MarkersOk(m) && HostsOk(m, first) && !Contains(a, m.begin)
    ensures Rewrite(TwoBlocks(a, m, first, second), m, hosts) == Some(TwoBlocks(a + "\n", m, second, hosts))
    ensures !Contains(a + "\n", m.begin)
  {
    var c := TwoBlocks(a, m, first, second);
    StripFirstBlock(a, m, first, Block(m, second) + "\n");
    StrippedBlock(a + "\n", m, second);
    GroupMiddle(a, "", Block(m, second) + "\n");
    var x := a + "\n" + ("\n" + (Block(m, second) + "\n"));
    assert x == a + "\n" + "\n" + (Block(m, second) + "\n");
    RewriteForm(c, m, x, a + "\n" + ("\n" + Block(m, second)), hosts);
    SlideForm(a + "\n", Block(m, second), Block(m, hosts));
    EmptyFree(m.begin);
    ContainsLines(a, "", m.begin);
    assert a + "\n" + "" == a + "\n";
  }

  lemma BlocksSlideTwice(a: string, m: Markers, first: seq<string>, second: seq<string>, hosts1: seq<string>, hosts2: seq<string>)
    requires MarkersOk(m) && HostsOk(m, first) && HostsOk(m, second) && !Contains(a, m.begin)
    ensures var one, two := TwoBlocks(a + "\n", m, second, hosts1), TwoBlocks(a + "\n" + "\n", m, hosts1, hosts2);
      Rewrite(TwoBlocks(a, m, first, second), m, hosts1) == Some(one) && Rewrite(one, m, hosts2) == Some(two)
  {
    BlocksSlide(a, m, first, second, hosts1);
    BlocksSlide(a + "\n", m, second, hosts1, hosts2);
  }

  lemma SlideForm(a: string, x: string, y: string)
    ensures a + ("\n" + x) + ("\n" + y + "\n") == a + "\n" + x + "\n" + (y + "\n")
  {
  }

  /** Every host of the first block is pinned. */
  lemma FirstBlockPins(a: string, m: Markers, first: seq<string>, second: seq<string>, host: string)
    requires MarkersOk(m) && HostsOk(m, first) && host in first
    ensures Pins(TwoBlocks(a, m, first, second), host)
  {
    var rest := Block(m, second) + "\n";
    SplitLines(a + "\n" + Block(m, first), rest);
    SplitLines(a, Block(m, first));
    BlockLines(m, first);
    PinLineIn(first, host);
  }

  lemma BlockLines(m: Markers, hosts: seq<string>)
    requires MarkersOk(m) && HostsOk(m, hosts)
    ensures Split(Block(m, hosts), '\n') == [m.begin] + PinLines(hosts) + [m.end]
  {
    BlockIsBody(m, hosts);
    BodyLines(m, hosts);
    SplitLines(m.begin, Body(m, hosts));
    SplitAbsent(m.begin, '\n');
    assert Block(m, hosts) + "\n" + "" == Block(m, hosts) + "\n";
    SplitLines(Block(m, hosts), "");
    var all := [m.begin] + PinLines(hosts) + [m.end];
    assert [m.begin] + (PinLines(hosts) + [m.end, ""]) == all + [""];
    assert Split(Block(m, hosts), '\n') == (all + [""])[..|all|];
  }
}
