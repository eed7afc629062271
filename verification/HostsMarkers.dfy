/** The hosts-file rewrite with the markers the two programs use (agent/silentguard_agent/monitors/dns_sinkhole.py:18-19, 78-84
    and desktop/silentguard_home/engine.py:21-22, 43-49). */
module HostsMarkers {
  import opened Text
  import opened TextSearch
  import opened HostsFile
  import opened HostsExact

  /** Two lines of comment, neither of which spells the other. */
  predicate Proper(m: Markers) {
    && MarkersOk(m) && m.begin[0] == '#' && m.end[0] == '#'
    && !Contains(m.begin, m.end) && !Contains(m.end, m.begin)
  }

  /** What the arrows of a marker look like. */
  predicate Arrows(marker: string, c: char) {
    IsLine(marker) && |marker| > 2 && marker[0] == '#' && marker[2] == c
  }

  lemma OtherArrows(s: string, pat: string)
    requires |s| == |pat| > 2 && s[2] != pat[2]
    ensures !Contains(s, pat)
  {
    if Contains(s, pat) {
      OccursWhole(s, pat);
    }
  }

  lemma OccursWhole(s: string, pat: string)
    requires |s| == |pat| && Contains(s, pat)
    ensures s == pat
  {
    Found(s, pat);
    assert s[0..|pat|] == s;
  }

  lemma ProperWhenArrows(m: Markers)
    requires Arrows(m.begin, '>') && Arrows(m.end, '<') && |m.begin| == |m.end|
    ensures Proper(m)
  {
    OtherArrows(m.begin, m.end);
    OtherArrows(m.end, m.begin);
  }

  lemma AgentEnd()
    ensures Arrows(AGENT_MARKERS.end, '<') && |AGENT_MARKERS.end| == 34
  {
  }

  lemma HomeEnd()
    ensures Arrows(HOME_MARKERS.end, '<') && |HOME_MARKERS.end| == 26
  {
  }

  lemma AgentMarkersProper()
    ensures Proper(AGENT_MARKERS)
  {
    AgentEnd();
    ProperWhenArrows(AGENT_MARKERS);
  }

  lemma HomeMarkersProper()
    ensures Proper(HOME_MARKERS)
  {
    HomeEnd();
    ProperWhenArrows(HOME_MARKERS);
  }

  /** Single-line hosts without a comment sign. */
  predicate IsPlain(hosts: seq<string>) {
    forall h <- hosts :: '\n' !in h && '#' !in h
  }

  lemma CommentFree(s: string, pat: string)
    requires pat != "" && pat[0] !in s
    ensures !Contains(s, pat)
  {
    if Contains(s, pat) {
      Found(s, pat);
      var i := Find(s, pat);
    }
  }

  lemma PlainHost(m: Markers, host: string)
    requires Proper(m) && '#' !in host
    ensures !Contains(PinLine(host), m.begin) && !Contains(PinLine(host), m.end)
  {
    CommentFree(PinLine(host), m.begin);
    CommentFree(PinLine(host), m.end);
  }

  lemma PlainHosts(m: Markers, hosts: seq<string>)
    requires Proper(m) && IsPlain(hosts)
    ensures HostsOk(m, hosts) && forall h <- hosts :: !Contains(PinLine(h), m.begin)
  {
    forall h | h in hosts
      ensures !Contains(PinLine(h), m.begin) && !Contains(PinLine(h), m.end)
    {
      PlainHost(m, h);
    }
  }

  // ---- The two theorems on the rewrite, for the markers in use ----

  predicate IsOwn(m: Markers) {
    m == AGENT_MARKERS || m == HOME_MARKERS
  }

  lemma OwnMarkersProper(m: Markers)
    requires IsOwn(m)
    ensures Proper(m)
  {
    AgentMarkersProper();
    HomeMarkersProper();
  }

  /** For either program: the last rewrite wins exactly when nothing outside the first block spells the begin marker. */
  lemma OwnRewriteWinsExactly(content: string, m: Markers, hosts1: seq<string>, hosts2: seq<string>)
    requires IsOwn(m) && IsPlain(hosts1) && StripBlock(content, m).Some?
    ensures Rewrite(Rewrite(content, m, hosts1).value, m, hosts2) == Rewrite(content, m, hosts2)
      <==> !Contains(StripBlock(content, m).value, m.begin)
  {
    OwnMarkersProper(m);
    PlainHosts(m, hosts1);
    LastRewriteWinsExactly(content, m, hosts1, hosts2);
  }

  /** A file that could be rewritten once can be rewritten again. */
  lemma OwnStripsAgain(content: string, m: Markers, hosts: seq<string>)
    requires IsOwn(m) && IsPlain(hosts) && StripBlock(content, m).Some?
    ensures StripBlock(Rewrite(content, m, hosts).value, m).Some?
  {
    OwnMarkersProper(m);
    PlainHosts(m, hosts);
    StripsAgain(content, m, hosts);
  }

  /** For either program: one block is left, behind the kept text. */
  lemma OwnBlockRemains(content: string, m: Markers, hosts: seq<string>, i: nat)
    requires IsOwn(m) && IsPlain(hosts)
    requires StripBlock(content, m).Some? && !Contains(StripBlock(content, m).value, m.begin)
    ensures OccursAt(Rewrite(content, m, hosts).value, m.begin, i) <==> i == |RStrip(StripBlock(content, m).value)| + 1
  {
    OwnMarkersProper(m);
    PlainHosts(m, hosts);
    OneBlockRemains(content, m, hosts, i);
  }

  // ---- A stray begin marker ----

  lemma StrayLine(m: Markers, text: string)
    requires Proper(m) && !Contains(text, m.end)
    ensures var c := m.begin + "\n" + text;
      !Contains(c, m.end) && Find(c, m.begin) == 0 && Contains(c, m.begin) && StripBlock(c, m) == Some(c)
  {
    ContainsLines(m.begin, text, m.end);
  }

  lemma StrippedStart(c: string, m: Markers)
    requires MarkersOk(m) && Contains(c, m.begin) && Find(c, m.begin) == 0
    ensures Find(RStrip(c), m.begin) == 0 && Contains(RStrip(c), m.begin)
  {
    FreeWhenStripped(c, m.begin);
    RStripSplits(c);
    Found(c, m.begin);
    var s := RStrip(c);
    Found(s, m.begin);
    assert s[0..|m.begin|] == c[0..|m.begin|];
    FoundFirst(s, m.begin, 0);
  }

  lemma ErasedBehindStart(kept: string, tail: string, m: Markers, hosts: seq<string>)
    requires MarkersOk(m) && Contains(kept, m.begin) && Find(kept, m.begin) == 0 && !Contains(kept, m.end) && EndsBlock(tail, m)
    ensures Rewrite(kept + "\n" + tail, m, hosts) == Some("\n" + Block(m, hosts) + "\n")
  {
    SuffixFree(kept, |m.begin|, m.end);
    var c, i, rest := StrayFacts(kept, tail, m);
    StripToEnd(c, m, i, rest);
  }

  /** A begin marker in front of a text without end marker: the first rewrite appends a block, and the second erases the text. */
  lemma StrayBeginErases(m: Markers, text: string, hosts1: seq<string>, hosts2: seq<string>)
    requires Proper(m) && IsPlain(hosts1) && !Contains(text, m.end)
    ensures var c := m.begin + "\n" + text;
      && Rewrite(c, m, hosts1) == Some(RStrip(c) + "\n" + Block(m, hosts1) + "\n")
      && Rewrite(RStrip(c) + "\n" + Block(m, hosts1) + "\n", m, hosts2) == Some("\n" + Block(m, hosts2) + "\n")
  {
    var c := m.begin + "\n" + text;
    StrayLine(m, text);
    FreeWhenStripped(c, m.end);
    StrippedStart(c, m);
    BlockBehindErased(RStrip(c), m, hosts1, hosts2);
  }

  lemma BlockBehindErased(kept: string, m: Markers, hosts1: seq<string>, hosts2: seq<string>)
    requires Proper(m) && IsPlain(hosts1)
    requires Contains(kept, m.begin) && Find(kept, m.begin) == 0 && !Contains(kept, m.end)
    ensures Rewrite(kept + "\n" + Block(m, hosts1) + "\n", m, hosts2) == Some("\n" + Block(m, hosts2) + "\n")
  {
    PlainHosts(m, hosts1);
    BlockEnds(m, hosts1);
    BlockIsBody(m, hosts1);
    assert kept + "\n" + Block(m, hosts1) + "\n" == kept + "\n" + (Block(m, hosts1) + "\n");
    ErasedBehindStart(kept, Block(m, hosts1) + "\n", m, hosts2);
  }

  const LOCALHOST := "127.0.0.1 localhost"

  lemma PlainText()
    ensures '#' !in LOCALHOST && IsPlain(["evil.example"])
  {
  }

  /** A hosts file with the agent's begin marker left on its first line: blocking one host and then none loses the line for
      localhost. */
  lemma LocalhostLost(m: Markers)
    requires IsOwn(m)
    ensures var first := Rewrite(m.begin + "\n" + LOCALHOST, m, ["evil.example"]);
      first.Some? && Rewrite(first.value, m, []) == Some("\n" + Block(m, []) + "\n")
  {
    OwnMarkersProper(m);
    PlainText();
    CommentFree(LOCALHOST, m.end);
    StrayBeginErases(m, LOCALHOST, ["evil.example"], []);
  }
}
