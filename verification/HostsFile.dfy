/** Rewriting the marked block of the hosts file (agent/silentguard_agent/monitors/dns_sinkhole.py:34-104, and the same
    algorithm with other markers in desktop/silentguard_home/engine.py:31-52). */
module HostsFile {
  import opened Text
  import opened TextSearch

  datatype Markers = Markers(begin: string, end: string)

  const AGENT_MARKERS := Markers("# >>> SilentGuard XDR sinkhole >>>", "# <<< SilentGuard XDR sinkhole <<<")
  const HOME_MARKERS := Markers("# >>> SilentGuard Home >>>", "# <<< SilentGuard Home <<<")

  // ---- The rewrite ----

  /** Removing the first marked block; none is the exception raised when no end marker follows the first begin marker. */
  function StripBlock(content: string, m: Markers): Option<string> {
    if Contains(content, m.begin) && Contains(content, m.end) then
      var rest := Behind(content, m.begin);
      if Contains(rest, m.end) then Some(content[..Find(content, m.begin)] + Behind(rest, m.end)) else None
    else Some(content)
  }

  /** What follows the first occurrence. */
  function Behind(s: string, pat: string): (rest: string)
    requires Contains(s, pat)
    ensures Find(s, pat) + |pat| <= |s| && rest == s[Find(s, pat) + |pat|..]
  {
    Found(s, pat);
    s[Find(s, pat) + |pat|..]
  }

  function RStrip(s: string): string {
    if s != "" && s[|s| - 1] == '\n' then RStrip(s[..|s| - 1]) else s
  }

  function PinLine(host: string): string {
    "0.0.0.0 " + host
  }

  function PinLines(hosts: seq<string>): seq<string> {
    seq(|hosts|, i requires 0 <= i < |hosts| => PinLine(hosts[i]))
  }

  function Block(m: Markers, hosts: seq<string>): string {
    Join("\n", [m.begin] + PinLines(hosts) + [m.end])
  }

  function Rewrite(content: string, m: Markers, hosts: seq<string>): Option<string> {
    var stripped := StripBlock(content, m);
    if stripped.None? then None else Some(RStrip(stripped.value) + "\n" + Block(m, hosts) + "\n")
  }

  // ---- What the rewrite needs of markers and hosts ----

  predicate IsLine(s: string) {
    s != "" && '\n' !in s
  }

  predicate MarkersOk(m: Markers) {
    IsLine(m.begin) && IsLine(m.end)
  }

  /** Single-line hosts whose lines do not spell the end marker. */
  predicate HostsOk(m: Markers, hosts: seq<string>) {
    forall h <- hosts :: '\n' !in h && !Contains(PinLine(h), m.end)
  }

  /** The text behind the begin marker's line. */
  function Body(m: Markers, hosts: seq<string>): string {
    if hosts == [] then m.end + "\n" else PinLine(hosts[0]) + "\n" + Body(m, hosts[1..])
  }

  lemma {:induction false} BlockIsBody(m: Markers, hosts: seq<string>)
    ensures Block(m, hosts) + "\n" == m.begin + "\n" + Body(m, hosts)
  {
    var lines := PinLines(hosts) + [m.end];
    JoinBody(m, hosts);
    assert [m.begin] + PinLines(hosts) + [m.end] == [m.begin] + lines;
    assert ([m.begin] + lines)[1..] == lines;
  }

  lemma {:induction false} JoinBody(m: Markers, hosts: seq<string>)
    ensures Join("\n", PinLines(hosts) + [m.end]) + "\n" == Body(m, hosts)
  {
    var lines := PinLines(hosts) + [m.end];
    if hosts == [] {
      assert lines == [m.end];
    } else {
      JoinBody(m, hosts[1..]);
      assert lines[0] == PinLine(hosts[0]);
      assert lines[1..] == PinLines(hosts[1..]) + [m.end];
    }
  }

  lemma {:induction false} RStripSplits(s: string)
    ensures |RStrip(s)| <= |s| && RStrip(s) == s[..|RStrip(s)|]
    ensures RStrip(RStrip(s)) == RStrip(s) && RStrip(RStrip(s) + "\n" + "\n") == RStrip(s)
  {
    if s != "" && s[|s| - 1] == '\n' {
      RStripSplits(s[..|s| - 1]);
    }
  }

  /** The first end marker behind the begin marker is the block's own. */
  lemma {:induction false} EndOfBody(m: Markers, hosts: seq<string>)
    requires MarkersOk(m) && HostsOk(m, hosts)
    ensures Contains(Body(m, hosts), m.end) && Find(Body(m, hosts), m.end) + |m.end| + 1 == |Body(m, hosts)|
  {
    if hosts == [] {
      assert Body(m, hosts)[0..|m.end|] == m.end;
      assert OccursAt(Body(m, hosts), m.end, 0);
    } else {
      EndOfBody(m, hosts[1..]);
      FindBehindLine(PinLine(hosts[0]), Body(m, hosts[1..]), m.end);
      ContainsLines(PinLine(hosts[0]), Body(m, hosts[1..]), m.end);
    }
  }

  lemma BehindBlock(tail: string, m: Markers)
    requires EndsBlock(tail, m)
    ensures Behind(tail, m.end) == "\n"
  {
  }

  /** Where the markers of a written block are found. */
  lemma FindOwnBlock(kept: string, m: Markers, hosts: seq<string>)
    requires MarkersOk(m) && HostsOk(m, hosts) && !Contains(kept, m.begin)
    ensures var c := kept + "\n" + (m.begin + "\n" + Body(m, hosts));
      Contains(c, m.begin) && Contains(c, m.end) && Find(c, m.begin) == |kept| + 1
  {
    var tail := m.begin + "\n" + Body(m, hosts);
    FindBehindLine(kept, tail, m.begin);
    ContainsLines(kept, tail, m.begin);
    EndOfBody(m, hosts);
    ContainsLines(m.begin, Body(m, hosts), m.end);
    ContainsLines(kept, tail, m.end);
  }

  lemma {:induction false} BodyEndsLine(m: Markers, hosts: seq<string>)
    ensures Body(m, hosts) != "" && Body(m, hosts)[|Body(m, hosts)| - 1] == '\n'
  {
    if hosts != [] {
      BodyEndsLine(m, hosts[1..]);
    }
  }

  /** Text that ends in an end marker and a newline, and spells no end marker before. */
  predicate EndsBlock(tail: string, m: Markers) {
    Contains(tail, m.end) && Find(tail, m.end) + |m.end| + 1 == |tail| && tail[|tail| - 1] == '\n'
  }

  lemma EndsBehind(left: string, tail: string, m: Markers)
    requires IsLine(m.end) && EndsBlock(tail, m) && !Contains(left, m.end)
    ensures EndsBlock(left + "\n" + tail, m)
  {
    ContainsLines(left, tail, m.end);
    FindBehindLine(left, tail, m.end);
  }

  lemma StripToEnd(c: string, m: Markers, i: nat, rest: string)
    requires i + |m.begin| <= |c| && Find(c, m.begin) == i && Contains(c, m.end) && rest == c[i + |m.begin|..]
    requires EndsBlock(rest, m)
    ensures StripBlock(c, m) == Some(c[..i] + "\n")
  {
    var behind := Behind(c, m.begin);
    assert behind == rest;
    BehindBlock(behind, m);
  }

  /** Stripping what a rewrite wrote gives back the text it kept. */
  lemma StripOwnBlock(kept: string, m: Markers, hosts: seq<string>)
    requires MarkersOk(m) && HostsOk(m, hosts) && !Contains(kept, m.begin)
    ensures StripBlock(kept + "\n" + (m.begin + "\n" + Body(m, hosts)), m) == Some(kept + "\n" + "\n")
  {
    var body := Body(m, hosts);
    var c := kept + "\n" + (m.begin + "\n" + body);
    FindOwnBlock(kept, m, hosts);
    BodyEndsBlock(m, hosts);
    assert c == kept + "\n" + (m.begin + ("\n" + body));
    StripAt(c, kept, m, "\n" + body);
  }

  lemma StripAt(c: string, kept: string, m: Markers, rest: string)
    requires c == kept + "\n" + (m.begin + rest) && Find(c, m.begin) == |kept| + 1 && Contains(c, m.end)
    requires EndsBlock(rest, m)
    ensures StripBlock(c, m) == Some(kept + "\n" + "\n")
  {
    assert c[|kept| + 1 + |m.begin|..] == rest;
    assert c[..|kept| + 1] == kept + "\n";
    StripToEnd(c, m, |kept| + 1, rest);
  }

  lemma BodyEndsBlock(m: Markers, hosts: seq<string>)
    requires MarkersOk(m) && HostsOk(m, hosts)
    ensures EndsBlock("\n" + Body(m, hosts), m)
  {
    EndOfBody(m, hosts);
    BodyEndsLine(m, hosts);
    EmptyFree(m.end);
    EndsBehind("", Body(m, hosts), m);
    assert "" + "\n" + Body(m, hosts) == "\n" + Body(m, hosts);
  }

  lemma {:induction false} FreeWhenStripped(s: string, pat: string)
    requires IsLine(pat)
    ensures Contains(RStrip(s), pat) <==> Contains(s, pat)
  {
    if s != "" && s[|s| - 1] == '\n' {
      var t := s[..|s| - 1];
      FreeWhenStripped(t, pat);
      EmptyFree(pat);
      ContainsLines(t, "", pat);
      assert t + "\n" + "" == s;
    }
  }

  /** Stripping what a rewrite wrote gives back the kept text, up to newlines behind it. */
  lemma RewriteKeeps(content: string, m: Markers, hosts: seq<string>)
    requires MarkersOk(m) && HostsOk(m, hosts)
    requires StripBlock(content, m).Some? && !Contains(StripBlock(content, m).value, m.begin)
    ensures Rewrite(content, m, hosts).Some?
    ensures var kept := RStrip(StripBlock(content, m).value); var again := StripBlock(Rewrite(content, m, hosts).value, m);
      again == Some(kept + "\n" + "\n") && RStrip(again.value) == kept
  {
    var kept := RStrip(StripBlock(content, m).value);
    RStripSplits(StripBlock(content, m).value);
    PrefixFree(StripBlock(content, m).value, |kept|, m.begin);
    BlockIsBody(m, hosts);
    var file := kept + "\n" + (m.begin + "\n" + Body(m, hosts));
    assert kept + "\n" + Block(m, hosts) + "\n" == kept + "\n" + (Block(m, hosts) + "\n");
    assert Rewrite(content, m, hosts) == Some(file);
    StripOwnBlock(kept, m, hosts);
  }

  lemma StillFree(content: string, m: Markers, hosts: seq<string>)
    requires MarkersOk(m) && HostsOk(m, hosts)
    requires StripBlock(content, m).Some? && !Contains(StripBlock(content, m).value, m.begin)
    ensures var again := StripBlock(Rewrite(content, m, hosts).value, m); again.Some? && !Contains(again.value, m.begin)
  {
    RewriteKeeps(content, m, hosts);
    FreeWhenStripped(StripBlock(content, m).value, m.begin);
    FreeWhenStripped(StripBlock(Rewrite(content, m, hosts).value, m).value, m.begin);
  }

  /** Rewriting with one list and then another equals rewriting with the second alone, once nothing outside the block
      spells the begin marker. */
  lemma LastRewriteWins(content: string, m: Markers, hosts1: seq<string>, hosts2: seq<string>)
    requires MarkersOk(m) && HostsOk(m, hosts1)
    requires StripBlock(content, m).Some? && !Contains(StripBlock(content, m).value, m.begin)
    ensures Rewrite(content, m, hosts1).Some?
    ensures Rewrite(Rewrite(content, m, hosts1).value, m, hosts2) == Rewrite(content, m, hosts2)
  {
    RewriteKeeps(content, m, hosts1);
  }

  lemma OccursBehind(s: string, n: nat, pat: string, j: nat)
    requires n <= j && n <= |s| && OccursAt(s, pat, j)
    ensures Contains(s[n..], pat)
  {
    assert s[n..][j - n..j - n + |pat|] == s[j..j + |pat|];
    FoundFirst(s[n..], pat, j - n);
  }

  lemma OccursBefore(s: string, n: nat, pat: string) returns (j: nat)
    requires n <= |s| && Contains(s[n..], pat)
    ensures n <= j && OccursAt(s, pat, j)
  {
    Found(s[n..], pat);
    j := n + Find(s[n..], pat);
  }

  /** There is no result - an exception ends the pass - exactly when both markers occur and every end marker starts before the
      first begin marker has ended. */
  lemma MalformedExactly(content: string, m: Markers)
    ensures StripBlock(content, m).None?
      <==> Contains(content, m.begin) && Contains(content, m.end)
           && forall j: nat :: OccursAt(content, m.end, j) ==> j < Find(content, m.begin) + |m.begin|
  {
    if Contains(content, m.begin) && Contains(content, m.end) {
      var rest := Behind(content, m.begin);
      var n := Find(content, m.begin) + |m.begin|;
      assert rest == content[n..];
      if Contains(rest, m.end) {
        var j := OccursBefore(content, n, m.end);
      } else {
        NoneBehind(content, n, m.end);
      }
    }
  }

  lemma NoneBehind(s: string, n: nat, pat: string)
    requires n <= |s| && !Contains(s[n..], pat)
    ensures forall j: nat :: OccursAt(s, pat, j) ==> j < n
  {
    forall j: nat | n <= j && OccursAt(s, pat, j)
      ensures false
    {
      OccursBehind(s, n, pat, j);
    }
  }

  lemma FoundBehind(s: string, n: nat, pat: string) returns (j: nat)
    requires n <= |s| && Contains(s[n..], pat)
    ensures n <= j && OccursAt(s, pat, j) && Behind(s[n..], pat) == s[j + |pat|..]
  {
    var k := Find(s[n..], pat);
    Found(s[n..], pat);
    j := n + k;
    assert s[n..][k..k + |pat|] == s[j..j + |pat|];
    assert s[n..][k + |pat|..] == s[j + |pat|..];
  }

  /** What is kept: without a block everything; else all text before and behind it, in order. */
  lemma StripKeeps(content: string, m: Markers) returns (i: nat, j: nat)
    requires StripBlock(content, m).Some?
    ensures Contains(content, m.begin) && Contains(content, m.end) ==>
      && OccursAt(content, m.begin, i) && i + |m.begin| <= j && OccursAt(content, m.end, j)
      && StripBlock(content, m).value == content[..i] + content[j + |m.end|..]
    ensures !(Contains(content, m.begin) && Contains(content, m.end)) ==> StripBlock(content, m).value == content
  {
    i, j := 0, 0;
    if Contains(content, m.begin) && Contains(content, m.end) {
      i := Find(content, m.begin);
      Found(content, m.begin);
      assert Behind(content, m.begin) == content[i + |m.begin|..];
      j := FoundBehind(content, i + |m.begin|, m.end);
    }
  }

  // ---- Reading the file: which hosts it pins ----

  /** Some line of the file maps the host to no address. */
  predicate Pins(content: string, host: string) {
    "0.0.0.0 " + host in Split(content, '\n')
  }

  lemma SplitHead(c: char, s: string)
    ensures Split([c] + s, '\n') == if c == '\n' then [""] + Split(s, '\n') else [[c] + Split(s, '\n')[0]] + Split(s, '\n')[1..]
  {
    assert ([c] + s)[1..] == s;
  }

  lemma GrownFirst(c: char, rest: seq<string>, more: seq<string>)
    requires rest != []
    ensures [[c] + (rest + more)[0]] + (rest + more)[1..] == [[c] + rest[0]] + rest[1..] + more
  {
  }

  lemma {:induction false} SplitLines(a: string, b: string)
    ensures Split(a + "\n" + b, '\n') == Split(a, '\n') + Split(b, '\n')
  {
    if a == "" {
      assert a + "\n" + b == ['\n'] + b;
      SplitHead('\n', b);
    } else {
      var c, tail := a[0], a[1..];
      assert a == [c] + tail && a + "\n" + b == [c] + (tail + "\n" + b);
      SplitHead(c, tail);
      SplitHead(c, tail + "\n" + b);
      SplitLines(tail, b);
      GrownFirst(c, Split(tail, '\n'), Split(b, '\n'));
    }
  }

  lemma {:induction false} BodyLines(m: Markers, hosts: seq<string>)
    requires MarkersOk(m) && forall h <- hosts :: '\n' !in h
    ensures Split(Body(m, hosts), '\n') == PinLines(hosts) + [m.end, ""]
  {
    if hosts == [] {
      SplitLines(m.end, "");
      SplitAbsent(m.end, '\n');
      assert m.end + "\n" + "" == Body(m, hosts);
    } else {
      BodyLines(m, hosts[1..]);
      SplitLines(PinLine(hosts[0]), Body(m, hosts[1..]));
      SplitAbsent(PinLine(hosts[0]), '\n');
      assert PinLines(hosts) == [PinLine(hosts[0])] + PinLines(hosts[1..]);
    }
  }

  /** The stripped text is kept without the newlines at its end. */
  lemma {:induction false} RStripExactly(s: string)
    ensures RStrip(s) <= s && (forall c <- s[|RStrip(s)|..] :: c == '\n')
    ensures RStrip(s) != "" ==> RStrip(s)[|RStrip(s)| - 1] != '\n'
  {
    if s != "" && s[|s| - 1] == '\n' {
      var t := s[..|s| - 1];
      RStripExactly(t);
      assert s[|RStrip(s)|..] == t[|RStrip(s)|..] + "\n";
    }
  }

  lemma {:induction false} RStripLines(s: string, line: string)
    requires line != ""
    ensures line in Split(RStrip(s), '\n') <==> line in Split(s, '\n')
  {
    if s != "" && s[|s| - 1] == '\n' {
      var t := s[..|s| - 1];
      RStripLines(t, line);
      SplitLines(t, "");
      assert s == t + "\n" + "";
    }
  }

  /** The rewritten file, line by line: the kept text, the begin marker, a line for each host, and the end marker. */
  lemma RewriteLines(content: string, m: Markers, hosts: seq<string>)
    requires MarkersOk(m) && forall h <- hosts :: '\n' !in h
    requires Rewrite(content, m, hosts).Some?
    ensures Split(Rewrite(content, m, hosts).value, '\n')
      == Split(RStrip(StripBlock(content, m).value), '\n')
         + ([m.begin] + seq(|hosts|, i requires 0 <= i < |hosts| => "0.0.0.0 " + hosts[i]) + [m.end, ""])
  {
    var kept := RStrip(StripBlock(content, m).value);
    BlockIsBody(m, hosts);
    assert kept + "\n" + Block(m, hosts) + "\n" == kept + "\n" + (m.begin + "\n" + Body(m, hosts));
    SplitLines(kept, m.begin + "\n" + Body(m, hosts));
    SplitLines(m.begin, Body(m, hosts));
    SplitAbsent(m.begin, '\n');
    BodyLines(m, hosts);
    assert PinLines(hosts) == seq(|hosts|, i requires 0 <= i < |hosts| => "0.0.0.0 " + hosts[i]);
    assert [m.begin] + (PinLines(hosts) + [m.end, ""]) == [m.begin] + PinLines(hosts) + [m.end, ""];
  }

  /** The rewritten file pins exactly the listed hosts, besides those pinned by lines outside the block. */
  lemma RewritePinsExactly(content: string, m: Markers, hosts: seq<string>, host: string)
    requires MarkersOk(m) && m.begin[0] == '#' && m.end[0] == '#' && forall h <- hosts :: '\n' !in h
    requires Rewrite(content, m, hosts).Some?
    ensures Pins(Rewrite(content, m, hosts).value, host) <==> host in hosts || Pins(StripBlock(content, m).value, host)
    ensures Pins(RStrip(StripBlock(content, m).value), host) <==> Pins(StripBlock(content, m).value, host)
  {
    var kept, line := RStrip(StripBlock(content, m).value), "0.0.0.0 " + host;
    RewriteLines(content, m, hosts);
    RStripLines(StripBlock(content, m).value, line);
    PinLineIn(hosts, host);
    assert PinLines(hosts) == seq(|hosts|, i requires 0 <= i < |hosts| => "0.0.0.0 " + hosts[i]);
    assert line[0] == '0' && line != m.begin && line != m.end && line != "";
    var block := [m.begin] + PinLines(hosts) + [m.end, ""];
    assert line in block <==> line in PinLines(hosts);
    assert line in Split(kept, '\n') + block <==> line in Split(kept, '\n') || line in block;
  }

  lemma PinLineIn(hosts: seq<string>, host: string)
    ensures PinLine(host) in PinLines(hosts) <==> host in hosts
  {
    var line := PinLine(host);
    if line in PinLines(hosts) {
      var i :| 0 <= i < |hosts| && PinLines(hosts)[i] == line;
      assert PinLine(hosts[i])[8..] == hosts[i] && line[8..] == host;
    }
    if host in hosts {
      var i :| 0 <= i < |hosts| && hosts[i] == host;
      assert PinLines(hosts)[i] == line;
    }
  }

  /** The text behind a rewrite pins other hosts than the text it kept exactly when it lists one that is not pinned there. */
  lemma OtherPinsExactly(content: string, m: Markers, hosts: seq<string>)
    requires MarkersOk(m) && m.begin[0] == '#' && m.end[0] == '#' && forall h <- hosts :: '\n' !in h
    requires Rewrite(content, m, hosts).Some?
    ensures var file, kept := Rewrite(content, m, hosts).value, RStrip(StripBlock(content, m).value);
      (exists h :: Pins(file, h) != Pins(kept, h)) <==> exists h :: h in hosts && !Pins(kept, h)
  {
    var file, kept := Rewrite(content, m, hosts).value, RStrip(StripBlock(content, m).value);
    forall h
      ensures Pins(file, h) <==> h in hosts || Pins(kept, h)
    {
      RewritePinsExactly(content, m, hosts, h);
    }
  }

  // ---- One block remains ----

  lemma BeginFirstOnly(m: Markers, hosts: seq<string>, j: nat)
    requires MarkersOk(m) && !Contains(m.end, m.begin) && forall h <- hosts :: !Contains(PinLine(h), m.begin)
    ensures OccursAt(m.begin + "\n" + Body(m, hosts), m.begin, j) <==> j == 0
  {
    BodyFree(m, hosts, m.begin);
    OccursInLines(m.begin, Body(m, hosts), m.begin, j);
    if j > |m.begin| {
      FreeAt(Body(m, hosts), m.begin, j - |m.begin| - 1);
    }
    assert m.begin[0..|m.begin|] == m.begin;
  }

  lemma {:induction false} BodyFree(m: Markers, hosts: seq<string>, pat: string)
    requires IsLine(pat) && !Contains(m.end, pat) && forall h <- hosts :: !Contains(PinLine(h), pat)
    ensures !Contains(Body(m, hosts), pat)
  {
    EmptyFree(pat);
    if hosts == [] {
      ContainsLines(m.end, "", pat);
      assert m.end + "\n" + "" == Body(m, hosts);
    } else {
      BodyFree(m, hosts[1..], pat);
      ContainsLines(PinLine(hosts[0]), Body(m, hosts[1..]), pat);
    }
  }

  /** After a rewrite the begin marker occurs at one place only: the line behind the kept text. */
  lemma OneBlockRemains(content: string, m: Markers, hosts: seq<string>, i: nat)
    requires MarkersOk(m) && !Contains(m.end, m.begin) && forall h <- hosts :: !Contains(PinLine(h), m.begin)
    requires StripBlock(content, m).Some? && !Contains(StripBlock(content, m).value, m.begin)
    ensures OccursAt(Rewrite(content, m, hosts).value, m.begin, i) <==> i == |RStrip(StripBlock(content, m).value)| + 1
  {
    var kept := RStrip(StripBlock(content, m).value);
    RStripSplits(StripBlock(content, m).value);
    PrefixFree(StripBlock(content, m).value, |kept|, m.begin);
    BlockIsBody(m, hosts);
    var tail := m.begin + "\n" + Body(m, hosts);
    assert kept + "\n" + Block(m, hosts) + "\n" == kept + "\n" + tail;
    OccursInLines(kept, tail, m.begin, i);
    if i <= |kept| {
      FreeAt(kept, m.begin, i);
    } else {
      BeginFirstOnly(m, hosts, i - |kept| - 1);
    }
  }
}
