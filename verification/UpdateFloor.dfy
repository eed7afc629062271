/** Version order and the anti-rollback floor of signed updates
    (agent/silentguard_agent/update_verifier.py:43-74, response_handlers.py:79-131, config.py:133-142, telemetry.py:73). */
module UpdateFloor {
  import opened Text
  import opened Decimal

  // ---- Versions ----

  /** Length of the leading run of digits. */
  function DigitCount(chunk: string): (n: nat)
    ensures n <= |chunk| && (forall i :: 0 <= i < n ==> IsDigit(chunk[i])) && (n < |chunk| ==> !IsDigit(chunk[n]))
  {
    if chunk == "" || !IsDigit(chunk[0]) then 0 else 1 + DigitCount(chunk[1..])
  }

  function Chunks(chunks: seq<string>): seq<nat> {
    if chunks == [] then []
    else
      var last := |chunks| - 1;
      Chunks(chunks[..last]) + [Number(chunks[last][..DigitCount(chunks[last])])]
  }

  function ParseVersion(value: string): seq<nat> {
    Chunks(Split(value, '.'))
  }

  method ParseVersionLoop(value: string) returns (parts: seq<nat>)
    ensures parts == ParseVersion(value)
  {
    parts := [];
    var chunks := Split(value, '.');
    for i := 0 to |chunks|
      invariant parts == Chunks(chunks[..i])
    {
      var chunk, digits, j := chunks[i], "", 0;
      while j < |chunk| && IsDigit(chunk[j])
        invariant 0 <= j <= |chunk| && digits == chunk[..j] && forall k :: 0 <= k < j ==> IsDigit(chunk[k])
      {
        digits := digits + [chunk[j]];
        j := j + 1;
      }
      assert j == DigitCount(chunk);
      assert chunks[..i + 1][..i] == chunks[..i];
      parts := parts + [Number(digits)];
    }
    assert chunks[..|chunks|] == chunks;
  }

  // ---- Parsing reads what printing wrote ----

  /** A part of a version: its number in decimal, and what follows it up to the next dot. */
  datatype Part = Part(n: nat, tail: string)

  predicate PartOk(p: Part) {
    '.' !in p.tail && (p.tail != "" ==> !IsDigit(p.tail[0]))
  }

  function PrintPart(p: Part): string {
    Print(p.n) + p.tail
  }

  function PrintParts(parts: seq<Part>): seq<string> {
    seq(|parts|, i requires 0 <= i < |parts| => PrintPart(parts[i]))
  }

  /** `1.2.0-rc1`, say. */
  function PrintVersion(parts: seq<Part>): string {
    Join(".", PrintParts(parts))
  }

  function NumbersOf(parts: seq<Part>): seq<nat> {
    seq(|parts|, i requires 0 <= i < |parts| => parts[i].n)
  }

  lemma PartReads(p: Part)
    requires PartOk(p)
    ensures var s := PrintPart(p); '.' !in s && DigitCount(s) > 0 && Number(s[..DigitCount(s)]) == p.n
  {
    NumberOfPrinted(p.n);
    CountsDigits(Print(p.n), p.tail);
    assert PrintPart(p)[..|Print(p.n)|] == Print(p.n);
    assert forall c <- Print(p.n) :: IsDigit(c);
  }

  lemma {:induction false} CountsDigits(digits: string, tail: string)
    requires AllDigits(digits) && (tail != "" ==> !IsDigit(tail[0]))
    ensures DigitCount(digits + tail) == |digits|
  {
    if digits == "" {
      assert digits + tail == tail;
    } else {
      assert (digits + tail)[1..] == digits[1..] + tail;
      CountsDigits(digits[1..], tail);
    }
  }

  lemma {:induction false} ChunksRead(parts: seq<Part>)
    requires forall i :: 0 <= i < |parts| ==> PartOk(parts[i])
    ensures Chunks(PrintParts(parts)) == NumbersOf(parts)
  {
    if parts != [] {
      var last := |parts| - 1;
      ChunksRead(parts[..last]);
      PartReads(parts[last]);
      assert PrintParts(parts)[..last] == PrintParts(parts[..last]);
      assert NumbersOf(parts) == NumbersOf(parts[..last]) + [parts[last].n];
    }
  }

  /** Parsing a printed version gives its numbers back, whatever follows them. */
  lemma ParsePrinted(parts: seq<Part>)
    requires parts != [] && forall i :: 0 <= i < |parts| ==> PartOk(parts[i])
    ensures ParseVersion(PrintVersion(parts)) == NumbersOf(parts)
    ensures PrintVersion(parts) != "" && IsNumericVersion(PrintVersion(parts))
  {
    forall i | 0 <= i < |parts|
      ensures '.' !in PrintParts(parts)[i]
    {
      PartReads(parts[i]);
    }
    SplitJoined(PrintParts(parts), '.');
    ChunksRead(parts);
    PartReads(parts[0]);
    StartsWithFirst(".", PrintParts(parts));
    assert IsDigit(PrintVersion(parts)[0]);
  }

  lemma StartsWithFirst(sep: string, texts: seq<string>)
    requires texts != [] && texts[0] != ""
    ensures Join(sep, texts) != "" && Join(sep, texts)[0] == texts[0][0]
  {
  }

  predicate IsNumericVersion(value: string) {
    exists i :: 0 <= i < |value| && IsDigit(value[i])
  }

  /** Lexicographic comparison of tuples. */
  predicate Lex(a: seq<nat>, b: seq<nat>) {
    if b == [] then false
    else if a == [] then true
    else a[0] < b[0] || (a[0] == b[0] && Lex(a[1..], b[1..]))
  }

  function Pad(a: seq<nat>, n: nat): seq<nat> {
    if n <= |a| then a else a + seq(n - |a|, _ => 0)
  }

  function Longer(a: seq<nat>, b: seq<nat>): nat {
    if |a| >= |b| then |a| else |b|
  }

  predicate VersionGt(target: string, floor: string) {
    var a, b := ParseVersion(target), ParseVersion(floor);
    Lex(Pad(b, Longer(a, b)), Pad(a, Longer(a, b)))
  }

  predicate IsRollback(target: string, floor: string) {
    var a, b := ParseVersion(target), ParseVersion(floor);
    Lex(Pad(a, Longer(a, b)), Pad(b, Longer(a, b)))
  }

  // ---- The order, without padding: the first place where two versions differ, missing places being zero ----

  function At(a: seq<nat>, i: nat): nat {
    if i < |a| then a[i] else 0
  }

  ghost predicate FirstBelow(a: seq<nat>, b: seq<nat>, i: nat) {
    At(a, i) < At(b, i) && forall j: nat :: j < i ==> At(a, j) == At(b, j)
  }

  ghost predicate Before(a: seq<nat>, b: seq<nat>) {
    exists i: nat :: FirstBelow(a, b, i)
  }

  lemma {:induction false} LexIsBefore(a: seq<nat>, b: seq<nat>)
    requires |a| == |b|
    ensures Lex(a, b) <==> Before(a, b)
  {
    if a == [] {
    } else {
      LexIsBefore(a[1..], b[1..]);
      assert forall i: nat :: At(a, i + 1) == At(a[1..], i) && At(b, i + 1) == At(b[1..], i);
      if a[0] < b[0] {
        assert FirstBelow(a, b, 0);
      } else if a[0] == b[0] {
        if Lex(a[1..], b[1..]) {
          var i: nat :| FirstBelow(a[1..], b[1..], i);
          forall j: nat | j < i + 1
            ensures At(a, j) == At(b, j)
          {
            if j > 0 {
              assert At(a[1..], j - 1) == At(b[1..], j - 1);
            }
          }
          assert At(a, i + 1) < At(b, i + 1);
          assert FirstBelow(a, b, i + 1);
        } else if Before(a, b) {
          var i: nat :| FirstBelow(a, b, i);
          assert At(a, 0) == At(b, 0);
          assert FirstBelow(a[1..], b[1..], i - 1) by {
            forall j: nat | j < i - 1
              ensures At(a[1..], j) == At(b[1..], j)
            {
              assert At(a, j + 1) == At(b, j + 1);
            }
          }
        }
      } else {
        forall i: nat
          ensures !FirstBelow(a, b, i)
        {
          assert At(a, 0) > At(b, 0);
        }
      }
    }
  }

  lemma PadKeepsPlaces(a: seq<nat>, n: nat)
    ensures forall i: nat :: At(Pad(a, n), i) == At(a, i)
  {
  }

  /** Comparing padded tuples does not depend on how far they are padded. */
  lemma PaddedOrder(a: seq<nat>, b: seq<nat>, n: nat)
    requires n >= |a| && n >= |b|
    ensures Lex(Pad(a, n), Pad(b, n)) <==> Before(a, b)
  {
    PadKeepsPlaces(a, n);
    PadKeepsPlaces(b, n);
    LexIsBefore(Pad(a, n), Pad(b, n));
    var p, q := Pad(a, n), Pad(b, n);
    if Before(p, q) {
      var i: nat :| FirstBelow(p, q, i);
      assert FirstBelow(a, b, i);
    }
    if Before(a, b) {
      var i: nat :| FirstBelow(a, b, i);
      assert FirstBelow(p, q, i);
    }
  }

  /** Older than, on versions. */
  ghost predicate Older(v: string, w: string) {
    Before(ParseVersion(v), ParseVersion(w))
  }

  /** The two comparisons of the code are one order, read in either direction. */
  lemma ComparisonsAreOlder(v: string, w: string)
    ensures IsRollback(v, w) <==> Older(v, w)
    ensures VersionGt(v, w) <==> Older(w, v)
    ensures VersionGt(v, w) <==> IsRollback(w, v)
  {
    var a, b := ParseVersion(v), ParseVersion(w);
    PaddedOrder(a, b, Longer(a, b));
    PaddedOrder(b, a, Longer(a, b));
    PaddedOrder(b, a, Longer(b, a));
  }

  lemma BeforeTransitive(a: seq<nat>, b: seq<nat>, c: seq<nat>)
    requires Before(a, b) && Before(b, c)
    ensures Before(a, c)
  {
    var i: nat :| FirstBelow(a, b, i);
    var j: nat :| FirstBelow(b, c, j);
    assert FirstBelow(a, c, if i <= j then i else j);
  }

  /** The same place everywhere, or one is before the other. */
  lemma {:induction false} BeforeTotal(a: seq<nat>, b: seq<nat>, n: nat)
    requires forall i: nat :: i < n ==> At(a, i) == At(b, i)
    ensures Before(a, b) || Before(b, a) || forall i: nat :: At(a, i) == At(b, i)
    decreases Longer(a, b) - n
  {
    if n < Longer(a, b) {
      if At(a, n) < At(b, n) {
        assert FirstBelow(a, b, n);
      } else if At(b, n) < At(a, n) {
        assert FirstBelow(b, a, n);
      } else {
        BeforeTotal(a, b, n + 1);
      }
    }
  }

  /** A strict weak order: irreflexive, transitive, and versions of which neither is older are interchangeable. */
  lemma StrictWeakOrder(u: string, v: string, w: string)
    ensures !Older(v, v) && (Older(u, v) ==> !Older(v, u))
    ensures Older(u, v) && Older(v, w) ==> Older(u, w)
    ensures !Older(u, v) && !Older(v, u) ==> (Older(u, w) <==> Older(v, w)) && (Older(w, u) <==> Older(w, v))
  {
    var a, b, c := ParseVersion(u), ParseVersion(v), ParseVersion(w);
    if Older(u, v) && Older(v, w) {
      BeforeTransitive(a, b, c);
    }
    if !Older(u, v) && !Older(v, u) {
      BeforeTotal(a, b, 0);
      SamePlacesInterchange(a, b, c);
      SamePlacesInterchange(b, a, c);
    }
  }

  lemma SamePlacesInterchange(a: seq<nat>, b: seq<nat>, c: seq<nat>)
    requires forall i: nat :: At(a, i) == At(b, i)
    ensures Before(a, c) ==> Before(b, c)
    ensures Before(c, a) ==> Before(c, b)
  {
    if Before(a, c) {
      var i: nat :| FirstBelow(a, c, i);
      assert FirstBelow(b, c, i);
    }
    if Before(c, a) {
      var i: nat :| FirstBelow(c, a, i);
      assert FirstBelow(c, b, i);
    }
  }

  /** Trailing zero parts do not matter: `1.2` and `1.2.0` are the same version. */
  lemma TrailingZeros(v: string, w: string)
    requires |ParseVersion(v)| <= |ParseVersion(w)| && ParseVersion(w)[..|ParseVersion(v)|] == ParseVersion(v)
    requires forall i :: |ParseVersion(v)| <= i < |ParseVersion(w)| ==> ParseVersion(w)[i] == 0
    ensures !Older(v, w) && !Older(w, v)
  {
    var a, b := ParseVersion(v), ParseVersion(w);
    assert forall i: nat :: At(a, i) == At(b, i) by {
      assert forall i :: 0 <= i < |a| ==> b[..|a|][i] == a[i];
    }
  }

  // ---- The floor ----

  /** An update command. `version` is none when the command has no such key. */
  datatype Update = Update(version: Option<string>, url: string, sha256: string, signature: string, allowRollback: string)

  datatype Verdict = BadSignature | RollbackBlocked | Verified | Acknowledged

  const FLOOR := "update_floor"

  function TargetOf(u: Update): string {
    if u.version.Some? then u.version.value else "latest"
  }

  predicate IsManifest(u: Update) {
    u.url != "" || u.sha256 != "" || u.signature != ""
  }

  predicate AllowsRollback(u: Update) {
    Lower(u.allowRollback) in ["1", "true", "yes"]
  }

  /** The verdict on an update and the floor after it; `signed` is the outcome of the signature check. */
  function Judge(floor: string, u: Update, signed: bool): Verdict {
    if !IsManifest(u) then Acknowledged
    else if !signed then BadSignature
    else if IsNumericVersion(TargetOf(u)) && floor != "" && IsRollback(TargetOf(u), floor) && !AllowsRollback(u) then RollbackBlocked
    else Verified
  }

  function FloorAfter(floor: string, u: Update, signed: bool): string {
    if Judge(floor, u, signed) == Verified && IsNumericVersion(TargetOf(u)) && (floor == "" || VersionGt(TargetOf(u), floor))
    then TargetOf(u) else floor
  }

  function NumberAt(parts: seq<Part>, i: nat): nat {
    if i < |parts| then parts[i].n else 0
  }

  /** The first part in which two printed versions differ is smaller in `a`; parts that are not there are zero. */
  ghost predicate SmallerFirst(a: seq<Part>, b: seq<Part>) {
    exists i: nat :: NumberAt(a, i) < NumberAt(b, i) && forall j: nat :: j < i ==> NumberAt(a, j) == NumberAt(b, j)
  }

  lemma OlderPrinted(a: seq<Part>, b: seq<Part>)
    requires a != [] && b != [] && (forall i :: 0 <= i < |a| ==> PartOk(a[i])) && (forall i :: 0 <= i < |b| ==> PartOk(b[i]))
    ensures Older(PrintVersion(a), PrintVersion(b)) <==> SmallerFirst(a, b)
  {
    ParsePrinted(a);
    ParsePrinted(b);
    assert forall i: nat :: At(NumbersOf(a), i) == NumberAt(a, i) && At(NumbersOf(b), i) == NumberAt(b, i);
    if SmallerFirst(a, b) {
      var i: nat :| NumberAt(a, i) < NumberAt(b, i) && forall j: nat :: j < i ==> NumberAt(a, j) == NumberAt(b, j);
      assert FirstBelow(NumbersOf(a), NumbersOf(b), i);
    }
    if Before(NumbersOf(a), NumbersOf(b)) {
      var i: nat :| FirstBelow(NumbersOf(a), NumbersOf(b), i);
      assert NumberAt(a, i) < NumberAt(b, i);
    }
  }

  /** A signed manifest for a printed version, against a printed floor: it is blocked exactly when the first part that differs is
      smaller than the floor's and it carries no override, and it raises the floor exactly when that part is larger. */
  lemma PrintedVerdict(target: seq<Part>, floor: seq<Part>, u: Update)
    requires target != [] && forall i :: 0 <= i < |target| ==> PartOk(target[i])
    requires floor != [] && forall i :: 0 <= i < |floor| ==> PartOk(floor[i])
    requires u.version == Some(PrintVersion(target)) && (u.url != "" || u.sha256 != "" || u.signature != "")
    ensures Judge(PrintVersion(floor), u, true)
      == if SmallerFirst(target, floor) && Lower(u.allowRollback) !in {"1", "true", "yes"} then RollbackBlocked else Verified
    ensures FloorAfter(PrintVersion(floor), u, true)
      == if SmallerFirst(floor, target) then PrintVersion(target) else PrintVersion(floor)
  {
    var t, f := PrintVersion(target), PrintVersion(floor);
    ParsePrinted(target);
    ParsePrinted(floor);
    OlderPrinted(target, floor);
    OlderPrinted(floor, target);
    ComparisonsAreOlder(t, f);
    StrictWeakOrder(t, f, t);
  }

  class AgentState {
    /** The persisted state file. */
    var state: map<string, string>

    function GetUpdateFloor(): string
      reads this
    {
      if FLOOR in state then state[FLOOR] else ""
    }

    /** Enrolling writes fresh credentials and nothing else. */
    method Enrol(deviceId: string, apiKey: string)
      modifies this
      ensures state == map["device_id" := deviceId, "api_key" := apiKey] && GetUpdateFloor() == ""
    {
      state := map["device_id" := deviceId, "api_key" := apiKey];
    }

    method SetUpdateFloor(version: string)
      modifies this
      ensures GetUpdateFloor() == version
      ensures state.Keys == old(state).Keys + {FLOOR} && forall k :: k in old(state) && k != FLOOR ==> state[k] == old(state)[k]
    {
      state := state[FLOOR := version];
    }

    method RemoteUpdate(u: Update, signed: bool) returns (v: Verdict)
      modifies this
      ensures v == Judge(old(GetUpdateFloor()), u, signed)
      ensures GetUpdateFloor() == FloorAfter(old(GetUpdateFloor()), u, signed)
      ensures forall k :: k != FLOOR && k in old(state) ==> k in state && state[k] == old(state)[k]
    {
      var target := TargetOf(u);
      if IsManifest(u) {
        if !signed {
          return BadSignature;
        }
        var floor := GetUpdateFloor();
        if IsNumericVersion(target) && floor != "" && IsRollback(target, floor) && !AllowsRollback(u) {
          return RollbackBlocked;
        }
        if IsNumericVersion(target) && (floor == "" || VersionGt(target, floor)) {
          SetUpdateFloor(target);
        }
        return Verified;
      }
      return Acknowledged;
    }
  }

  // ---- Runs between enrolments ----

  datatype Step = Step(u: Update, signed: bool)

  function Floor(start: string, steps: seq<Step>): string {
    if steps == [] then start
    else FloorAfter(Floor(start, steps[..|steps| - 1]), steps[|steps| - 1].u, steps[|steps| - 1].signed)
  }

  /** Step `i` was verified and carries a numeric version. */
  predicate AcceptedAt(start: string, steps: seq<Step>, i: nat) {
    i < |steps| && Judge(Floor(start, steps[..i]), steps[i].u, steps[i].signed) == Verified && IsNumericVersion(TargetOf(steps[i].u))
  }

  /** The floor is one of the accepted versions, or the initial one. */
  lemma {:induction false} FloorIsAccepted(start: string, steps: seq<Step>)
    ensures var f := Floor(start, steps);
      f == start || exists i: nat :: AcceptedAt(start, steps, i) && f == TargetOf(steps[i].u)
  {
    if steps != [] {
      var last := |steps| - 1;
      var front, f, g := steps[..last], Floor(start, steps), Floor(start, steps[..last]);
      FloorIsAccepted(start, front);
      if f != g {
        assert AcceptedAt(start, steps, last);
      } else if g != start {
        var i: nat :| AcceptedAt(start, front, i) && g == TargetOf(front[i].u);
        AcceptedEarlier(start, steps, i);
      }
    }
  }

  /** An accepted version is not newer than the floor. */
  lemma {:induction false} FloorBounds(start: string, steps: seq<Step>, i: nat)
    requires AcceptedAt(start, steps, i)
    ensures Floor(start, steps) != "" && !VersionGt(TargetOf(steps[i].u), Floor(start, steps))
  {
    var last := |steps| - 1;
    var front := steps[..last];
    if i < last {
      AcceptedEarlier(start, steps, i);
      FloorBounds(start, front, i);
      StillBounded(TargetOf(steps[i].u), Floor(start, front), steps[last].u, steps[last].signed);
    } else {
      LastBounds(start, steps);
    }
  }

  lemma LastBounds(start: string, steps: seq<Step>)
    requires steps != [] && AcceptedAt(start, steps, |steps| - 1)
    ensures Floor(start, steps) != "" && !VersionGt(TargetOf(steps[|steps| - 1].u), Floor(start, steps))
  {
    FloorRises(Floor(start, steps[..|steps| - 1]), steps[|steps| - 1].u, steps[|steps| - 1].signed);
  }

  lemma AcceptedEarlier(start: string, steps: seq<Step>, i: nat)
    requires i + 1 < |steps|
    ensures AcceptedAt(start, steps[..|steps| - 1], i) == AcceptedAt(start, steps, i)
  {
    assert steps[..|steps| - 1][..i] == steps[..i];
  }

  /** What is not newer than the floor is not newer than the floor after another update. */
  lemma StillBounded(v: string, floor: string, u: Update, signed: bool)
    requires floor != "" && !VersionGt(v, floor)
    ensures FloorAfter(floor, u, signed) != "" && !VersionGt(v, FloorAfter(floor, u, signed))
  {
    FloorRises(floor, u, signed);
    NotNewerThan(v, floor, FloorAfter(floor, u, signed));
  }

  lemma {:induction false} FloorAboveStart(start: string, steps: seq<Step>)
    requires start != ""
    ensures Floor(start, steps) != "" && !VersionGt(start, Floor(start, steps))
  {
    if steps == [] {
      ComparisonsAreOlder(start, start);
      StrictWeakOrder(start, start, start);
    } else {
      var last := |steps| - 1;
      FloorAboveStart(start, steps[..last]);
      StillBounded(start, Floor(start, steps[..last]), steps[last].u, steps[last].signed);
    }
  }

  /** Between enrolments the floor is the maximum of the numeric versions accepted so far (and of the initial floor). */
  lemma FloorIsMaximum(start: string, steps: seq<Step>)
    ensures var f := Floor(start, steps);
      && (f == start || exists i: nat :: AcceptedAt(start, steps, i) && f == TargetOf(steps[i].u))
      && (forall i: nat :: AcceptedAt(start, steps, i) ==> f != "" && !VersionGt(TargetOf(steps[i].u), f))
      && (start != "" ==> f != "" && !VersionGt(start, f))
  {
    FloorIsAccepted(start, steps);
    forall i: nat | AcceptedAt(start, steps, i)
      ensures Floor(start, steps) != "" && !VersionGt(TargetOf(steps[i].u), Floor(start, steps))
    {
      FloorBounds(start, steps, i);
    }
    if start != "" {
      FloorAboveStart(start, steps);
    }
  }

  /** What is not newer than a floor is not newer than one that floor rose to. */
  lemma NotNewerThan(v: string, g: string, f: string)
    requires !VersionGt(v, g) && !VersionGt(g, f)
    ensures !VersionGt(v, f)
  {
    ComparisonsAreOlder(v, g);
    ComparisonsAreOlder(g, f);
    ComparisonsAreOlder(v, f);
    if Older(f, v) {
      if Older(v, g) {
        StrictWeakOrder(f, v, g);
      } else {
        StrictWeakOrder(v, g, f);
      }
    }
  }

  /** One update never lowers the floor, whatever it allows; and what it accepts is not above the new floor. */
  lemma FloorRises(floor: string, u: Update, signed: bool)
    ensures var f := FloorAfter(floor, u, signed);
      && (floor != "" ==> f != "" && !IsRollback(f, floor) && !VersionGt(floor, f))
      && (Judge(floor, u, signed) == Verified && IsNumericVersion(TargetOf(u)) ==> f != "" && !VersionGt(TargetOf(u), f))
  {
    var f, t := FloorAfter(floor, u, signed), TargetOf(u);
    ComparisonsAreOlder(floor, f);
    ComparisonsAreOlder(f, floor);
    ComparisonsAreOlder(t, f);
    StrictWeakOrder(f, floor, f);
    StrictWeakOrder(t, t, t);
    StrictWeakOrder(floor, t, floor);
  }

  /** The floor binds an update that carries a version with a digit and no override, once there is a floor. */
  predicate Bound(floor: string, u: Update) {
    && u.version.Some? && (exists c <- u.version.value :: '0' <= c <= '9')
    && floor != "" && Lower(u.allowRollback) !in {"1", "true", "yes"}
  }

  /** A manifest is accepted exactly when it is signed and not older than a floor that binds it. */
  lemma AcceptedExactly(floor: string, u: Update, signed: bool)
    ensures Judge(floor, u, signed) == Acknowledged <==> u.url == "" && u.sha256 == "" && u.signature == ""
    ensures Judge(floor, u, signed) == BadSignature <==> !signed && (u.url != "" || u.sha256 != "" || u.signature != "")
    ensures Judge(floor, u, signed) == Verified <==>
      signed && (u.url != "" || u.sha256 != "" || u.signature != "") && !(Bound(floor, u) && Older(u.version.value, floor))
  {
    ComparisonsAreOlder(TargetOf(u), floor);
    HasDigit(TargetOf(u));
    assert forall c <- "latest" :: c > '9';
  }

  lemma HasDigit(t: string)
    ensures IsNumericVersion(t) <==> exists c <- t :: '0' <= c <= '9'
  {
    if c :| c in t && '0' <= c <= '9' {
      var i :| 0 <= i < |t| && t[i] == c;
      assert IsDigit(t[i]);
    }
    if IsNumericVersion(t) {
      var i :| 0 <= i < |t| && IsDigit(t[i]);
      assert t[i] in t;
    }
  }

  /** Hence what is accepted without the override is not below any version accepted before, nor below the initial floor. */
  lemma AcceptedNotBelow(start: string, steps: seq<Step>, u: Update, signed: bool)
    requires Judge(Floor(start, steps), u, signed) == Verified && IsNumericVersion(TargetOf(u)) && !AllowsRollback(u)
    ensures forall i: nat :: AcceptedAt(start, steps, i) ==> !IsRollback(TargetOf(u), TargetOf(steps[i].u))
    ensures start != "" ==> !IsRollback(TargetOf(u), start)
  {
    FloorIsMaximum(start, steps);
    ComparisonsAreOlder(TargetOf(u), Floor(start, steps));
    forall i: nat | AcceptedAt(start, steps, i)
      ensures !IsRollback(TargetOf(u), TargetOf(steps[i].u))
    {
      NotOlderThan(TargetOf(u), TargetOf(steps[i].u), Floor(start, steps));
    }
    if start != "" {
      NotOlderThan(TargetOf(u), start, Floor(start, steps));
    }
  }

  lemma NotOlderThan(t: string, v: string, f: string)
    requires !VersionGt(v, f) && !Older(t, f)
    ensures !IsRollback(t, v)
  {
    ComparisonsAreOlder(v, f);
    ComparisonsAreOlder(t, v);
    if Older(t, v) {
      if Older(v, f) {
        StrictWeakOrder(t, v, f);
      } else {
        StrictWeakOrder(v, f, t);
      }
    }
  }
}
