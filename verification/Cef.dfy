/** The extension part of a CEF line (server/app/services/integrations.py:46-60), and a reader for it that follows the
    escaping rules of the ArcSight Common Event Format guide, section "Character Encoding". */
module Cef {
  import opened Text

  datatype Field = Field(key: string, value: string)

  // ---- Escaping ----

  /** Three replacements, one after the other. */
  function Escape(value: string): string {
    Replace(Replace(Replace(value, '\\', "\\\\"), '=', "\\="), '|', "\\|")
  }

  predicate IsSpecial(c: char) {
    c == '\\' || c == '=' || c == '|'
  }

  /** One pass that puts a backslash before each special character. */
  function EscapeOnce(value: string): string {
    if value == "" then "" else (if IsSpecial(value[0]) then ['\\', value[0]] else [value[0]]) + EscapeOnce(value[1..])
  }

  function Unescape(s: string): string {
    if s == "" then ""
    else if s[0] == '\\' && |s| > 1 then [s[1]] + Unescape(s[2..])
    else [s[0]] + Unescape(s[1..])
  }

  lemma EscapeOne(c: char)
    ensures Escape([c]) == if IsSpecial(c) then ['\\', c] else [c]
  {
    assert forall d, sub :: Replace([c], d, sub) == if c == d then sub else [c];
    assert c != '\\' || Replace("\\\\", '=', "\\=") == "\\\\";
  }

  /** The chained replacements do not disturb each other: they are the single pass. */
  lemma {:induction false} EscapeIsOnePass(value: string)
    ensures Escape(value) == EscapeOnce(value)
  {
    if value != "" {
      var head, rest := [value[0]], value[1..];
      assert value == head + rest;
      EscapeConcat(head, rest);
      EscapeOne(value[0]);
      EscapeIsOnePass(rest);
    }
  }

  lemma {:induction false} UnescapeEscaped(value: string)
    ensures Unescape(EscapeOnce(value)) == value
  {
    if value != "" {
      UnescapeEscaped(value[1..]);
      var e := EscapeOnce(value);
      if IsSpecial(value[0]) {
        assert e[2..] == EscapeOnce(value[1..]);
      } else {
        assert e[1..] == EscapeOnce(value[1..]);
      }
    }
  }

  // ---- Printing ----

  function Printed(fields: seq<Field>): seq<string> {
    seq(|fields|, i requires 0 <= i < |fields| => fields[i].key + "=" + Escape(fields[i].value))
  }

  function Extension(fields: seq<Field>): string {
    Join(" ", Printed(fields))
  }

  /** The parts of an event the extension shows; missing ones are none. */
  datatype Payload = Payload(hostname: Option<string>, source: Option<string>, action: Option<string>, technique: Option<string>)

  function NonEmpty(key: string, value: Option<string>): seq<Field> {
    if value.None? || value.value == "" then [] else [Field(key, value.value)]
  }

  function Fields(p: Payload): seq<Field> {
    NonEmpty("dvchost", p.hostname) + NonEmpty("cs1", p.source) + NonEmpty("act", p.action) + NonEmpty("cs2", p.technique)
  }

  // ---- Reading ----

  /** The text cut at each `=` that is not escaped. */
  function Segments(s: string): (segments: seq<string>)
    ensures segments != []
  {
    if s == "" then [""]
    else if s[0] == '\\' && |s| > 1 then
      var rest := Segments(s[2..]);
      [s[..2] + rest[0]] + rest[1..]
    else
      var rest := Segments(s[1..]);
      if s[0] == '=' then [""] + rest else [[s[0]] + rest[0]] + rest[1..]
  }

  /** Position of the last blank, or -1. */
  function LastBlank(s: string): (i: int)
    ensures -1 <= i < |s|
  {
    if s == "" then -1 else if s[|s| - 1] == ' ' then |s| - 1 else LastBlank(s[..|s| - 1])
  }

  /** Behind a key: each segment but the last ends in the next key, the token after its last blank. */
  function ReadFrom(key: string, segments: seq<string>): seq<Field>
    requires segments != []
    decreases |segments|
  {
    if |segments| == 1 then [Field(key, Unescape(segments[0]))]
    else
      var i := LastBlank(segments[0]);
      [Field(key, Unescape(if i < 0 then "" else segments[0][..i]))] + ReadFrom(segments[0][i + 1..], segments[1..])
  }

  function ReadExtension(s: string): seq<Field> {
    var segments := Segments(s);
    if |segments| == 1 then [] else ReadFrom(segments[0], segments[1..])
  }

  // ---- Round trip ----

  /** A key is a token without blanks and special characters. */
  predicate IsKey(key: string) {
    forall c <- key :: c != ' ' && !IsSpecial(c)
  }

  /** `text` goes, as it is, in front of the first segment. */
  predicate Prefixes(text: string, t: string) {
    Segments(text + t) == [text + Segments(t)[0]] + Segments(t)[1..]
  }

  lemma EmptyPrefixes(t: string)
    ensures Prefixes("", t)
  {
    assert "" + t == t && "" + Segments(t)[0] == Segments(t)[0];
  }

  lemma {:induction false} KeyPrefixes(key: string, t: string)
    requires forall c <- key :: !IsSpecial(c)
    ensures Prefixes(key, t)
  {
    if key == "" {
      assert key + t == t;
      EmptyPrefixes(t);
    } else {
      assert key[0] in key;
      KeyPrefixes(key[1..], t);
      HeadPrefixes([key[0]], key[1..], t);
      assert [key[0]] + key[1..] == key;
    }
  }

  /** An escaped pair, or a plain character, goes in front of the first segment. */
  lemma HeadPrefixes(head: string, rest: string, t: string)
    requires (|head| == 2 && head[0] == '\\') || (|head| == 1 && !IsSpecial(head[0]))
    requires Prefixes(rest, t)
    ensures Prefixes(head + rest, t)
  {
    var s := head + rest + t;
    assert s[..|head|] == head && s[|head|..] == rest + t;
    assert |head| == 1 ==> head == [s[0]];
    assert head + (rest + Segments(t)[0]) == head + rest + Segments(t)[0];
  }

  lemma {:induction false} EscapedPrefixes(value: string, t: string)
    ensures Prefixes(EscapeOnce(value), t)
  {
    var e := EscapeOnce(value);
    if value == "" {
      assert e + t == t;
      EmptyPrefixes(t);
    } else {
      var rest := EscapeOnce(value[1..]);
      EscapedPrefixes(value[1..], t);
      if IsSpecial(value[0]) {
        assert e == e[..2] + rest;
        HeadPrefixes(e[..2], rest, t);
      } else {
        assert e == [value[0]] + rest;
        HeadPrefixes([value[0]], rest, t);
      }
    }
  }

  /** The segments behind the first key. */
  function ValueSegments(fields: seq<Field>): seq<string>
    requires fields != []
  {
    if |fields| == 1 then [Escape(fields[0].value)]
    else [Escape(fields[0].value) + " " + fields[1].key] + ValueSegments(fields[1..])
  }

  lemma ExtensionStep(fields: seq<Field>)
    requires |fields| > 1
    ensures Extension(fields) == fields[0].key + ("=" + (Escape(fields[0].value) + (" " + Extension(fields[1..]))))
  {
    assert Printed(fields)[1..] == Printed(fields[1..]);
  }

  lemma FieldSegments(key: string, value: string, more: string)
    requires IsKey(key)
    ensures Segments(key + ("=" + (Escape(value) + more))) == [key, Escape(value) + Segments(more)[0]] + Segments(more)[1..]
  {
    var e := Escape(value);
    EscapeIsOnePass(value);
    EscapedPrefixes(value, more);
    EqualsCuts(e + more);
    KeyPrefixes(key, "=" + (e + more));
    assert key + "" == key;
    assert ([""] + Segments(e + more))[1..] == Segments(e + more);
  }

  lemma {:induction false} ExtensionSegments(fields: seq<Field>)
    requires fields != [] && forall f <- fields :: IsKey(f.key)
    ensures Segments(Extension(fields)) == [fields[0].key] + ValueSegments(fields)
  {
    var f := fields[0];
    assert f in fields;
    if |fields| == 1 {
      FieldSegments(f.key, f.value, "");
      assert Escape(f.value) + "" == Escape(f.value);
      assert Extension(fields) == f.key + ("=" + (Escape(f.value) + ""));
    } else {
      ExtensionStep(fields);
      ExtensionSegments(fields[1..]);
      MoreSegments(f, fields[1].key, Extension(fields[1..]), ValueSegments(fields[1..]));
    }
  }

  lemma MoreSegments(f: Field, next: string, rest: string, segments: seq<string>)
    requires IsKey(f.key) && Segments(rest) == [next] + segments
    ensures Segments(f.key + ("=" + (Escape(f.value) + (" " + rest)))) == [f.key] + ([Escape(f.value) + " " + next] + segments)
  {
    FieldSegments(f.key, f.value, " " + rest);
    SegmentsBehind(f.key, Escape(f.value), next, segments);
  }

  lemma SegmentsBehind(key: string, e: string, next: string, segments: seq<string>)
    ensures [key, e + (" " + next)] + segments == [key] + ([e + " " + next] + segments)
  {
    assert e + (" " + next) == e + " " + next;
  }

  lemma EqualsCuts(t: string)
    ensures Segments("=" + t) == [""] + Segments(t)
  {
    assert ("=" + t)[1..] == t;
  }

  lemma {:induction false} LastBlankIs(before: string, key: string)
    requires IsKey(key)
    ensures LastBlank(before + " " + key) == |before|
  {
    var s := before + " " + key;
    if key == "" {
    } else {
      assert s[..|s| - 1] == before + " " + key[..|key| - 1];
      assert key[|key| - 1] in key;
      LastBlankIs(before, key[..|key| - 1]);
    }
  }

  lemma {:induction false} ReadSegments(fields: seq<Field>)
    requires fields != [] && forall f <- fields :: IsKey(f.key)
    ensures ReadFrom(fields[0].key, ValueSegments(fields)) == fields
  {
    var f := fields[0];
    EscapeIsOnePass(f.value);
    UnescapeEscaped(f.value);
    if |fields| > 1 {
      assert fields[1] in fields;
      ReadSegments(fields[1..]);
      ReadFirst(f, fields[1].key, ValueSegments(fields[1..]));
    }
  }

  lemma ReadFirst(f: Field, next: string, segments: seq<string>)
    requires IsKey(next) && segments != []
    ensures ReadFrom(f.key, [Escape(f.value) + " " + next] + segments) == [f] + ReadFrom(next, segments)
  {
    var e := Escape(f.value);
    var s := e + " " + next;
    EscapeIsOnePass(f.value);
    UnescapeEscaped(f.value);
    LastBlankIs(e, next);
    assert s[..|e|] == e && s[|e| + 1..] == next;
    assert ([s] + segments)[1..] == segments;
  }

  /** Reading a printed extension gives back its fields, whatever their values contain. */
  lemma ReadPrinted(fields: seq<Field>)
    requires forall f <- fields :: IsKey(f.key)
    ensures ReadExtension(Extension(fields)) == fields
  {
    if fields == [] {
      assert Extension(fields) == "";
    } else {
      ExtensionSegments(fields);
      ReadSegments(fields);
    }
  }

  predicate Carries(p: Payload, key: string, value: string) {
    || (key == "dvchost" && p.hostname == Some(value)) || (key == "cs1" && p.source == Some(value))
    || (key == "act" && p.action == Some(value)) || (key == "cs2" && p.technique == Some(value))
  }

  function Place(key: string): nat {
    match key case "dvchost" => 0 case "cs1" => 1 case "act" => 2 case "cs2" => 3 case _ => 4
  }

  /** In the order of their keys, from the place `lo` to before `hi`. */
  predicate Placed(fields: seq<Field>, lo: nat, hi: nat) {
    && (forall f <- fields :: lo <= Place(f.key) < hi)
    && (forall i, j :: 0 <= i < j < |fields| ==> Place(fields[i].key) < Place(fields[j].key))
  }

  lemma PlacedConcat(a: seq<Field>, b: seq<Field>, lo: nat, mid: nat, hi: nat)
    requires Placed(a, lo, mid) && Placed(b, mid, hi) && lo <= mid <= hi
    ensures Placed(a + b, lo, hi)
  {
    assert forall i :: 0 <= i < |a| ==> a[i] in a;
    assert forall i :: 0 <= i < |b| ==> b[i] in b;
  }

  lemma NonEmptyCarries(key: string, shown: Option<string>, f: Field)
    ensures f in NonEmpty(key, shown) <==> f.key == key && f.value != "" && shown == Some(f.value)
    ensures Placed(NonEmpty(key, shown), Place(key), Place(key) + 1)
  {
  }

  /** The line of an event carries exactly its non-empty fields, each under its key, in a fixed order. */
  lemma PayloadRecovered(p: Payload, key: string, value: string)
    ensures var r := ReadExtension(Extension(Fields(p)));
      && (Field(key, value) in r <==> value != "" && Carries(p, key, value))
      && Placed(r, 0, 4)
  {
    var a, b, c, d :=
      NonEmpty("dvchost", p.hostname), NonEmpty("cs1", p.source), NonEmpty("act", p.action), NonEmpty("cs2", p.technique);
    var f := Field(key, value);
    NonEmptyCarries("dvchost", p.hostname, f);
    NonEmptyCarries("cs1", p.source, f);
    NonEmptyCarries("act", p.action, f);
    NonEmptyCarries("cs2", p.technique, f);
    PlacedConcat(a, b, 0, 1, 2);
    PlacedConcat(a + b, c, 0, 2, 3);
    PlacedConcat(a + b + c, d, 0, 3, 4);
    assert f in a + b + c + d <==> f in a || f in b || f in c || f in d;
    EveryKey(p);
    ReadPrinted(Fields(p));
  }

  lemma EveryKey(p: Payload)
    ensures forall f <- Fields(p) :: IsKey(f.key)
  {
    assert IsKey("dvchost") && IsKey("cs1") && IsKey("act") && IsKey("cs2");
  }

  /** Exactly the three special characters get a backslash. */
  lemma EscapesExactly(value: string, c: char)
    ensures Escape("") == "" && Escape(value + [c]) == Escape(value) + if c in "\\=|" then ['\\', c] else [c]
  {
    EscapeConcat(value, [c]);
    EscapeIsOnePass([c]);
  }

  lemma EscapeConcat(a: string, b: string)
    ensures Escape(a + b) == Escape(a) + Escape(b)
  {
    var x, y := Replace(a, '\\', "\\\\"), Replace(b, '\\', "\\\\");
    ReplaceConcat(a, b, '\\', "\\\\");
    ReplaceConcat(x, y, '=', "\\=");
    ReplaceConcat(Replace(x, '=', "\\="), Replace(y, '=', "\\="), '|', "\\|");
  }
}
