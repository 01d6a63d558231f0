/** The Stripe verifier of src/hookguard_gateway/providers/stripe.py: header parsing, the replay
  * window and the signature check. `int()` on the timestamp is a parameter, `parseInt`. Times are
  * whole microseconds. */
module Stripe {
  import opened Wrappers
  import opened Hex
  import opened GatewaySig
  import opened Text
  import opened Floats
  import GoDuration

  // ---------------------------------------------------------------- the header

  /** What the parser has gathered: the timestamp of the last `t` part, and all `v1` values. */
  datatype Parsed = Parsed(timestamp: string, signatures: seq<string>)

  /** The (key, value) of one comma-separated part; None when it has no "=". */
  function KeyValue(part: string): Option<(string, string)> {
    var (key, found, value) := Partition(Strip(part), '=');
    if found then Some((key, value)) else None
  }

  function Take(st: Parsed, part: string): Parsed {
    match KeyValue(part)
    case None => st
    case Some((key, value)) =>
      if key == "t" then st.(timestamp := value)
      else if key == "v1" then st.(signatures := st.signatures + [value])
      else st
  }

  function TakeAll(st: Parsed, parts: seq<string>): Parsed
    decreases |parts|
  {
    if parts == [] then st else TakeAll(Take(st, parts[0]), parts[1..])
  }

  function ParseHeader(header: string): Parsed {
    TakeAll(Parsed("", []), Split(header, ','))
  }

  /** `_parse_header`. */
  method ParseHeaderLoop(header: string) returns (timestamp: string, signatures: seq<string>)
    ensures Parsed(timestamp, signatures) == ParseHeader(header)
  {
    timestamp, signatures := "", [];
    var parts := Split(header, ',');
    for i := 0 to |parts|
      invariant TakeAll(Parsed(timestamp, signatures), parts[i..]) == ParseHeader(header)
    {
      assert parts[i..][1..] == parts[i + 1..];
      var (key, found, value) := Partition(Strip(parts[i]), '=');
      if !found {
        continue;
      }
      if key == "t" {
        timestamp := value;
      } else if key == "v1" {
        signatures := signatures + [value];
      }
    }
  }

  // ---------------------------------------------------------------- what the parser means

  ghost predicate Assigns(part: string, key: string, value: string) {
    KeyValue(part) == Some((key, value))
  }

  ghost predicate IsTimestampPart(part: string) {
    KeyValue(part).Some? && KeyValue(part).value.0 == "t"
  }

  /** `t` is the value of the last `t` part, or empty when there is none. */
  ghost predicate LastTimestamp(parts: seq<string>, t: string) {
    || (t == "" && forall i :: 0 <= i < |parts| ==> !IsTimestampPart(parts[i]))
    || (exists i :: 0 <= i < |parts| && Assigns(parts[i], "t", t)
                    && forall j :: i < j < |parts| ==> !IsTimestampPart(parts[j]))
  }

  ghost predicate HasSignature(parts: seq<string>, sig: string) {
    exists i :: 0 <= i < |parts| && Assigns(parts[i], "v1", sig)
  }

  lemma {:induction false} TakeAllSnoc(st: Parsed, parts: seq<string>, part: string)
    ensures TakeAll(st, parts + [part]) == Take(TakeAll(st, parts), part)
    decreases |parts|
  {
    if parts == [] {
      assert (parts + [part])[1..] == [];
    } else {
      assert (parts + [part])[1..] == parts[1..] + [part];
      TakeAllSnoc(Take(st, parts[0]), parts[1..], part);
    }
  }

  lemma {:induction false} TakeAllAppend(st: Parsed, a: seq<string>, b: seq<string>)
    ensures TakeAll(st, a + b) == TakeAll(TakeAll(st, a), b)
    decreases |a|
  {
    if a == [] {
      assert a + b == b;
    } else {
      assert (a + b)[1..] == a[1..] + b;
      TakeAllAppend(Take(st, a[0]), a[1..], b);
    }
  }

  /** The parser finds the last timestamp and exactly the signatures that are there. */
  lemma {:induction false} TakeAllMeaning(parts: seq<string>)
    ensures LastTimestamp(parts, TakeAll(Parsed("", []), parts).timestamp)
    ensures forall sig :: sig in TakeAll(Parsed("", []), parts).signatures <==> HasSignature(parts, sig)
  {
    if parts == [] {
    } else {
      var n := |parts| - 1;
      var init, last := parts[..n], parts[n];
      assert parts == init + [last];
      TakeAllMeaning(init);
      TakeAllSnoc(Parsed("", []), init, last);
      var before, after := TakeAll(Parsed("", []), init), TakeAll(Parsed("", []), parts);
      if IsTimestampPart(last) {
        assert Assigns(parts[n], "t", after.timestamp);
      } else {
        LastTimestampSnoc(init, last, before.timestamp);
      }
      forall sig
        ensures sig in after.signatures <==> HasSignature(parts, sig)
      {
        HasSignatureSnoc(init, last, sig);
      }
    }
  }

  lemma LastTimestampSnoc(init: seq<string>, last: string, t: string)
    requires LastTimestamp(init, t) && !IsTimestampPart(last)
    ensures LastTimestamp(init + [last], t)
  {
    var parts := init + [last];
    if exists i :: 0 <= i < |init| && Assigns(init[i], "t", t)
                   && forall j :: i < j < |init| ==> !IsTimestampPart(init[j]) {
      var i :| 0 <= i < |init| && Assigns(init[i], "t", t)
               && forall j :: i < j < |init| ==> !IsTimestampPart(init[j]);
      assert Assigns(parts[i], "t", t);
    }
  }

  lemma HasSignatureSnoc(init: seq<string>, last: string, sig: string)
    ensures HasSignature(init + [last], sig) <==> HasSignature(init, sig) || Assigns(last, "v1", sig)
  {
    var parts := init + [last];
    if HasSignature(init, sig) {
      var i :| 0 <= i < |init| && Assigns(init[i], "v1", sig);
      assert Assigns(parts[i], "v1", sig);
    }
    if Assigns(last, "v1", sig) {
      assert Assigns(parts[|init|], "v1", sig);
    }
  }

  ghost predicate IsIgnored(part: string) {
    ',' !in part && (KeyValue(part).Some? ==> KeyValue(part).value.0 != "t" && KeyValue(part).value.0 != "v1")
  }

  lemma IgnoredPartStands(st: Parsed, before: seq<string>, part: string, after: seq<string>)
    requires IsIgnored(part)
    ensures TakeAll(st, before + ([part] + after)) == TakeAll(st, before + after)
  {
    TakeAllAppend(st, before, [part] + after);
    TakeAllAppend(st, before, after);
    assert ([part] + after)[1..] == after;
  }

  /** A part that is neither `t` nor `v1`, or has no "=", changes nothing wherever it stands: between
    * two parts, first, last, or alone. */
  lemma IgnoredPart(before: string, part: string, after: string)
    requires IsIgnored(part)
    ensures ParseHeader(before + ([','] + (part + ([','] + after)))) == ParseHeader(before + ([','] + after))
    ensures ParseHeader(part + ([','] + after)) == ParseHeader(after)
    ensures ParseHeader(before + ([','] + part)) == ParseHeader(before)
    ensures ParseHeader(part) == Parsed("", [])
  {
    var start := Parsed("", []);
    var a, b := Split(before, ','), Split(after, ',');
    SplitWhole(part, ',');
    SplitFirst(part, ',', after);
    SplitJoin(before, ',', after);
    SplitJoin(before, ',', part);
    SplitJoin(before, ',', part + ([','] + after));
    IgnoredPartStands(start, a, part, b);
    IgnoredPartStands(start, [], part, b);
    IgnoredPartStands(start, a, part, []);
    assert [] + ([part] + b) == [part] + b && [] + b == b;
    assert a + ([part] + []) == a + [part] && a + [] == a;
    assert TakeAll(start, [part]) == TakeAll(Take(start, part), []);
  }

  /** Whitespace around a part changes nothing, as in "t=1, v1=00". */
  lemma SpaceAroundAPart(pre: string, part: string, post: string)
    requires forall i :: 0 <= i < |pre| ==> pre[i] == ' ' || '\t' <= pre[i] <= '\r'
    requires forall i :: 0 <= i < |post| ==> post[i] == ' ' || '\t' <= post[i] <= '\r'
    ensures KeyValue(pre + (part + post)) == KeyValue(part)
  {
    StripPast(pre, part, post, IsSpace);
  }

  // ---------------------------------------------------------------- print and parse

  function PrintSignatures(signatures: seq<string>): string {
    if signatures == [] then ""
    else [','] + (("v1=" + signatures[0]) + PrintSignatures(signatures[1..]))
  }

  function SignatureParts(signatures: seq<string>): seq<string> {
    seq(|signatures|, i requires 0 <= i < |signatures| => "v1=" + signatures[i])
  }

  /** "t=T,v1=S1,...,v1=Sn". */
  function PrintHeader(p: Parsed): string {
    ("t=" + p.timestamp) + PrintSignatures(p.signatures)
  }

  /** A value that survives splitting and stripping: no comma, no trailing whitespace. */
  ghost predicate Clean(value: string) {
    ',' !in value && (value != "" ==> !IsSpace(value[|value| - 1]))
  }

  lemma KeyValueOf(key: string, value: string)
    requires '=' !in key && key != "" && !IsSpace(key[0]) && Clean(value)
    ensures KeyValue(key + "=" + value) == Some((key, value))
  {
    var part := key + "=" + value;
    assert part[|part| - 1] == if value == "" then '=' else value[|value| - 1];
    StripKeeps(part, IsSpace);
    PartitionOf(key, '=', value);
  }

  lemma {:induction false} SplitSignatures(head: string, signatures: seq<string>)
    requires ',' !in head
    requires forall i :: 0 <= i < |signatures| ==> Clean(signatures[i])
    ensures Split(head + PrintSignatures(signatures), ',') == [head] + SignatureParts(signatures)
    decreases |signatures|
  {
    if signatures == [] {
      assert head + "" == head;
      SplitWhole(head, ',');
    } else {
      var next, rest := "v1=" + signatures[0], signatures[1..];
      var tail := next + PrintSignatures(rest);
      SplitFirst(head, ',', tail);
      SplitSignatures(next, rest);
      assert SignatureParts(signatures) == [next] + SignatureParts(rest);
    }
  }

  lemma {:induction false} TakeSignatures(st: Parsed, signatures: seq<string>)
    requires forall i :: 0 <= i < |signatures| ==> Clean(signatures[i])
    ensures TakeAll(st, SignatureParts(signatures))
            == Parsed(st.timestamp, st.signatures + signatures)
    decreases |signatures|
  {
    var parts := SignatureParts(signatures);
    if signatures == [] {
      assert st.signatures + signatures == st.signatures;
    } else {
      var rest := signatures[1..];
      assert parts[0] == "v1=" + signatures[0] && parts[1..] == SignatureParts(rest);
      TakeSignature(st, signatures[0]);
      TakeSignatures(Parsed(st.timestamp, st.signatures + [signatures[0]]), rest);
      assert st.signatures + [signatures[0]] + rest == st.signatures + signatures;
    }
  }

  lemma TakeSignature(st: Parsed, sig: string)
    requires Clean(sig)
    ensures Take(st, "v1=" + sig) == Parsed(st.timestamp, st.signatures + [sig])
  {
    KeyValueOf("v1", sig);
    assert "v1" + "=" + sig == "v1=" + sig;
  }

  /** Parsing a printed header gives back its timestamp and its signatures, in order. */
  lemma ParsePrint(p: Parsed)
    requires Clean(p.timestamp) && forall i :: 0 <= i < |p.signatures| ==> Clean(p.signatures[i])
    ensures ParseHeader(PrintHeader(p)) == p
  {
    var head := "t=" + p.timestamp;
    SplitSignatures(head, p.signatures);
    TakeTimestamp(p.timestamp, SignatureParts(p.signatures));
    TakeSignatures(Parsed(p.timestamp, []), p.signatures);
    assert [] + p.signatures == p.signatures;
  }

  lemma TakeTimestamp(t: string, parts: seq<string>)
    requires Clean(t)
    ensures TakeAll(Parsed("", []), ["t=" + t] + parts) == TakeAll(Parsed(t, []), parts)
  {
    KeyValueOf("t", t);
    assert "t" + "=" + t == "t=" + t;
    assert (["t=" + t] + parts)[1..] == parts;
  }

  // ---------------------------------------------------------------- the verifier

  type IntParser = string -> Option<int>

  datatype StripeVerifier = StripeVerifier(secret: seq<byte>, windowMicros: int)

  datatype BuildError = EmptySecret | BadReplayWindow(error: GoDuration.Error)

  /** `_build`: an absent replay window is zero, a malformed one is an error. */
  function Build(replayWindow: string, secret: seq<byte>): Result<StripeVerifier, BuildError> {
    if secret == [] then Err(EmptySecret)
    else if replayWindow == "" then Ok(StripeVerifier(secret, 0))
    else
      match GoDuration.ParseMicros(replayWindow)
      case Err(e) => Err(BadReplayWindow(e))
      case Ok(us) => Ok(StripeVerifier(secret, us))
  }

  datatype Reason = MissingHeader | MalformedHeader | InvalidTimestamp | OutsideWindow | NoMatch

  /** `OverflowError` is raised where the timestamp is too large for a float, and `UnicodeError` by
    * `str.encode("ascii")`; neither is a verdict. */
  datatype Verdict = Accept | Reject(reason: Reason) | OverflowError | UnicodeError

  predicate IsAscii(s: string) {
    forall i :: 0 <= i < |s| ==> s[i] as int < 128
  }

  function AsciiBytes(s: string): seq<byte>
    requires IsAscii(s)
  {
    seq(|s|, i requires 0 <= i < |s| => s[i] as int)
  }

  function SignedPayload(timestamp: string, body: seq<byte>): seq<byte>
    requires IsAscii(timestamp)
  {
    AsciiBytes(timestamp) + [DOT] + body
  }

  predicate InWindow(v: StripeVerifier, nowMicros: int, ts: int) {
    v.windowMicros > 0 ==>
      FitsFloat(ts) && -v.windowMicros <= nowMicros - 1_000_000 * ts <= v.windowMicros
  }

  predicate AnyMatches(signatures: seq<string>, expected: seq<byte>) {
    exists i :: 0 <= i < |signatures| && Decode(signatures[i]) == Some(expected)
  }

  /** `verify` after the header has been parsed. */
  function Judge(mac: Mac, parseInt: IntParser, v: StripeVerifier, body: seq<byte>, p: Parsed,
        nowMicros: int): Verdict {
    if p.timestamp == "" || p.signatures == [] then Reject(MalformedHeader)
    else
      match parseInt(p.timestamp)
      case None => Reject(InvalidTimestamp)
      case Some(ts) =>
        if v.windowMicros > 0 && !FitsFloat(ts) then OverflowError
        else if !InWindow(v, nowMicros, ts) then Reject(OutsideWindow)
        else if !IsAscii(p.timestamp) then UnicodeError
        else if AnyMatches(p.signatures, mac(v.secret, SignedPayload(p.timestamp, body))) then Accept
        else Reject(NoMatch)
  }

  function Verify(mac: Mac, parseInt: IntParser, v: StripeVerifier, body: seq<byte>, header: Option<string>,
        nowMicros: int): Verdict {
    if header.None? || header.value == "" then Reject(MissingHeader)
    else Judge(mac, parseInt, v, body, ParseHeader(header.value), nowMicros)
  }

  /** `StripeVerifier.verify`, with its early-return loop over the candidates. */
  method VerifyLoop(mac: Mac, parseInt: IntParser, v: StripeVerifier, body: seq<byte>, header: Option<string>,
        nowMicros: int)
    returns (verdict: Verdict)
    ensures verdict == Verify(mac, parseInt, v, body, header, nowMicros)
  {
    if header.None? || header.value == "" {
      return Reject(MissingHeader);
    }
    var timestamp, signatures := ParseHeaderLoop(header.value);
    if timestamp == "" || signatures == [] {
      return Reject(MalformedHeader);
    }
    var ts := parseInt(timestamp);
    if ts.None? {
      return Reject(InvalidTimestamp);
    }
    if v.windowMicros > 0 {
      if !FitsFloat(ts.value) {
        return OverflowError;
      }
      var delta := nowMicros - 1_000_000 * ts.value;
      if (if delta < 0 then -delta else delta) > v.windowMicros {
        return Reject(OutsideWindow);
      }
    }
    if !IsAscii(timestamp) {
      return UnicodeError;
    }
    var expected := mac(v.secret, AsciiBytes(timestamp) + [DOT] + body);
    for i := 0 to |signatures|
      invariant forall j :: 0 <= j < i ==> Decode(signatures[j]) != Some(expected)
    {
      var got := Decode(signatures[i]);
      if got.None? {
        continue;
      }
      if got.value == expected {
        return Accept;
      }
    }
    return Reject(NoMatch);
  }

  // ---------------------------------------------------------------- what the verdict means

  /** The parts of a header carry a fresh timestamp and a signature that matches it. */
  ghost predicate Authentic(mac: Mac, parseInt: IntParser, v: StripeVerifier, body: seq<byte>,
        parts: seq<string>, nowMicros: int, t: string, sig: string) {
    && t != "" && IsAscii(t) && LastTimestamp(parts, t) && HasSignature(parts, sig)
    && parseInt(t).Some? && InWindow(v, nowMicros, parseInt(t).value)
    && Decode(sig) == Some(mac(v.secret, SignedPayload(t, body)))
  }

  /** Some timestamp and some signature of the header make it authentic. */
  ghost predicate IsAuthentic(mac: Mac, parseInt: IntParser, v: StripeVerifier, body: seq<byte>,
        parts: seq<string>, nowMicros: int) {
    exists t, sig :: Authentic(mac, parseInt, v, body, parts, nowMicros, t, sig)
  }

  lemma LastTimestampUnique(parts: seq<string>, t1: string, t2: string)
    requires LastTimestamp(parts, t1) && LastTimestamp(parts, t2)
    ensures t1 == t2
  {}

  /** `Authentic` for a parsed header. */
  ghost predicate Matching(mac: Mac, parseInt: IntParser, v: StripeVerifier, body: seq<byte>, nowMicros: int,
        t: string, sig: string) {
    && t != "" && IsAscii(t)
    && parseInt(t).Some? && InWindow(v, nowMicros, parseInt(t).value)
    && Decode(sig) == Some(mac(v.secret, SignedPayload(t, body)))
  }

  lemma JudgeAccepts(mac: Mac, parseInt: IntParser, v: StripeVerifier, body: seq<byte>, p: Parsed, nowMicros: int)
    ensures Judge(mac, parseInt, v, body, p, nowMicros) == Accept <==>
            exists sig :: sig in p.signatures && Matching(mac, parseInt, v, body, nowMicros, p.timestamp, sig)
  {
    if Judge(mac, parseInt, v, body, p, nowMicros) == Accept {
      var i :| 0 <= i < |p.signatures|
               && Decode(p.signatures[i]) == Some(mac(v.secret, SignedPayload(p.timestamp, body)));
      assert p.signatures[i] in p.signatures;
    }
  }

  /** The verifier accepts iff the last `t` part parses, is within the window, and some `v1` part
    * strictly decodes to the MAC of "t.body". */
  lemma AcceptsIffAuthentic(mac: Mac, parseInt: IntParser, v: StripeVerifier, body: seq<byte>, header: string,
        nowMicros: int)
    ensures Verify(mac, parseInt, v, body, Some(header), nowMicros) == Accept
            <==> IsAuthentic(mac, parseInt, v, body, Split(header, ','), nowMicros)
  {
    VerifyIsJudge(mac, parseInt, v, body, header, nowMicros);
    if Judge(mac, parseInt, v, body, ParseHeader(header), nowMicros) == Accept {
      var t, sig := AcceptedIsAuthentic(mac, parseInt, v, body, header, nowMicros);
      assert IsAuthentic(mac, parseInt, v, body, Split(header, ','), nowMicros);
    } else if IsAuthentic(mac, parseInt, v, body, Split(header, ','), nowMicros) {
      var t, sig :| Authentic(mac, parseInt, v, body, Split(header, ','), nowMicros, t, sig);
      AuthenticIsAccepted(mac, parseInt, v, body, header, nowMicros, t, sig);
    }
  }

  lemma AcceptedIsAuthentic(mac: Mac, parseInt: IntParser, v: StripeVerifier, body: seq<byte>, header: string,
        nowMicros: int)
    returns (t: string, sig: string)
    requires Judge(mac, parseInt, v, body, ParseHeader(header), nowMicros) == Accept
    ensures Authentic(mac, parseInt, v, body, Split(header, ','), nowMicros, t, sig)
  {
    var p := ParseHeader(header);
    TakeAllMeaning(Split(header, ','));
    JudgeAccepts(mac, parseInt, v, body, p, nowMicros);
    t := p.timestamp;
    sig :| sig in p.signatures && Matching(mac, parseInt, v, body, nowMicros, t, sig);
  }

  lemma AuthenticIsAccepted(mac: Mac, parseInt: IntParser, v: StripeVerifier, body: seq<byte>, header: string,
        nowMicros: int, t: string, sig: string)
    requires Authentic(mac, parseInt, v, body, Split(header, ','), nowMicros, t, sig)
    ensures Judge(mac, parseInt, v, body, ParseHeader(header), nowMicros) == Accept
  {
    var p := ParseHeader(header);
    TakeAllMeaning(Split(header, ','));
    LastTimestampUnique(Split(header, ','), t, p.timestamp);
    assert sig in p.signatures && Matching(mac, parseInt, v, body, nowMicros, p.timestamp, sig);
    JudgeAccepts(mac, parseInt, v, body, p, nowMicros);
  }

  lemma VerifyIsJudge(mac: Mac, parseInt: IntParser, v: StripeVerifier, body: seq<byte>, header: string,
        nowMicros: int)
    ensures Verify(mac, parseInt, v, body, Some(header), nowMicros) == Accept
            <==> Judge(mac, parseInt, v, body, ParseHeader(header), nowMicros) == Accept
  {
    EmptyHeaderIsMalformed();
    if header == "" {
      assert header == [];
      assert ParseHeader(header).timestamp == "";
    }
  }

  lemma EmptyHeaderIsMalformed()
    ensures ParseHeader("") == Parsed("", [])
  {
    assert Split("", ',') == [""];
    assert KeyValue("") == None;
  }

  /** The verdict depends only on the last timestamp and on which signatures are present: their
    * order, repetition and any other parts never change it. */
  lemma VerdictDependsOn(mac: Mac, parseInt: IntParser, v: StripeVerifier, body: seq<byte>, h1: string,
        h2: string, nowMicros: int, t: string)
    requires h1 != "" && h2 != ""
    requires LastTimestamp(Split(h1, ','), t) && LastTimestamp(Split(h2, ','), t)
    requires forall sig :: HasSignature(Split(h1, ','), sig) <==> HasSignature(Split(h2, ','), sig)
    ensures Verify(mac, parseInt, v, body, Some(h1), nowMicros) == Verify(mac, parseInt, v, body, Some(h2), nowMicros)
  {
    var p1, p2 := ParseHeader(h1), ParseHeader(h2);
    TakeAllMeaning(Split(h1, ','));
    TakeAllMeaning(Split(h2, ','));
    LastTimestampUnique(Split(h1, ','), t, p1.timestamp);
    LastTimestampUnique(Split(h2, ','), t, p2.timestamp);
    SameJudgement(mac, parseInt, v, body, p1, p2, nowMicros);
  }

  lemma SameJudgement(mac: Mac, parseInt: IntParser, v: StripeVerifier, body: seq<byte>, p1: Parsed,
        p2: Parsed, nowMicros: int)
    requires p1.timestamp == p2.timestamp
    requires forall sig :: sig in p1.signatures <==> sig in p2.signatures
    ensures Judge(mac, parseInt, v, body, p1, nowMicros) == Judge(mac, parseInt, v, body, p2, nowMicros)
  {
    SameMembers(p1.signatures, p2.signatures);
    if IsAscii(p1.timestamp) {
      SameMatches(p1.signatures, p2.signatures, mac(v.secret, SignedPayload(p1.timestamp, body)));
    }
  }

  lemma SameMembers(a: seq<string>, b: seq<string>)
    requires forall sig :: sig in a <==> sig in b
    ensures a == [] <==> b == []
  {
    if a != [] {
      assert a[0] in b;
    }
    if b != [] {
      assert b[0] in a;
    }
  }

  lemma SameMatches(a: seq<string>, b: seq<string>, expected: seq<byte>)
    requires forall sig :: sig in a <==> sig in b
    ensures AnyMatches(a, expected) <==> AnyMatches(b, expected)
  {
    if AnyMatches(a, expected) {
      var i :| 0 <= i < |a| && Decode(a[i]) == Some(expected);
      assert a[i] in b;
    }
    if AnyMatches(b, expected) {
      var i :| 0 <= i < |b| && Decode(b[i]) == Some(expected);
      assert b[i] in a;
    }
  }

  /** With a configured replay window of `ns` nanoseconds, the verifier can refuse a timestamp as
    * stale iff the window is at least one microsecond, and then exactly when the timestamp is
    * further from now than the window truncated to microseconds; a timestamp too large for a float
    * raises there instead. */
  lemma WindowIsChecked(mac: Mac, parseInt: IntParser, replayWindow: string, ns: int, secret: seq<byte>,
        body: seq<byte>, header: string, nowMicros: int, ts: int)
    requires GoDuration.Denotes(replayWindow, ns) && secret != [] && header != ""
    requires ParseHeader(header).timestamp != "" && ParseHeader(header).signatures != []
    requires parseInt(ParseHeader(header).timestamp) == Some(ts)
    ensures Build(replayWindow, secret).Ok?
    ensures Verify(mac, parseInt, Build(replayWindow, secret).value, body, Some(header), nowMicros)
            == Reject(OutsideWindow)
            <==> ns >= 1000 && FitsFloat(ts) && Distance(nowMicros, 1_000_000 * ts) > ns / 1000
    ensures Verify(mac, parseInt, Build(replayWindow, secret).value, body, Some(header), nowMicros) == OverflowError
            <==> ns >= 1000 && !FitsFloat(ts)
  {
    BuiltWindow(replayWindow, ns, secret);
    var v := Build(replayWindow, secret).value;
    JudgesStale(mac, parseInt, v, body, ParseHeader(header), nowMicros, ts);
  }

  function Distance(a: int, b: int): int {
    if a < b then b - a else a - b
  }

  lemma BuiltWindow(replayWindow: string, ns: int, secret: seq<byte>)
    requires GoDuration.Denotes(replayWindow, ns) && secret != []
    ensures Build(replayWindow, secret) == Ok(StripeVerifier(secret, GoDuration.TruncateToMicros(ns)))
    ensures GoDuration.TruncateToMicros(ns) > 0 <==> ns >= 1000
    ensures ns >= 1000 ==> GoDuration.TruncateToMicros(ns) == ns / 1000
  {
    GoDuration.ParseMeaning(replayWindow, ns);
  }

  lemma JudgesStale(mac: Mac, parseInt: IntParser, v: StripeVerifier, body: seq<byte>, p: Parsed,
        nowMicros: int, ts: int)
    requires p.timestamp != "" && p.signatures != [] && parseInt(p.timestamp) == Some(ts)
    ensures Judge(mac, parseInt, v, body, p, nowMicros) == Reject(OutsideWindow)
            <==> v.windowMicros > 0 && FitsFloat(ts) && Distance(nowMicros, 1_000_000 * ts) > v.windowMicros
    ensures Judge(mac, parseInt, v, body, p, nowMicros) == OverflowError <==> v.windowMicros > 0 && !FitsFloat(ts)
  {}

  /** A replay window that is not a duration stops the verifier from being built. */
  lemma MalformedWindowIsAnError(replayWindow: string, secret: seq<byte>)
    requires secret != [] && replayWindow != ""
    ensures Build(replayWindow, secret).Ok? <==> exists ns :: GoDuration.Denotes(replayWindow, ns)
  {
    if Build(replayWindow, secret).Ok? {
      GoDuration.ParseMeaning(replayWindow, GoDuration.Parse(replayWindow).value);
    }
    if exists ns :: GoDuration.Denotes(replayWindow, ns) {
      var ns :| GoDuration.Denotes(replayWindow, ns);
      GoDuration.ParseMeaning(replayWindow, ns);
    }
  }

  // ---------------------------------------------------------------- every verdict, exactly

  /** The header has both things the verifier needs, `t` being its last timestamp. */
  ghost predicate IsComplete(parts: seq<string>, t: string) {
    LastTimestamp(parts, t) && t != "" && exists sig :: HasSignature(parts, sig)
  }

  /** The timestamp passes the window's check, or there is no window. */
  ghost predicate IsTimely(v: StripeVerifier, nowMicros: int, ts: int) {
    v.windowMicros <= 0 || (FitsFloat(ts) && Distance(nowMicros, 1_000_000 * ts) <= v.windowMicros)
  }

  ghost predicate SomeSignatureIs(parts: seq<string>, expected: seq<byte>) {
    exists sig :: HasSignature(parts, sig) && Decode(sig) == Some(expected)
  }

  /** No header, or an empty one, is a missing header. */
  lemma MissingHeaderIff(mac: Mac, parseInt: IntParser, v: StripeVerifier, body: seq<byte>, header: Option<string>,
        nowMicros: int)
    ensures Verify(mac, parseInt, v, body, header, nowMicros) == Reject(MissingHeader)
            <==> header == None || header == Some("")
  {}

  /** For any other header the verdict in each case, by its last timestamp `t` and its signatures. */
  lemma VerdictIff(mac: Mac, parseInt: IntParser, v: StripeVerifier, body: seq<byte>, header: string,
        nowMicros: int, t: string)
    requires header != "" && LastTimestamp(Split(header, ','), t)
    ensures var parts := Split(header, ',');
            Verify(mac, parseInt, v, body, Some(header), nowMicros) ==
            if !IsComplete(parts, t) then Reject(MalformedHeader)
            else if parseInt(t) == None then Reject(InvalidTimestamp)
            else if v.windowMicros > 0 && !FitsFloat(parseInt(t).value) then OverflowError
            else if !IsTimely(v, nowMicros, parseInt(t).value) then Reject(OutsideWindow)
            else if exists i :: 0 <= i < |t| && t[i] as int >= 128 then UnicodeError
            else if SomeSignatureIs(parts, mac(v.secret, AsciiBytes(t) + [0x2E] + body)) then Accept
            else Reject(NoMatch)
  {
    var parts, p := Split(header, ','), ParseHeader(header);
    TakeAllMeaning(parts);
    LastTimestampUnique(parts, t, p.timestamp);
    CompleteIff(parts, p);
    if IsAscii(t) {
      MatchesIff(parts, p.signatures, mac(v.secret, SignedPayload(t, body)));
    }
  }

  lemma CompleteIff(parts: seq<string>, p: Parsed)
    requires LastTimestamp(parts, p.timestamp) && forall sig :: sig in p.signatures <==> HasSignature(parts, sig)
    ensures IsComplete(parts, p.timestamp) <==> p.timestamp != "" && p.signatures != []
  {
    if p.signatures != [] {
      assert p.signatures[0] in p.signatures;
    }
  }

  lemma MatchesIff(parts: seq<string>, signatures: seq<string>, expected: seq<byte>)
    requires forall sig :: sig in signatures <==> HasSignature(parts, sig)
    ensures AnyMatches(signatures, expected) <==> SomeSignatureIs(parts, expected)
  {
    if AnyMatches(signatures, expected) {
      var i :| 0 <= i < |signatures| && Decode(signatures[i]) == Some(expected);
      assert signatures[i] in signatures;
    }
    if SomeSignatureIs(parts, expected) {
      var sig :| HasSignature(parts, sig) && Decode(sig) == Some(expected);
      var i :| 0 <= i < |signatures| && signatures[i] == sig;
    }
  }

  /** What a sender writes is accepted: "t=T,v1=HEX", HEX being the MAC of the characters of T, a dot
    * and the body, while T is within the window. */
  lemma SignedHeaderIsAccepted(mac: Mac, parseInt: IntParser, v: StripeVerifier, body: seq<byte>, nowMicros: int,
        t: string, ts: int, payload: seq<byte>)
    requires Clean(t) && t != "" && parseInt(t) == Some(ts) && IsTimely(v, nowMicros, ts)
    requires |payload| == |t| + 1 + |body|
    requires forall i :: 0 <= i < |t| ==> payload[i] == t[i] as int < 128
    requires payload[|t|] == 0x2E && payload[|t| + 1..] == body
    ensures Verify(mac, parseInt, v, body, Some("t=" + t + (",v1=" + Encode(mac(v.secret, payload)))), nowMicros)
            == Accept
  {
    assert payload == SignedPayload(t, body);
    var sig := Encode(mac(v.secret, payload));
    HexIsClean(mac(v.secret, payload));
    var p := Parsed(t, [sig]);
    ParsePrint(p);
    assert [sig][1..] == [];
    assert PrintSignatures([sig]) == [','] + ("v1=" + sig + "") == ",v1=" + sig;
    assert PrintHeader(p) == "t=" + t + (",v1=" + sig);
    DecodeEncode(mac(v.secret, payload));
    assert Decode(p.signatures[0]) == Some(mac(v.secret, SignedPayload(t, body)));
  }

  lemma HexIsClean(bs: seq<byte>)
    ensures Clean(Encode(bs))
  {
    EncodeIsHex(bs);
    var s := Encode(bs);
    assert forall i :: 0 <= i < |s| ==> s[i] != ',' && !IsSpace(s[i]);
  }

  // ---------------------------------------------------------------- building a verifier

  /** An empty secret is an error whatever the window; without a window, none is checked. */
  lemma BuildIsChecked(replayWindow: string, secret: seq<byte>)
    ensures Build(replayWindow, []) == Err(EmptySecret)
    ensures secret != [] ==> Build("", secret) == Ok(StripeVerifier(secret, 0))
    ensures Build(replayWindow, secret).Ok? ==> Build(replayWindow, secret).value.secret == secret != []
  {}

  /** So without a window the clock plays no part. */
  lemma NoWindowNoClock(mac: Mac, parseInt: IntParser, secret: seq<byte>, body: seq<byte>, header: Option<string>,
        now1: int, now2: int)
    requires secret != []
    ensures var v := Build("", secret).value;
            && Verify(mac, parseInt, v, body, header, now1) == Verify(mac, parseInt, v, body, header, now2)
            && Verify(mac, parseInt, v, body, header, now1) !in {Reject(OutsideWindow), OverflowError}
  {}
}
