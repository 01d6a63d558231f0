/** The gateway's request handler (src/hookguard_gateway/app.py) and the check of the upstream it
  * forwards to (src/hookguard_gateway/upstream.py). The provider verifier and the upstream's reply
  * are parameters. */
module Gateway {
  import opened Wrappers
  import opened Hex
  import opened GatewaySig
  import opened Text
  import opened Floats
  import Stripe

  const MAX_BODY_BYTES: nat := 5 * 1024 * 1024

  ghost function Flatten(chunks: seq<seq<byte>>): seq<byte> {
    if chunks == [] then [] else chunks[0] + Flatten(chunks[1..])
  }

  lemma {:induction false} FlattenSnoc(chunks: seq<seq<byte>>, chunk: seq<byte>)
    ensures Flatten(chunks + [chunk]) == Flatten(chunks) + chunk
  {
    if chunks == [] {
      assert (chunks + [chunk])[1..] == [];
    } else {
      assert (chunks + [chunk])[1..] == chunks[1..] + [chunk];
      FlattenSnoc(chunks[1..], chunk);
    }
  }

  lemma {:induction false} FlattenGrows(chunks: seq<seq<byte>>, n: nat)
    requires n <= |chunks|
    ensures |Flatten(chunks[..n])| <= |Flatten(chunks)|
  {
    if n == 0 {
    } else {
      assert chunks[..n][1..] == chunks[1..][..n - 1];
      FlattenGrows(chunks[1..], n - 1);
    }
  }

  /** `_read_capped_body`: gives up as soon as the running size passes the cap. */
  method ReadCappedBody(chunks: seq<seq<byte>>) returns (body: Option<seq<byte>>)
    ensures body == if |Flatten(chunks)| <= MAX_BODY_BYTES then Some(Flatten(chunks)) else None
  {
    var kept: seq<byte> := [];
    var size := 0;
    for i := 0 to |chunks|
      invariant kept == Flatten(chunks[..i]) && size == |kept| <= MAX_BODY_BYTES
    {
      assert chunks[..i + 1] == chunks[..i] + [chunks[i]];
      FlattenSnoc(chunks[..i], chunks[i]);
      size := size + |chunks[i]|;
      if size > MAX_BODY_BYTES {
        FlattenGrows(chunks, i + 1);
        return None;
      }
      kept := kept + chunks[i];
    }
    assert chunks[..|chunks|] == chunks;
    return Some(kept);
  }

  // ---------------------------------------------------------------- the handler

  /** What the route's verifier does with a body. */
  datatype Verification = Passed | Failed | Raised

  /** The request sent upstream. */
  datatype Forward = Forward(provider: seq<byte>, signature: string, body: seq<byte>)

  /** The verdict event handed to the emitter. */
  datatype Recorded = RejectedEvent | AcceptedEvent(upstreamStatus: int)

  /** `Relayed` carries the upstream's status; `Crashed` is an exception the handler lets through. */
  datatype Response = BodyTooLarge | Unauthorized | UpstreamUnreachable | Relayed(status: int) | Crashed

  /** The route handler: verify, forward, record. `reply` is None when the upstream is unreachable. */
  method Handle(mac: Mac, secret: seq<byte>, provider: seq<byte>, chunks: seq<seq<byte>>,
                verify: seq<byte> -> Verification, reply: Forward -> Option<int>)
    returns (response: Response, sent: seq<Forward>, recorded: seq<Recorded>)
    // It forwards exactly when the body is within the cap and the verifier passes,
    ensures sent != [] <==> |Flatten(chunks)| <= MAX_BODY_BYTES && verify(Flatten(chunks)).Passed?
    // once, with the concatenation of the chunks and this route's provider,
    ensures |sent| <= 1
    ensures forall f :: f in sent ==> f.body == Flatten(chunks) && f.provider == provider
    // under a signature the upstream's check accepts.
    ensures forall f :: f in sent ==> Receive(mac, secret, f)
    // Whatever reaches a verdict is recorded once, and nothing else is.
    ensures |Flatten(chunks)| > MAX_BODY_BYTES ==> response == BodyTooLarge && recorded == []
    ensures |Flatten(chunks)| <= MAX_BODY_BYTES ==>
              match verify(Flatten(chunks))
              case Failed => response == Unauthorized && recorded == [RejectedEvent]
              case Raised => response == Crashed && recorded == []
              case Passed =>
                match reply(sent[0])
                case None => response == UpstreamUnreachable && recorded == [AcceptedEvent(0)]
                case Some(status) => response == Relayed(status) && recorded == [AcceptedEvent(status)]
  {
    sent, recorded := [], [];
    var body := ReadCappedBody(chunks);
    if body.None? {
      return BodyTooLarge, sent, recorded;
    }
    match verify(body.value)
    case Failed =>
      recorded := [RejectedEvent];
      return Unauthorized, sent, recorded;
    case Raised =>
      return Crashed, sent, recorded;
    case Passed =>
      var request := Forward(provider, Sign(mac, secret, provider, body.value), body.value);
      SignedVerifies(mac, secret, provider, body.value);
      sent := [request];
      match reply(request) {
        case None =>
          response := UpstreamUnreachable;
          recorded := [AcceptedEvent(0)];
        case Some(status) =>
          response := Relayed(status);
          recorded := [AcceptedEvent(status)];
      }
  }

  /** The upstream's `receive`: whether the gateway signature verifies. */
  predicate Receive(mac: Mac, secret: seq<byte>, request: Forward) {
    Verify(mac, secret, request.provider, request.body, request.signature) == Accepted
  }

  /** Barring a MAC collision on the two preimages, the upstream takes a forwarded signature on
    * another (provider, body) pair only if a dot moved between provider and body; between dot-free
    * names it takes it on no other pair. */
  lemma UpstreamBindsProviderAndBody(mac: Mac, secret: seq<byte>, f: Forward, g: Forward)
    requires f.signature == Sign(mac, secret, f.provider, f.body)
    requires Lower(g.signature) == f.signature
    requires NoCollision(mac, secret, Preimage(f.provider, f.body), Preimage(g.provider, g.body))
    ensures Receive(mac, secret, g) <==>
            (f.provider == g.provider && f.body == g.body)
            || DotShift(f.provider, f.body, g.provider, g.body)
            || DotShift(g.provider, g.body, f.provider, f.body)
    ensures DotFree(f.provider) && DotFree(g.provider) ==>
              (Receive(mac, secret, g) <==> f.provider == g.provider && f.body == g.body)
  {
    TransferIff(mac, secret, f.provider, f.body, g.provider, g.body, g.signature);
    SamePreimage(f.provider, f.body, g.provider, g.body);
    if DotFree(f.provider) && DotFree(g.provider) {
      PreimageInjective(f.provider, f.body, g.provider, g.body);
    }
  }

  /** A route whose verifier is Stripe's: a refusal is a 401, an exception that is no verdict is not. */
  function StripeRoute(mac: Mac, parseInt: Stripe.IntParser, v: Stripe.StripeVerifier, header: Option<string>,
                       nowMicros: int): seq<byte> -> Verification {
    body =>
      match Stripe.Verify(mac, parseInt, v, body, header, nowMicros)
      case Accept => Passed
      case Reject(_) => Failed
      case OverflowError => Raised
      case UnicodeError => Raised
  }

  /** Such a route passes a body on exactly when the Stripe header authenticates that body. */
  lemma StripeRoutePasses(mac: Mac, parseInt: Stripe.IntParser, v: Stripe.StripeVerifier, header: string,
                          nowMicros: int, body: seq<byte>)
    ensures StripeRoute(mac, parseInt, v, Some(header), nowMicros)(body).Passed?
            <==> Stripe.IsAuthentic(mac, parseInt, v, body, Split(header, ','), nowMicros)
    ensures StripeRoute(mac, parseInt, v, None, nowMicros)(body).Failed?
  {
    Stripe.AcceptsIffAuthentic(mac, parseInt, v, body, header, nowMicros);
  }

  /** The header authenticates the body. */
  ghost predicate IsAuthentic(mac: Mac, parseInt: Stripe.IntParser, v: Stripe.StripeVerifier, body: seq<byte>,
                              header: Option<string>, nowMicros: int) {
    header.Some? && Stripe.IsAuthentic(mac, parseInt, v, body, Split(header.value, ','), nowMicros)
  }

  /** The verifier gets as far as a call that raises on this header: the window's comparison with a
    * timestamp too large for a float, or the encoding of a timestamp that is not ASCII. */
  ghost predicate Raises(parseInt: Stripe.IntParser, v: Stripe.StripeVerifier, header: Option<string>, nowMicros: int) {
    header.Some? && exists t :: RaisesOn(parseInt, v, Split(header.value, ','), nowMicros, t)
  }

  ghost predicate RaisesOn(parseInt: Stripe.IntParser, v: Stripe.StripeVerifier, parts: seq<string>, nowMicros: int,
                           t: string) {
    && Stripe.IsComplete(parts, t) && parseInt(t).Some?
    && if v.windowMicros > 0 && !FitsFloat(parseInt(t).value) then true
       else Stripe.IsTimely(v, nowMicros, parseInt(t).value) && exists i :: 0 <= i < |t| && t[i] as int >= 128
  }

  lemma StripeRouteRaisesIff(mac: Mac, parseInt: Stripe.IntParser, v: Stripe.StripeVerifier, header: Option<string>,
                             nowMicros: int, body: seq<byte>)
    ensures StripeRoute(mac, parseInt, v, header, nowMicros)(body).Raised? <==> Raises(parseInt, v, header, nowMicros)
  {
    if header.Some? {
      var parts, t := Split(header.value, ','), Stripe.ParseHeader(header.value).timestamp;
      Stripe.TakeAllMeaning(parts);
      forall u | Stripe.LastTimestamp(parts, u)
        ensures u == t
      {
        Stripe.LastTimestampUnique(parts, t, u);
      }
      if header.value == "" {
        Stripe.EmptyHeaderIsMalformed();
      } else {
        Stripe.VerdictIff(mac, parseInt, v, body, header.value, nowMicros, t);
      }
      assert Raises(parseInt, v, header, nowMicros) <==> RaisesOn(parseInt, v, parts, nowMicros, t);
    }
  }

  /** The whole path of a Stripe webhook: it is forwarded, once and unaltered, exactly when its body
    * is within the cap and its header authenticates that body, and then the upstream accepts it. */
  method HandleStripe(mac: Mac, secret: seq<byte>, provider: seq<byte>, chunks: seq<seq<byte>>,
                      parseInt: Stripe.IntParser, v: Stripe.StripeVerifier, header: Option<string>, nowMicros: int,
                      reply: Forward -> Option<int>)
    returns (response: Response, sent: seq<Forward>, recorded: seq<Recorded>)
    ensures sent != [] <==>
            |Flatten(chunks)| <= 5 * 1024 * 1024
            && IsAuthentic(mac, parseInt, v, Flatten(chunks), header, nowMicros)
    ensures |sent| <= 1
    ensures forall f :: f in sent ==> f.body == Flatten(chunks) && f.provider == provider && Receive(mac, secret, f)
    // Then the upstream's answer is relayed and recorded.
    ensures sent != [] ==>
              match reply(sent[0])
              case None => response == UpstreamUnreachable && recorded == [AcceptedEvent(0)]
              case Some(status) => response == Relayed(status) && recorded == [AcceptedEvent(status)]
    // A body above the cap is no verdict.
    ensures |Flatten(chunks)| > 5 * 1024 * 1024 ==> response == BodyTooLarge && recorded == []
    // A body within it that is not authenticated is refused and recorded, unless the verifier raises.
    ensures |Flatten(chunks)| <= 5 * 1024 * 1024
            && !IsAuthentic(mac, parseInt, v, Flatten(chunks), header, nowMicros) ==>
              if Raises(parseInt, v, header, nowMicros) then response == Crashed && recorded == []
              else response == Unauthorized && recorded == [RejectedEvent]
  {
    StripeRouteRaisesIff(mac, parseInt, v, header, nowMicros, Flatten(chunks));
    StripeRoutePasses(mac, parseInt, v, if header.Some? then header.value else "", nowMicros, Flatten(chunks));
    response, sent, recorded :=
      Handle(mac, secret, provider, chunks, StripeRoute(mac, parseInt, v, header, nowMicros), reply);
  }
}
