/** The gateway signature of src/hookguard_core/gatewaysig.py: an HMAC (RFC 2104 section 2) over
  * "<provider>.<body>". The MAC itself is a parameter, `mac(key, message)`; a provider name is its
  * UTF-8 bytes. */
module GatewaySig {
  import opened Hex
  import opened Text

  type Mac = (seq<byte>, seq<byte>) -> seq<byte>

  const DOT: byte := 0x2E

  function Preimage(provider: seq<byte>, body: seq<byte>): seq<byte> {
    provider + [DOT] + body
  }

  /** `_mac`: three updates of one hash object, then its digest. */
  method ComputeMac(mac: Mac, secret: seq<byte>, provider: seq<byte>, body: seq<byte>)
    returns (digest: seq<byte>)
    ensures digest == mac(secret, Preimage(provider, body)) == mac(secret, provider + [0x2E] + body)
  {
    var fed: seq<byte> := [];
    fed := fed + provider;
    fed := fed + [DOT];
    fed := fed + body;
    assert fed == Preimage(provider, body);
    digest := mac(secret, fed);
  }

  function Sign(mac: Mac, secret: seq<byte>, provider: seq<byte>, body: seq<byte>): string {
    Encode(mac(secret, Preimage(provider, body)))
  }

  datatype Check = Accepted | InvalidEncoding | Mismatch

  function Verify(mac: Mac, secret: seq<byte>, provider: seq<byte>, body: seq<byte>, sigHex: string): Check {
    match Decode(sigHex)
    case None => InvalidEncoding
    case Some(got) => if got == mac(secret, Preimage(provider, body)) then Accepted else Mismatch
  }

  /** Verification accepts exactly the signature itself, in any letter case. */
  lemma VerifiesIffSigned(mac: Mac, secret: seq<byte>, provider: seq<byte>, body: seq<byte>, sigHex: string)
    ensures Verify(mac, secret, provider, body, sigHex) == Accepted
            <==> Lower(sigHex) == Sign(mac, secret, provider, body)
    ensures Verify(mac, secret, provider, body, sigHex) == InvalidEncoding <==> !IsHex(sigHex)
  {
    DecodesTo(sigHex, mac(secret, Preimage(provider, body)));
    DecodesIffHex(sigHex);
  }

  lemma {:induction false} EncodeIsLower(bs: seq<byte>)
    ensures Lower(Encode(bs)) == Encode(bs)
  {
    EncodeIsHex(bs);
    DecodeEncode(bs);
    EncodeDecode(Encode(bs));
  }

  /** What the gateway signs, the check accepts. */
  lemma SignedVerifies(mac: Mac, secret: seq<byte>, provider: seq<byte>, body: seq<byte>)
    ensures Verify(mac, secret, provider, body, Sign(mac, secret, provider, body)) == Accepted
  {
    EncodeIsLower(mac(secret, Preimage(provider, body)));
    VerifiesIffSigned(mac, secret, provider, body, Sign(mac, secret, provider, body));
  }

  /** The whole check, in terms of bytes: it accepts a string of hex digits that decodes to the MAC of
    * provider, dot and body, calls any other hex string a mismatch, and any other string malformed. */
  lemma VerifyMeaning(mac: Mac, secret: seq<byte>, provider: seq<byte>, body: seq<byte>, got: seq<byte>)
    ensures Verify(mac, secret, provider, body, Encode(got))
         == if got == mac(secret, provider + [0x2E] + body) then Accepted else Mismatch
    ensures Sign(mac, secret, provider, body) == Encode(mac(secret, provider + [0x2E] + body))
  {
    DecodeEncode(got);
  }

  // ---------------------------------------------------------------- what the preimage binds

  /** `longer` is `shorter`, a dot and more; the body gives that much up. */
  ghost predicate DotShift(shorter: seq<byte>, shorterBody: seq<byte>, longer: seq<byte>, longerBody: seq<byte>) {
    && |shorter| < |longer|
    && shorter + [DOT] <= longer
    && shorterBody == longer[|shorter| + 1..] + [DOT] + longerBody
  }

  /** Two (provider, body) pairs share a preimage only by being equal or by shifting a dot. */
  lemma SamePreimage(p1: seq<byte>, b1: seq<byte>, p2: seq<byte>, b2: seq<byte>)
    ensures Preimage(p1, b1) == Preimage(p2, b2) <==>
            (p1 == p2 && b1 == b2) || DotShift(p1, b1, p2, b2) || DotShift(p2, b2, p1, b1)
  {
    if Preimage(p1, b1) == Preimage(p2, b2) {
      if |p1| <= |p2| {
        SamePreimageShorter(p1, b1, p2, b2);
      } else {
        SamePreimageShorter(p2, b2, p1, b1);
      }
    }
    if DotShift(p1, b1, p2, b2) {
      DotShiftPreimage(p1, b1, p2, b2);
    }
    if DotShift(p2, b2, p1, b1) {
      DotShiftPreimage(p2, b2, p1, b1);
    }
  }

  lemma SamePreimageShorter(p1: seq<byte>, b1: seq<byte>, p2: seq<byte>, b2: seq<byte>)
    requires Preimage(p1, b1) == Preimage(p2, b2) && |p1| <= |p2|
    ensures (p1 == p2 && b1 == b2) || DotShift(p1, b1, p2, b2)
  {
    var m := Preimage(p1, b1);
    assert p1 == m[..|p1|] == p2[..|p1|];
    assert b1 == m[|p1| + 1..] && b2 == m[|p2| + 1..];
    if |p1| < |p2| {
      assert p2[|p1|] == m[|p1|] == DOT;
      assert p1 + [DOT] == p2[..|p1| + 1];
      assert m[|p1| + 1..] == p2[|p1| + 1..] + [DOT] + b2;
    }
  }

  lemma DotShiftPreimage(p1: seq<byte>, b1: seq<byte>, p2: seq<byte>, b2: seq<byte>)
    requires DotShift(p1, b1, p2, b2)
    ensures Preimage(p1, b1) == Preimage(p2, b2)
  {
    var rest := p2[|p1| + 1..];
    assert p2 == p1 + [DOT] + rest;
    assert Preimage(p1, b1) == p1 + [DOT] + rest + [DOT] + b2;
  }

  ghost predicate DotFree(provider: seq<byte>) {
    DOT !in provider
  }

  /** For dot-free provider names the preimage determines both provider and body. */
  lemma PreimageInjective(p1: seq<byte>, b1: seq<byte>, p2: seq<byte>, b2: seq<byte>)
    requires DotFree(p1) && DotFree(p2)
    ensures Preimage(p1, b1) == Preimage(p2, b2) <==> p1 == p2 && b1 == b2
  {
    SamePreimage(p1, b1, p2, b2);
    DotShiftHasDot(p1, b1, p2, b2);
    DotShiftHasDot(p2, b2, p1, b1);
  }

  lemma DotShiftHasDot(p1: seq<byte>, b1: seq<byte>, p2: seq<byte>, b2: seq<byte>)
    ensures DotShift(p1, b1, p2, b2) ==> !DotFree(p2)
  {
    if DotShift(p1, b1, p2, b2) {
      assert p2[|p1|] == (p1 + [DOT])[|p1|];
    }
  }

  /** The two messages do not collide under this key. */
  ghost predicate NoCollision(mac: Mac, secret: seq<byte>, m1: seq<byte>, m2: seq<byte>) {
    mac(secret, m1) == mac(secret, m2) ==> m1 == m2
  }

  /** Barring a MAC collision on the two preimages, a signature made for (p, b) is accepted for
    * (q, c), in any letter case, exactly when the two pairs share a preimage. */
  lemma TransferIff(mac: Mac, secret: seq<byte>, p: seq<byte>, b: seq<byte>, q: seq<byte>, c: seq<byte>,
        sigHex: string)
    requires NoCollision(mac, secret, Preimage(p, b), Preimage(q, c))
    requires Lower(sigHex) == Sign(mac, secret, p, b)
    ensures Verify(mac, secret, q, c, sigHex) == Accepted
            <==> (p == q && b == c) || DotShift(p, b, q, c) || DotShift(q, c, p, b)
  {
    VerifiesIffSigned(mac, secret, q, c, sigHex);
    DecodeEncode(mac(secret, Preimage(p, b)));
    DecodeEncode(mac(secret, Preimage(q, c)));
    SamePreimage(p, b, q, c);
  }

  /** So for dot-free names, relabelling the provider or altering the body is always refused. */
  lemma TamperingIsRefused(mac: Mac, secret: seq<byte>, p: seq<byte>, b: seq<byte>, q: seq<byte>, c: seq<byte>,
        sigHex: string)
    requires DotFree(p) && DotFree(q) && (p != q || b != c)
    requires NoCollision(mac, secret, Preimage(p, b), Preimage(q, c))
    requires Lower(sigHex) == Sign(mac, secret, p, b)
    ensures Verify(mac, secret, q, c, sigHex) == Mismatch
  {
    TransferIff(mac, secret, p, b, q, c, sigHex);
    SamePreimage(p, b, q, c);
    PreimageInjective(p, b, q, c);
    EncodeIsLower(mac(secret, Preimage(p, b)));
    VerifiesIffSigned(mac, secret, p, b, sigHex);
    DecodesIffHex(sigHex);
  }

  /** With a dot in the name it is not: "a.b" with body "c" relabels as "a" with body "b.c". */
  lemma DottedNameRelabels(mac: Mac, secret: seq<byte>)
    ensures var a: byte, b: byte, c: byte := 0x61, 0x62, 0x63;
            Verify(mac, secret, [a], [b, DOT, c], Sign(mac, secret, [a, DOT, b], [c])) == Accepted
  {
    var a: byte, b: byte, c: byte := 0x61, 0x62, 0x63;
    assert Preimage([a], [b, DOT, c]) == Preimage([a, DOT, b], [c]);
    SignedVerifies(mac, secret, [a], [b, DOT, c]);
  }
}
