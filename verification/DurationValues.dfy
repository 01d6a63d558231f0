/** What the duration parser reads, in figures: each unit, each fraction, sums, and the refusals
  * (src/hookguard_core/goduration.py). */
module DurationValues {
  import opened Wrappers
  import opened Decimal
  import opened GoDuration

  /** Read with no sign, with "+" and with "-": `ns` nanoseconds, or an overflow. */
  ghost predicate Reads(s: string, ns: int) {
    forall sign :: sign in {"", "+", "-"} ==> GoDuration.Parse(sign + s) == InRangeOnly(if sign == "-" then -ns else ns)
  }

  /** A sum is returned when its magnitude is at most 2^63 - 1. */
  ghost function InRangeOnly(n: int): Result<int, Error> {
    if -0x7FFF_FFFF_FFFF_FFFF <= n <= 0x7FFF_FFFF_FFFF_FFFF then Ok(n) else Err(Overflow)
  }

  lemma ReadsSigned(p: Piece, sign: string, ns: int)
    requires p.WellFormed() && p.Convertible() && ns == p.Nanos() && IsSign(sign)
    ensures GoDuration.Parse(sign + p.Text()) == InRangeOnly(if sign == "-" then -ns else ns)
  {
    assert [p][1..] == [];
    assert GoDuration.Text([p]) == p.Text() + GoDuration.Text([]) == p.Text();
    assert Nanos([p]) == ns + Nanos([]) == ns;
    ParseOfSpelled(sign + p.Text(), sign, [p]);
  }

  lemma ReadsPiece(p: Piece, s: string, ns: int)
    requires p.WellFormed() && p.Convertible() && ns == p.Nanos() && s == p.Text()
    ensures Reads(s, ns)
  {
    forall sign | sign in {"", "+", "-"}
      ensures GoDuration.Parse(sign + s) == InRangeOnly(if sign == "-" then -ns else ns)
    {
      ReadsSigned(p, sign, ns);
    }
  }

  lemma NineteenDigits(n: nat)
    requires n <= INT64_MAX
    ensures |PrintNat(n)| <= 19
  {
    assert Pow10(5) == 100_000;
    Pow10Add(5, 5);
    Pow10Add(10, 5);
    assert Pow10(4) == 10_000;
    Pow10Add(15, 4);
    PrintedLength(n, 19);
  }

  lemma WholeNanos(w: string, unit: Unit, n: nat, ns: nat)
    requires AllDigits(w) && w != "" && Value(w) == n && ns == n * unit.Scale()
    ensures Piece(Number(w, None), unit).Nanos() == ns
  {}

  lemma ReadsWhole(n: nat, unit: Unit, name: string, ns: nat)
    requires ns == n * unit.Scale() && name == unit.Name() && |PrintNat(n)| <= INT_DIGIT_LIMIT
    ensures Reads(PrintNat(n) + name, ns)
  {
    var p := Piece(Number(PrintNat(n), None), unit);
    ValuePrintNat(n);
    WholeNanos(PrintNat(n), unit, n, ns);
    assert p.number.Text() == PrintNat(n);
    ReadsPiece(p, PrintNat(n) + name, ns);
  }

  /** Every number up to 2^63 - 1 has few enough digits for what follows. */
  lemma InRangeIsConvertible(n: nat)
    requires n <= INT64_MAX
    ensures |PrintNat(n)| <= 4300
  {
    NineteenDigits(n);
  }

  /** A whole number of each unit, under each of its names, is so many nanoseconds, and an overflow from
    * 2^63 on, for every number that `int()` converts. */
  lemma WholeUnits(n: nat)
    requires |PrintNat(n)| <= 4300
    ensures Reads(PrintNat(n) + "ns", n)
    ensures Reads(PrintNat(n) + "us", 1_000 * n)
    ensures Reads(PrintNat(n) + "\U{B5}s", 1_000 * n)
    ensures Reads(PrintNat(n) + "\U{3BC}s", 1_000 * n)
    ensures Reads(PrintNat(n) + "ms", 1_000_000 * n)
    ensures Reads(PrintNat(n) + "s", 1_000_000_000 * n)
    ensures Reads(PrintNat(n) + "m", 60_000_000_000 * n)
    ensures Reads(PrintNat(n) + "h", 3_600_000_000_000 * n)
  {
    ReadsWhole(n, Nano, "ns", n);
    ReadsWhole(n, MicroLetter, "us", 1_000 * n);
    ReadsWhole(n, MicroSign, "\U{B5}s", 1_000 * n);
    ReadsWhole(n, MicroMu, "\U{3BC}s", 1_000 * n);
    ReadsWhole(n, Milli, "ms", 1_000_000 * n);
    ReadsWhole(n, Second, "s", 1_000_000_000 * n);
    ReadsWhole(n, Minute, "m", 60_000_000_000 * n);
    ReadsWhole(n, Hour, "h", 3_600_000_000_000 * n);
  }

  /** `v` is x * ns / p, rounded down. */
  ghost predicate IsFloor(v: nat, x: nat, ns: nat, p: nat) {
    v * p <= x * ns < (v + 1) * p
  }

  lemma FloorBounds(v: nat, w: nat, f: nat, x: nat, ns: nat, p: nat, q: nat)
    requires p > 0 && q == f * ns / p && v == w * ns + q && x == w * p + f
    ensures IsFloor(v, x, ns, p)
  {
    DivisionBounds(f * ns, p, q);
    assert (w * p + f) * ns == w * ns * p + f * ns;
    assert (w * ns + q) * p == w * ns * p + q * p;
    assert (w * ns + q + 1) * p == w * ns * p + (q + 1) * p;
  }

  lemma DivisionBounds(x: nat, p: nat, q: nat)
    requires p > 0 && q == x / p
    ensures q * p <= x < (q + 1) * p
  {}

  lemma SameFloor(u: nat, v: nat, x: nat, ns: nat, p: nat)
    requires IsFloor(u, x, ns, p) && IsFloor(v, x, ns, p)
    ensures u == v
  {
    NoSmaller(x * ns, p, u, v);
    NoSmaller(x * ns, p, v, u);
  }

  lemma NoSmaller(x: nat, p: nat, u: nat, v: nat)
    requires u * p <= x && x < (v + 1) * p
    ensures u <= v
  {
    if v < u {
      Grows(v + 1, u, p);
    }
  }

  lemma Grows(a: nat, b: nat, p: nat)
    requires a <= b
    ensures a * p <= b * p
  {}

  lemma TenfoldFloor(v: nat, x: nat, ns: nat, p: nat)
    requires IsFloor(v, x, ns, p)
    ensures IsFloor(v, 10 * x, ns, 10 * p)
  {
    assert v * (10 * p) == 10 * (v * p) && (v + 1) * (10 * p) == 10 * ((v + 1) * p);
    assert 10 * x * ns == 10 * (x * ns);
  }

  /** "w.f" of a unit, as a piece. */
  function Fraction(w: string, f: string, unit: Unit): Piece {
    Piece(Number(w, Some(f)), unit)
  }

  lemma FractionNanos(w: string, f: string, unit: Unit)
    requires AllDigits(w) && AllDigits(f) && w + f != ""
    ensures Fraction(w, f, unit).WellFormed()
    ensures Fraction(w, f, unit).Nanos()
         == MulDiv(Value(w), unit.Scale(), 1) + MulDiv(Value(f), unit.Scale(), Pow10(|f|))
  {
    assert w == "" ==> f != "";
    MulDivIs(0, unit.Scale(), Pow10(|f|));
  }

  lemma MulDivIs(a: nat, b: nat, c: nat)
    requires c > 0
    ensures MulDiv(a, b, c) == a * b / c
    ensures MulDiv(a, b, 1) == a * b
    ensures MulDiv(0, b, c) == 0
  {}

  lemma FractionIsFloor(w: string, f: string, unit: Unit, p: nat)
    requires AllDigits(w) && AllDigits(f) && w + f != "" && p == Pow10(|f|)
    ensures Fraction(w, f, unit).WellFormed()
    ensures IsFloor(Fraction(w, f, unit).Nanos(), Value(w + f), unit.Scale(), p)
  {
    FractionNanos(w, f, unit);
    ValueAppend(w, f);
    var q := MulDiv(Value(f), unit.Scale(), p);
    MulDivIs(Value(f), unit.Scale(), p);
    MulDivIs(Value(w), unit.Scale(), 1);
    FloorBounds(Fraction(w, f, unit).Nanos(), Value(w), Value(f), Value(w + f), unit.Scale(), p, q);
  }

  lemma OneUnit(unit: Unit, ns: int)
    requires GoDuration.Parse("1" + unit.Name()) == Ok(ns)
    ensures ns == unit.Scale()
  {
    assert PrintNat(1) == "1";
    ReadsWhole(1, unit, unit.Name(), unit.Scale());
    assert "" + ("1" + unit.Name()) == "1" + unit.Name();
    assert GoDuration.Parse("" + ("1" + unit.Name())) == InRangeOnly(unit.Scale());
  }

  /** "w.f" of a unit is the number wf, over 1 and |f| zeros, times the unit's nanoseconds, rounded
    * down. What one of the unit is, "1" and its name say. */
  lemma FractionIsRoundedDown(w: string, f: string, unit: Unit, ns: nat, v: nat)
    requires AllDigits(w) && AllDigits(f) && w + f != "" && |w| <= 4300 && |f| <= 4300
    requires GoDuration.Parse("1" + unit.Name()) == Ok(ns)
    requires IsFloor(v, Value(w + f), ns, Pow10(|f|))
    ensures Reads(w + ("." + f) + unit.Name(), v)
  {
    OneUnit(unit, ns);
    var piece := Fraction(w, f, unit);
    FractionIsFloor(w, f, unit, Pow10(|f|));
    SameFloor(v, piece.Nanos(), Value(w + f), ns, Pow10(|f|));
    ReadsPiece(piece, w + ("." + f) + unit.Name(), v);
  }

  /** A zero at the end of a fraction changes nothing. */
  lemma TrailingZero(w: string, f: string, unit: Unit)
    requires AllDigits(w) && AllDigits(f) && w + f != "" && |w| <= 4300 && |f| < 4300
    ensures GoDuration.Parse(w + ("." + (f + "0")) + unit.Name()) == GoDuration.Parse(w + ("." + f) + unit.Name())
  {
    var p := Pow10(|f|);
    var short, long := Fraction(w, f, unit), Fraction(w, f + "0", unit);
    ZeroIsTenfold(w, f);
    FractionIsFloor(w, f, unit, p);
    FractionIsFloor(w, f + "0", unit, 10 * p);
    TenfoldFloor(short.Nanos(), Value(w + f), unit.Scale(), p);
    SameFloor(short.Nanos(), long.Nanos(), 10 * Value(w + f), unit.Scale(), 10 * p);
    var a, b := w + ("." + f) + unit.Name(), w + ("." + (f + "0")) + unit.Name();
    ReadsPiece(short, a, short.Nanos());
    ReadsPiece(long, b, short.Nanos());
    assert "" + a == a && "" + b == b;
    assert GoDuration.Parse("" + a) == GoDuration.Parse("" + b);
  }

  lemma ZeroIsTenfold(w: string, f: string)
    requires AllDigits(w) && AllDigits(f)
    ensures AllDigits(f + "0") && AllDigits(w + (f + "0")) && Value(w + (f + "0")) == 10 * Value(w + f)
  {
    var s := w + (f + "0");
    assert s[..|s| - 1] == w + f && s[|s| - 1] == '0';
  }

  lemma {:induction false} TextAppend(ps: seq<Piece>, qs: seq<Piece>)
    requires WellFormed(ps) && WellFormed(qs)
    ensures GoDuration.Text(ps + qs) == GoDuration.Text(ps) + GoDuration.Text(qs)
    ensures WellFormed(ps + qs) && Nanos(ps + qs) == Nanos(ps) + Nanos(qs)
  {
    if ps == [] {
      assert ps + qs == qs;
    } else {
      assert (ps + qs)[1..] == ps[1..] + qs;
      TextAppend(ps[1..], qs);
      Associative(ps[0].Text(), GoDuration.Text(ps[1..]), GoDuration.Text(qs));
    }
  }

  ghost predicate Unsigned(s: string) {
    s != "" && s != "0" && s[0] != '+' && s[0] != '-'
  }

  lemma PiecesOf(s: string, n: int) returns (ps: seq<Piece>)
    requires GoDuration.Parse(s) == Ok(n) && Unsigned(s)
    ensures ps != [] && WellFormed(ps) && Convertible(ps) && GoDuration.Text(ps) == s && Nanos(ps) == n
  {
    ParsedIsDenoted(s, n);
    var sign, qs :| Spells(s, sign, qs) && Convertible(qs)
                    && Nanos(qs) <= INT64_MAX && n == Signed(sign, Nanos(qs));
    assert s[0] == (sign + GoDuration.Text(qs))[0];
    ps := qs;
  }

  lemma ReadsUnsigned(ps: seq<Piece>, s: string, n: int)
    requires ps != [] && WellFormed(ps) && Convertible(ps) && GoDuration.Text(ps) == s && Nanos(ps) == n
    ensures GoDuration.Parse(s) == InRangeOnly(n)
  {
    assert "" + s == s;
    ParseOfSpelled(s, "", ps);
  }

  lemma ConvertibleAppend(ps: seq<Piece>, qs: seq<Piece>)
    requires Convertible(ps) && Convertible(qs)
    ensures Convertible(ps + qs)
  {}

  /** Two durations written one after the other add up, whatever their units. */
  lemma PartsAddUp(a: string, b: string, m: int, n: int)
    requires GoDuration.Parse(a) == Ok(m) && Unsigned(a) && GoDuration.Parse(b) == Ok(n) && Unsigned(b)
    ensures GoDuration.Parse(a + b) == InRangeOnly(m + n)
  {
    var both := JoinedPieces(a, b, m, n);
    ReadsUnsigned(both, a + b, m + n);
  }

  lemma JoinedPieces(a: string, b: string, m: int, n: int) returns (both: seq<Piece>)
    requires GoDuration.Parse(a) == Ok(m) && Unsigned(a) && GoDuration.Parse(b) == Ok(n) && Unsigned(b)
    ensures both != [] && WellFormed(both) && Convertible(both)
    ensures GoDuration.Text(both) == a + b && Nanos(both) == m + n
  {
    var ps := PiecesOf(a, m);
    var qs := PiecesOf(b, n);
    both := BothPieces(a, b, m, n, ps, qs);
  }

  lemma BothPieces(a: string, b: string, m: int, n: int, ps: seq<Piece>, qs: seq<Piece>) returns (both: seq<Piece>)
    requires ps != [] && WellFormed(ps) && Convertible(ps) && GoDuration.Text(ps) == a && Nanos(ps) == m
    requires WellFormed(qs) && Convertible(qs) && GoDuration.Text(qs) == b && Nanos(qs) == n
    ensures both != [] && WellFormed(both) && Convertible(both)
    ensures GoDuration.Text(both) == a + b && Nanos(both) == m + n
  {
    TextAppend(ps, qs);
    ConvertibleAppend(ps, qs);
    both := ps + qs;
  }

  /** n and a half hours, so many minutes, so many seconds: one duration, written in three ways. */
  lemma HalfHours(n: nat)
    requires 3_600_000_000_000 * n + 1_800_000_000_000 <= INT64_MAX
    ensures Reads(PrintNat(n) + ("." + "5") + "h", 3_600_000_000_000 * n + 1_800_000_000_000)
    ensures Reads(PrintNat(60 * n + 30) + "m", 3_600_000_000_000 * n + 1_800_000_000_000)
    ensures Reads(PrintNat(3600 * n + 1800) + "s", 3_600_000_000_000 * n + 1_800_000_000_000)
  {
    var ns := 3_600_000_000_000 * n + 1_800_000_000_000;
    InRangeIsConvertible(n);
    InRangeIsConvertible(60 * n + 30);
    InRangeIsConvertible(3600 * n + 1800);
    ReadsWhole(60 * n + 30, Minute, "m", ns);
    ReadsWhole(3600 * n + 1800, Second, "s", ns);
    AndAHalf(PrintNat(n), n, "5");
  }

  lemma AndAHalf(w: string, n: nat, f: string)
    requires w == PrintNat(n) && |w| <= 4300 && f == "5"
    ensures Reads(w + ("." + f) + "h", 3_600_000_000_000 * n + 1_800_000_000_000)
  {
    var p := Fraction(w, f, Hour);
    ValuePrintNat(n);
    assert f == [DIGITS[5]];
    ValueOfDigit(5);
    FractionNanos(w, f, Hour);
    assert Pow10(1) == 10;
    MulDivIs(n, 3_600_000_000_000, 1);
    MulDivIs(5, 3_600_000_000_000, 10);
    ReadsPiece(p, w + ("." + f) + "h", 3_600_000_000_000 * n + 1_800_000_000_000);
  }

  // ---------------------------------------------------------------- which refusal

  /** A bare sign or nothing, a number without a unit, a number before anything that is no unit, and a
    * text that does not start with a number: each has its own message. */
  lemma RefusalsAreNamed(sign: string, digits: string, rest: string)
    requires IsSign(sign) && AllDigits(digits) && digits != "" && digits != "0"
    requires rest != "" && !StartsPiece(rest[0]) && rest[0] !in {'n', 'u', '\U{B5}', '\U{3BC}', 'm', 's', 'h'}
    ensures GoDuration.Parse(sign) == Err(InvalidDuration)
    ensures GoDuration.Parse(sign + digits) == Err(MissingUnit)
    ensures GoDuration.Parse(sign + (digits + rest)) == Err(UnknownUnit)
    ensures rest[0] != '+' && rest[0] != '-' ==> GoDuration.Parse(sign + rest) == Err(InvalidDuration)
  {
    NoUnit(rest, UNIT_ORDER);
    NoUnit("", UNIT_ORDER);
    BareNumber(digits, "");
    BareNumber(digits, rest);
    assert digits + "" == digits;
    BodyIsScanned(sign, digits);
    BodyIsScanned(sign, digits + rest);
    if rest[0] != '+' && rest[0] != '-' {
      BodyIsScanned(sign, rest);
    }
  }

  lemma {:induction false} NoUnit(s: string, units: seq<Unit>)
    requires s == "" || s[0] !in {'n', 'u', '\U{B5}', '\U{3BC}', 'm', 's', 'h'}
    ensures FirstMatch(s, units) == None
  {
    if units == [] {
    } else {
      NoUnit(s, units[1..]);
      assert !(units[0].Name() <= s);
    }
  }

  lemma BareNumber(digits: string, rest: string)
    requires AllDigits(digits) && digits != "" && (rest == "" || !StartsPiece(rest[0]))
    ensures MatchNumber(digits + rest) == (Number(digits, None), rest)
  {
    DigitRunOf(digits, rest);
    assert (digits + rest)[|digits|..] == rest;
  }

  lemma BodyIsScanned(sign: string, body: string)
    requires IsSign(sign) && body != "" && body != "0" && body[0] != '+' && body[0] != '-'
    ensures GoDuration.Parse(sign + body) == WithSign(sign == "-", ScanAll(body, 0))
  {
    var s := sign + body;
    assert sign == "" ==> s == body;
    assert sign != "" ==> s[0] == sign[0] && s[1..] == body;
  }
}
