/** Go's duration syntax, as src/hookguard_core/goduration.py reads it: the scanner loop, the
  * grammar it accepts, and the truncation to microseconds. Digits are ASCII digits. */
module GoDuration {
  import opened Wrappers
  import opened Decimal

  // ---------------------------------------------------------------- units

  datatype Unit = Nano | MicroLetter | MicroSign | MicroMu | Milli | Second | Minute | Hour {
    function Name(): (name: string)
      ensures 1 <= |name| <= 2
      ensures forall i :: 0 <= i < |name| ==> !StartsPiece(name[i])
    {
      match this
      case Nano => "ns"
      case MicroLetter => "us"
      case MicroSign => "\U{B5}s"
      case MicroMu => "\U{3BC}s"
      case Milli => "ms"
      case Second => "s"
      case Minute => "m"
      case Hour => "h"
    }

    /** Nanoseconds in one unit. */
    function Scale(): nat {
      match this
      case Nano => 1
      case MicroLetter => 1_000
      case MicroSign => 1_000
      case MicroMu => 1_000
      case Milli => 1_000_000
      case Second => 1_000_000_000
      case Minute => 60 * 1_000_000_000
      case Hour => 3600 * 1_000_000_000
    }
  }

  /** The order in which units are tried: longest name first. */
  const UNIT_ORDER: seq<Unit> :=
    [Nano, MicroLetter, MicroSign, MicroMu, Milli, Second, Minute, Hour]

  const INT64_MAX: int := 0x7FFF_FFFF_FFFF_FFFF
  const INT64_MIN: int := -0x8000_0000_0000_0000

  /** CPython 3.12 refuses to convert a longer run of digits with `int()`, raising a plain
    * ValueError rather than a GoDurationError. */
  const INT_DIGIT_LIMIT: nat := 4300

  /** A number starts with a digit or a dot; no unit name contains either. */
  predicate StartsPiece(c: char) {
    IsDigit(c) || c == '.'
  }

  /** The first unit in `units` whose name starts `s`. */
  function FirstMatch(s: string, units: seq<Unit>): Option<Unit> {
    if units == [] then None
    else if units[0].Name() <= s then Some(units[0])
    else FirstMatch(s, units[1..])
  }

  lemma {:induction false} FirstMatchMeaning(s: string, units: seq<Unit>, k: nat)
    requires k < |units| && units[k].Name() <= s
    requires forall j :: 0 <= j < k ==> !(units[j].Name() <= s)
    ensures FirstMatch(s, units) == Some(units[k])
  {
    if k == 0 {
    } else {
      FirstMatchMeaning(s, units[1..], k - 1);
    }
  }

  // ---------------------------------------------------------------- grammar

  /** Digits, with an optional dot and more digits. `frac` is None when there is no dot. */
  datatype Number = Number(whole: string, frac: Option<string>) {
    function FracDigits(): string {
      if frac.Some? then frac.value else ""
    }

    /** Both runs are digits, and there is at least one digit in all. */
    predicate WellFormed() {
      AllDigits(whole) && AllDigits(FracDigits()) && (whole != "" || FracDigits() != "")
    }

    function Text(): string {
      whole + (if frac.Some? then "." + frac.value else "")
    }

    /** Whether `int()` converts both digit runs. */
    predicate Convertible() {
      |whole| <= INT_DIGIT_LIMIT && |FracDigits()| <= INT_DIGIT_LIMIT
    }

    /** This many units of `scale` nanoseconds, the fraction's share rounded down. */
    function Times(scale: nat): nat
      requires WellFormed()
    {
      MulDiv(Value(whole), scale, 1) +
      (if FracDigits() == "" then 0 else MulDiv(Value(FracDigits()), scale, Pow10(|FracDigits()|)))
    }
  }

  /** a * b / c, rounded down. */
  function MulDiv(a: nat, b: nat, c: nat): nat
    requires c > 0
  {
    a * b / c
  }

  datatype Piece = Piece(number: Number, unit: Unit) {
    predicate WellFormed() { number.WellFormed() }

    predicate Convertible() { number.Convertible() }

    function Text(): string { number.Text() + unit.Name() }

    function Nanos(): nat
      requires WellFormed()
    {
      number.Times(unit.Scale())
    }
  }

  ghost predicate WellFormed(ps: seq<Piece>) {
    forall i :: 0 <= i < |ps| ==> ps[i].WellFormed()
  }

  ghost predicate Convertible(ps: seq<Piece>) {
    forall i :: 0 <= i < |ps| ==> ps[i].Convertible()
  }

  ghost function Text(ps: seq<Piece>): string {
    if ps == [] then "" else ps[0].Text() + Text(ps[1..])
  }

  ghost function Nanos(ps: seq<Piece>): nat
    requires WellFormed(ps)
  {
    if ps == [] then 0 else ps[0].Nanos() + Nanos(ps[1..])
  }

  ghost predicate IsSign(sign: string) {
    sign == "" || sign == "+" || sign == "-"
  }

  /** `s` is a sign followed by these pieces, at least one. */
  ghost predicate Spells(s: string, sign: string, ps: seq<Piece>) {
    IsSign(sign) && ps != [] && WellFormed(ps) && s == sign + Text(ps)
  }

  /** `s` is a sign followed by the unitless "0". */
  ghost predicate SpellsZero(s: string) {
    s == "0" || s == "+0" || s == "-0"
  }

  ghost function Signed(sign: string, n: int): int {
    if sign == "-" then -n else n
  }

  /** The declarative meaning: `s` is a duration of `n` nanoseconds. */
  ghost predicate Denotes(s: string, n: int) {
    || (SpellsZero(s) && n == 0)
    || (exists sign, ps :: Spells(s, sign, ps) && Convertible(ps)
                           && Nanos(ps) <= INT64_MAX && n == Signed(sign, Nanos(ps)))
  }

  // ---------------------------------------------------------------- the scanner

  datatype Error = InvalidDuration | UnknownUnit | MissingUnit | Overflow | IntDigitLimit

  /** What the number regex matches: both parts are optional, so it always matches. */
  function MatchNumber(s: string): (r: (Number, string))
    ensures AllDigits(r.0.whole) && AllDigits(r.0.FracDigits()) && |r.1| <= |s|
  {
    var n := DigitRun(s);
    var whole, s1 := s[..n], s[n..];
    if s1 != "" && s1[0] == '.' then
      var m := DigitRun(s1[1..]);
      (Number(whole, Some(s1[1..][..m])), s1[1 + m..])
    else
      (Number(whole, None), s1)
  }

  /** One turn of the scanner: a number, then a unit. */
  function ScanPiece(s: string): (r: Result<(Piece, string), Error>)
    ensures r.Ok? ==> r.value.0.WellFormed() && |r.value.1| < |s|
  {
    var (number, s1) := MatchNumber(s);
    if number.whole == "" && number.FracDigits() == "" then Err(InvalidDuration)
    else
      match FirstMatch(s1, UNIT_ORDER)
      case None => Err(if s1 == "" then MissingUnit else UnknownUnit)
      case Some(unit) =>
        FirstMatchStarts(s1, UNIT_ORDER);
        Ok((Piece(number, unit), s1[|unit.Name()|..]))
  }

  lemma MatchNumberText(s: string)
    ensures s == MatchNumber(s).0.Text() + MatchNumber(s).1
  {
    var n := DigitRun(s);
    assert s == s[..n] + s[n..];
  }

  /** What the scanner takes and what it leaves make up what it was given. */
  lemma ScanPieceText(s: string)
    ensures ScanPiece(s).Ok? ==> s == ScanPiece(s).value.0.Text() + ScanPiece(s).value.1
  {
    MatchNumberText(s);
    var (number, s1) := MatchNumber(s);
    FirstMatchStarts(s1, UNIT_ORDER);
    if ScanPiece(s).Ok? {
      var (p, rest) := ScanPiece(s).value;
      assert s1 == p.unit.Name() + rest;
      Associative(number.Text(), p.unit.Name(), rest);
    }
  }

  lemma {:induction false} FirstMatchStarts(s: string, units: seq<Unit>)
    ensures FirstMatch(s, units).Some? ==> FirstMatch(s, units).value.Name() <= s
  {
    if units == [] {
    } else {
      FirstMatchStarts(s, units[1..]);
    }
  }

  /** The loop of `parse_go_duration_ns`, as a function of the text left and the total so far. */
  function ScanAll(s: string, total: int): (r: Result<int, Error>)
    decreases |s|
  {
    if s == "" then Ok(total)
    else
      match ScanPiece(s)
      case Err(e) => Err(e)
      case Ok((p, rest)) =>
        if !p.Convertible() then Err(IntDigitLimit)
        else if Add(total, p) > INT64_MAX then Err(Overflow)
        else ScanAll(rest, Add(total, p))
  }

  function Add(total: int, p: Piece): int
    requires p.WellFormed()
  {
    total + p.Nanos()
  }

  lemma ScanAllTurn(s: string, total: int, p: Piece, rest: string, next: int)
    requires s != "" && ScanPiece(s) == Ok((p, rest)) && next == Add(total, p)
    ensures ScanAll(s, total) ==
            if !p.Convertible() then Err(IntDigitLimit)
            else if next > INT64_MAX then Err(Overflow)
            else ScanAll(rest, next)
  {}

  /** `parse_go_duration_ns`, as a function. */
  function Parse(s: string): Result<int, Error> {
    var signed := s != "" && (s[0] == '+' || s[0] == '-');
    var body := if signed then s[1..] else s;
    if body == "0" then Ok(0)
    else if body == "" then Err(InvalidDuration)
    else WithSign(signed && s[0] == '-', ScanAll(body, 0))
  }

  function WithSign(negative: bool, r: Result<int, Error>): Result<int, Error> {
    if r.Ok? && negative then Ok(-r.value) else r
  }

  /** The two additions the loop makes for one piece. */
  method AddNumber(total: nat, number: Number, scale: nat) returns (sum: nat)
    requires number.WellFormed()
    ensures sum == total + number.Times(scale)
  {
    sum := total + MulDiv(Value(number.whole), scale, 1);
    if number.FracDigits() != "" {
      sum := sum + MulDiv(Value(number.FracDigits()), scale, Pow10(|number.FracDigits()|));
    }
  }

  /** The source's loop: it shortens `rest` and adds to `total` piece by piece. */
  method ScanLoop(body: string) returns (r: Result<int, Error>)
    ensures r == ScanAll(body, 0)
    ensures r.Ok? ==> 0 <= r.value <= INT64_MAX
  {
    var rest := body;
    var total: nat := 0;
    ghost var goal := ScanAll(body, 0);
    while rest != ""
      invariant total <= INT64_MAX
      invariant ScanAll(rest, total) == goal
      decreases |rest|
    {
      ghost var start, before := rest, total;
      var (number, afterNumber) := MatchNumber(rest);
      if number.whole == "" && number.FracDigits() == "" {
        return Err(InvalidDuration);
      }
      rest := afterNumber;
      var unit := FirstMatch(rest, UNIT_ORDER);
      if unit.None? {
        return Err(if rest == "" then MissingUnit else UnknownUnit);
      }
      FirstMatchStarts(rest, UNIT_ORDER);
      rest := rest[|unit.value.Name()|..];
      ghost var p := Piece(number, unit.value);
      assert ScanPiece(start) == Ok((p, rest));

      if !number.Convertible() {
        return Err(IntDigitLimit);
      }
      total := AddNumber(total, number, unit.value.Scale());
      assert total == Add(before, p);
      if total > INT64_MAX {
        return Err(Overflow);
      }
      ScanAllTurn(start, before, p, rest, total);
    }
    return Ok(total);
  }

  /** `parse_go_duration_ns`. */
  method ParseGoDurationNs(s: string) returns (r: Result<int, Error>)
    ensures r == Parse(s)
  {
    var negative := false;
    var body := s;
    if body != "" && (body[0] == '+' || body[0] == '-') {
      negative := body[0] == '-';
      body := body[1..];
    }
    if body == "0" {
      return Ok(0);
    }
    if body == "" {
      return Err(InvalidDuration);
    }
    var scanned := ScanLoop(body);
    assert Parse(s) == WithSign(negative, scanned);
    if scanned.Err? {
      return Err(scanned.error);
    }
    var signedTotal := if negative then -scanned.value else scanned.value;
    // The range check that follows the loop in the source can never fire.
    assert INT64_MIN <= signedTotal <= INT64_MAX;
    r := Ok(signedTotal);
    assert r == WithSign(negative, scanned);
  }

  // ---------------------------------------------------------------- maximal munch

  /** The leading run of characters up to the next digit, dot or end. */
  ghost function UnitRun(s: string): nat
    ensures UnitRun(s) <= |s|
  {
    if s == "" || StartsPiece(s[0]) then 0 else 1 + UnitRun(s[1..])
  }

  lemma {:induction false} UnitRunOf(name: string, rest: string)
    requires forall i :: 0 <= i < |name| ==> !StartsPiece(name[i])
    requires rest == "" || StartsPiece(rest[0])
    ensures UnitRun(name + rest) == |name|
  {
    if name == "" {
      assert name + rest == rest;
    } else {
      assert (name + rest)[1..] == name[1..] + rest;
      UnitRunOf(name[1..], rest);
    }
  }

  lemma NotAPrefix(a: string, s: string, i: nat)
    requires i < |a| && (i >= |s| || a[i] != s[i])
    ensures !(a <= s)
  {}

  /** The unit scan takes the whole run: "ms" is never read as "m" with a stray "s". */
  lemma FirstMatchIsMaximal(unit: Unit, rest: string)
    requires rest == "" || StartsPiece(rest[0])
    ensures FirstMatch(unit.Name() + rest, UNIT_ORDER) == Some(unit)
    ensures UnitRun(unit.Name() + rest) == |unit.Name()|
  {
    var s := unit.Name() + rest;
    UnitRunOf(unit.Name(), rest);
    var k :=
      match unit
      case Nano => 0 case MicroLetter => 1 case MicroSign => 2 case MicroMu => 3
      case Milli => 4 case Second => 5 case Minute => 6 case Hour => 7;
    assert forall i :: 0 <= i < |unit.Name()| ==> s[i] == unit.Name()[i];
    assert |s| > |unit.Name()| ==> StartsPiece(s[|unit.Name()|]);
    forall j | 0 <= j < k
      ensures !(UNIT_ORDER[j].Name() <= s)
    {
      NotAPrefix(UNIT_ORDER[j].Name(), s, if unit == Minute && UNIT_ORDER[j] == Milli then 1 else 0);
    }
    FirstMatchMeaning(s, UNIT_ORDER, k);
  }

  lemma TextStart(ps: seq<Piece>)
    requires WellFormed(ps)
    ensures Text(ps) == "" || StartsPiece(Text(ps)[0])
    ensures ps != [] ==> Text(ps) != ""
  {}

  lemma Associative(a: string, b: string, c: string)
    ensures (a + b) + c == a + (b + c)
  {}

  lemma {:induction false} TextSplit(ps: seq<Piece>, k: nat)
    requires k <= |ps|
    ensures Text(ps) == Text(ps[..k]) + Text(ps[k..])
  {
    if k == 0 {
      assert ps[..k] == [] && ps[k..] == ps;
    } else {
      TextSplit(ps[1..], k - 1);
      assert ps[..k][1..] == ps[1..][..k - 1];
      assert ps[1..][k - 1..] == ps[k..];
      Associative(ps[0].Text(), Text(ps[..k][1..]), Text(ps[k..]));
    }
  }

  /** In every spelled text, each unit is the whole run of characters up to the next digit, dot
    * or end. */
  lemma EveryUnitIsAWholeRun(ps: seq<Piece>, k: nat)
    requires WellFormed(ps) && k < |ps|
    ensures var rest := ps[k].unit.Name() + Text(ps[k + 1..]);
            && Text(ps) == Text(ps[..k]) + ps[k].number.Text() + rest
            && UnitRun(rest) == |ps[k].unit.Name()|
            && FirstMatch(rest, UNIT_ORDER) == Some(ps[k].unit)
  {
    var before, number, name, after :=
      Text(ps[..k]), ps[k].number.Text(), ps[k].unit.Name(), Text(ps[k + 1..]);
    TextSplit(ps, k);
    assert ps[k..][1..] == ps[k + 1..];
    Associative(number, name, after);
    Associative(before, number, name + after);
    TextStart(ps[k + 1..]);
    FirstMatchIsMaximal(ps[k].unit, after);
  }

  // ---------------------------------------------------------------- the scanner and the grammar

  lemma MatchNumberOf(number: Number, tail: string)
    requires AllDigits(number.whole) && AllDigits(number.FracDigits())
    requires tail != "" && !StartsPiece(tail[0])
    ensures MatchNumber(number.Text() + tail) == (number, tail)
  {
    var s := number.Text() + tail;
    var after := if number.frac.Some? then "." + number.frac.value + tail else tail;
    assert s == number.whole + after;
    DigitRunOf(number.whole, after);
    assert s[|number.whole|..] == after;
    if number.frac.Some? {
      assert after[1..] == number.frac.value + tail;
      DigitRunOf(number.frac.value, tail);
    }
  }

  /** The scanner reads a well-formed piece back, whatever piece follows it. */
  lemma ScanPieceOf(p: Piece, rest: string)
    requires p.WellFormed()
    requires rest == "" || StartsPiece(rest[0])
    ensures ScanPiece(p.Text() + rest) == Ok((p, rest))
  {
    var tail := p.unit.Name() + rest;
    assert p.Text() + rest == p.number.Text() + tail;
    MatchNumberOf(p.number, tail);
    FirstMatchIsMaximal(p.unit, rest);
    assert tail[|p.unit.Name()|..] == rest;
  }

  /** A text has at most one decomposition into pieces. */
  lemma {:induction false} UniqueDecomposition(ps: seq<Piece>, qs: seq<Piece>)
    requires WellFormed(ps) && WellFormed(qs) && Text(ps) == Text(qs)
    ensures ps == qs
  {
    TextStart(ps);
    TextStart(qs);
    if ps == [] {
    } else {
      TextStart(ps[1..]);
      TextStart(qs[1..]);
      ScanPieceOf(ps[0], Text(ps[1..]));
      ScanPieceOf(qs[0], Text(qs[1..]));
      UniqueDecomposition(ps[1..], qs[1..]);
      assert ps == [ps[0]] + ps[1..] && qs == [qs[0]] + qs[1..];
    }
  }

  /** A loop turn on a well-formed piece reads that piece. */
  lemma PieceTurn(p: Piece, rest: string, total: int, next: int)
    requires p.WellFormed() && (rest == "" || StartsPiece(rest[0])) && next == Add(total, p)
    ensures ScanAll(p.Text() + rest, total) ==
            if !p.Convertible() then Err(IntDigitLimit)
            else if next > INT64_MAX then Err(Overflow)
            else ScanAll(rest, next)
  {
    ScanPieceOf(p, rest);
    ScanAllTurn(p.Text() + rest, total, p, rest, next);
  }

  /** The loop's first turn on spelled text reads the first piece. */
  lemma FirstTurn(ps: seq<Piece>, total: int, next: int)
    requires WellFormed(ps) && ps != [] && next == Add(total, ps[0])
    ensures ScanAll(Text(ps), total) ==
            if !ps[0].Convertible() then Err(IntDigitLimit)
            else if next > INT64_MAX then Err(Overflow)
            else ScanAll(Text(ps[1..]), next)
  {
    TextStart(ps[1..]);
    PieceTurn(ps[0], Text(ps[1..]), total, next);
  }

  /** On spelled text the early exit is the same as one check of the final sum. */
  lemma {:induction false} ScanAllOf(ps: seq<Piece>, total: int, sum: int)
    requires WellFormed(ps) && Convertible(ps) && 0 <= total <= INT64_MAX
    requires sum == total + Nanos(ps)
    ensures ScanAll(Text(ps), total) == Checked(sum)
  {
    if ps == [] {
    } else {
      var next := Add(total, ps[0]);
      FirstTurn(ps, total, next);
      assert sum == next + Nanos(ps[1..]);
      if next <= INT64_MAX {
        ScanAllOf(ps[1..], next, sum);
      }
    }
  }

  /** One range check, made on a final sum. */
  ghost function Checked(sum: int): Result<int, Error> {
    if sum <= INT64_MAX then Ok(sum) else Err(Overflow)
  }

  /** A digit run too long for `int()` is always refused. */
  lemma {:induction false} ScanAllOfUnconvertible(ps: seq<Piece>, total: int, k: nat)
    requires WellFormed(ps) && k < |ps| && !ps[k].Convertible()
    ensures ScanAll(Text(ps), total).Err?
  {
    var next := Add(total, ps[0]);
    FirstTurn(ps, total, next);
    if k == 0 {
    } else {
      ScanAllOfUnconvertible(ps[1..], next, k - 1);
    }
  }

  /** Within range it is refused for just that. */
  lemma {:induction false} ScanAllOfLongRun(ps: seq<Piece>, total: int, sum: int, k: nat)
    requires WellFormed(ps) && k < |ps| && !ps[k].Convertible()
    requires sum == total + Nanos(ps) <= INT64_MAX
    ensures ScanAll(Text(ps), total) == Err(IntDigitLimit)
  {
    var next := Add(total, ps[0]);
    FirstTurn(ps, total, next);
    if k == 0 {
    } else {
      ScanAllOfLongRun(ps[1..], next, sum, k - 1);
    }
  }

  /** Whatever the scanner accepts is spelled by convertible pieces. */
  lemma {:induction false} ScanAllSound(s: string, total: int) returns (ps: seq<Piece>)
    requires ScanAll(s, total).Ok?
    ensures WellFormed(ps) && Convertible(ps) && Text(ps) == s
    decreases |s|
  {
    if s == "" {
      ps := [];
    } else {
      var (p, rest) := ScanPiece(s).value;
      ScanPieceText(s);
      var next := Add(total, p);
      ScanAllTurn(s, total, p, rest, next);
      var tail := ScanAllSound(rest, next);
      ps := [p] + tail;
      assert ps[1..] == tail;
    }
  }

  lemma ParseSplit(s: string, sign: string, body: string)
    requires IsSign(sign) && s == sign + body
    requires body != "" && body != "0" && StartsPiece(body[0])
    ensures Parse(s) == WithSign(sign == "-", ScanAll(body, 0))
  {
    if sign == "" {
      assert s == body;
    } else {
      assert s[0] == sign[0] && s[1..] == body;
    }
  }

  /** What the parser returns on any spelled text. */
  lemma ParseOfSpelled(s: string, sign: string, ps: seq<Piece>)
    requires Spells(s, sign, ps)
    ensures Convertible(ps) ==> Parse(s) == WithSign(sign == "-", Checked(Nanos(ps)))
    ensures !Convertible(ps) ==> Parse(s).Err?
    ensures !Convertible(ps) && Nanos(ps) <= INT64_MAX ==> Parse(s) == Err(IntDigitLimit)
  {
    TextStart(ps);
    ZeroHasNoUnit(ps);
    ParseSplit(s, sign, Text(ps));
    if Convertible(ps) {
      ScanAllOf(ps, 0, Nanos(ps));
    } else {
      var k :| 0 <= k < |ps| && !ps[k].Convertible();
      ScanAllOfUnconvertible(ps, 0, k);
      if Nanos(ps) <= INT64_MAX {
        ScanAllOfLongRun(ps, 0, Nanos(ps), k);
      }
    }
  }

  lemma ZeroHasNoUnit(ps: seq<Piece>)
    requires WellFormed(ps) && ps != []
    ensures Text(ps) != "0"
  {
    var name := ps[0].unit.Name();
    var k := |ps[0].number.Text()|;
    assert Text(ps)[k] == name[0];
  }

  lemma DenotedIsParsed(s: string, n: int)
    requires Denotes(s, n)
    ensures Parse(s) == Ok(n)
  {
    if !SpellsZero(s) || n != 0 {
      var sign, ps :| Spells(s, sign, ps) && Convertible(ps)
                      && Nanos(ps) <= INT64_MAX && n == Signed(sign, Nanos(ps));
      ParseOfSpelled(s, sign, ps);
      InRange(sign, Nanos(ps), n);
    }
  }

  lemma InRange(sign: string, sum: int, n: int)
    requires 0 <= sum
    ensures WithSign(sign == "-", Checked(sum)) == Ok(n) <==> sum <= INT64_MAX && n == Signed(sign, sum)
  {}

  /** The sign and the body that a text past the special cases is scanned as. */
  lemma SignAndBody(s: string) returns (sign: string, body: string)
    requires !SpellsZero(s) && Parse(s) != Err(InvalidDuration)
    ensures IsSign(sign) && s == sign + body && Parse(s) == WithSign(sign == "-", ScanAll(body, 0))
  {
    var signed := s[0] == '+' || s[0] == '-';
    sign := if signed then s[..1] else "";
    body := if signed then s[1..] else s;
    assert s == sign + body;
    assert body != "0" && body != "";
  }

  lemma ParsedIsDenoted(s: string, n: int)
    requires Parse(s) == Ok(n)
    ensures Denotes(s, n)
  {
    if !SpellsZero(s) {
      var sign, body := SignAndBody(s);
      var ps := ScanAllSound(body, 0);
      ScannedIsSpelled(s, sign, body, ps);
      ParseOfSpelled(s, sign, ps);
      InRange(sign, Nanos(ps), n);
    }
  }

  lemma ScannedIsSpelled(s: string, sign: string, body: string, ps: seq<Piece>)
    requires IsSign(sign) && s == sign + body && WellFormed(ps) && Text(ps) == body && body != ""
    ensures Spells(s, sign, ps)
  {}

  /** The parser returns `n` exactly when the text denotes `n` nanoseconds. */
  lemma ParseMeaning(s: string, n: int)
    ensures Parse(s) == Ok(n) <==> Denotes(s, n)
  {
    if Denotes(s, n) {
      DenotedIsParsed(s, n);
    }
    if Parse(s) == Ok(n) {
      ParsedIsDenoted(s, n);
    }
  }

  // ---------------------------------------------------------------- where the parser and the grammar part

  /** A well-formed text within range can still fail, and not with a GoDurationError: 4301 zeros and
    * an "s" denote zero seconds, but `int()` refuses the digit run with a plain ValueError. */
  lemma LongZeroIsRefused()
    ensures var zeros := seq(INT_DIGIT_LIMIT + 1, _ => '0');
            var ps := [Piece(Number(zeros, None), Second)];
            && Spells(zeros + "s", "", ps) && Nanos(ps) == 0 && Parse(zeros + "s") == Err(IntDigitLimit)
  {
    var zeros := seq(INT_DIGIT_LIMIT + 1, _ => '0');
    var ps := [Piece(Number(zeros, None), Second)];
    assert Text(ps) == zeros + "s";
    assert Spells(zeros + "s", "", ps);
    ZerosAreZero(zeros);
    ParseOfSpelled(zeros + "s", "", ps);
    assert !ps[0].Convertible();
  }

  lemma {:induction false} ZerosAreZero(zeros: string)
    requires forall i :: 0 <= i < |zeros| ==> zeros[i] == '0'
    ensures Value(zeros) == 0
  {
    if zeros == "" {
    } else {
      ZerosAreZero(zeros[..|zeros| - 1]);
    }
  }

  /** A spelled text in range is either parsed or, exactly when some digit run is too long for
    * `int()`, fails with the plain ValueError. */
  lemma SpelledFailsIffUnconvertible(s: string, sign: string, ps: seq<Piece>)
    requires Spells(s, sign, ps) && Nanos(ps) <= INT64_MAX
    ensures Parse(s).Ok? <==> Convertible(ps)
    ensures Parse(s) == Err(IntDigitLimit) <==> !Convertible(ps)
  {
    ParseOfSpelled(s, sign, ps);
  }

  /** `body` is convertible pieces within range, then an unconvertible one, then anything. */
  ghost predicate Strands(body: string, ps: seq<Piece>, p: Piece, rest: string) {
    StrandsFrom(body, 0, ps, p, rest)
  }

  /** The same, from a total already reached. */
  ghost predicate StrandsFrom(s: string, total: int, ps: seq<Piece>, p: Piece, rest: string) {
    && WellFormed(ps) && Convertible(ps) && total + Nanos(ps) <= INT64_MAX
    && p.WellFormed() && !p.Convertible()
    && s == Text(ps) + (p.Text() + rest)
  }

  /** Some digit run that the loop reaches is too long for `int()`. */
  ghost predicate ReachesLongRun(s: string) {
    exists sign, body :: SignThen(s, sign, body) && Stranded(body)
  }

  ghost predicate SignThen(s: string, sign: string, body: string) {
    IsSign(sign) && s == sign + body
  }

  ghost predicate Stranded(body: string) {
    exists ps, p, rest :: Strands(body, ps, p, rest)
  }

  lemma {:induction false} SomeMatch(s: string, units: seq<Unit>, k: nat)
    requires k < |units| && units[k].Name() <= s
    ensures FirstMatch(s, units).Some?
  {
    if k == 0 {
    } else {
      SomeMatch(s, units[1..], k - 1);
    }
  }

  /** Whatever follows a well-formed piece, the scanner reads its number. */
  lemma ScanNumberOf(p: Piece, rest: string)
    requires p.WellFormed()
    ensures ScanPiece(p.Text() + rest).Ok? && ScanPiece(p.Text() + rest).value.0.number == p.number
  {
    var tail := p.unit.Name() + rest;
    assert p.Text() + rest == p.number.Text() + tail;
    MatchNumberOf(p.number, tail);
    var k :=
      match p.unit
      case Nano => 0 case MicroLetter => 1 case MicroSign => 2 case MicroMu => 3
      case Milli => 4 case Second => 5 case Minute => 6 case Hour => 7;
    SomeMatch(tail, UNIT_ORDER, k);
  }

  lemma PieceStart(p: Piece, rest: string)
    requires p.WellFormed()
    ensures p.Text() + rest != "" && StartsPiece((p.Text() + rest)[0])
  {}

  lemma {:induction false} ScanAllPrefix(ps: seq<Piece>, tail: string, total: int, sum: int)
    requires WellFormed(ps) && Convertible(ps) && 0 <= total
    requires sum == total + Nanos(ps) <= INT64_MAX
    requires tail == "" || StartsPiece(tail[0])
    ensures ScanAll(Text(ps) + tail, total) == ScanAll(tail, sum)
  {
    if ps == [] {
      assert Text(ps) + tail == tail;
    } else {
      var next, after := Add(total, ps[0]), Text(ps[1..]) + tail;
      TextStart(ps[1..]);
      Associative(ps[0].Text(), Text(ps[1..]), tail);
      assert after == "" || after[0] == if Text(ps[1..]) == "" then tail[0] else Text(ps[1..])[0];
      PieceTurn(ps[0], after, total, next);
      ScanAllPrefix(ps[1..], tail, next, sum);
    }
  }

  lemma StrandedStops(body: string, ps: seq<Piece>, p: Piece, rest: string)
    requires Strands(body, ps, p, rest)
    ensures ScanAll(body, 0) == Err(IntDigitLimit)
    ensures body != "" && body != "0" && StartsPiece(body[0])
  {
    var tail := p.Text() + rest;
    PieceStart(p, rest);
    TextStart(ps);
    ScanAllPrefix(ps, tail, 0, Nanos(ps));
    ScanNumberOf(p, rest);
    var (q, left) := ScanPiece(tail).value;
    ScanAllTurn(tail, Nanos(ps), q, left, Add(Nanos(ps), q));
    assert |tail| > 1;
  }

  lemma {:induction false} StoppedIsStranded(s: string, total: int) returns (ps: seq<Piece>, p: Piece, rest: string)
    requires ScanAll(s, total) == Err(IntDigitLimit) && 0 <= total <= INT64_MAX
    ensures StrandsFrom(s, total, ps, p, rest)
    decreases |s|
  {
    var (q, left) := ScanPiece(s).value;
    ScanPieceText(s);
    var next := Add(total, q);
    ScanAllTurn(s, total, q, left, next);
    if !q.Convertible() {
      ps, p, rest := [], q, left;
      StrandsAtOnce(s, total, p, rest);
    } else {
      var tail;
      tail, p, rest := StoppedIsStranded(left, next);
      ps := [q] + tail;
      StrandsLater(s, total, q, left, next, tail, p, rest);
    }
  }

  lemma StrandsAtOnce(s: string, total: int, p: Piece, rest: string)
    requires total <= INT64_MAX && p.WellFormed() && !p.Convertible() && s == p.Text() + rest
    ensures StrandsFrom(s, total, [], p, rest)
  {
    assert Text([]) + s == s;
  }

  lemma StrandsLater(s: string, total: int, q: Piece, left: string, next: int, tail: seq<Piece>, p: Piece, rest: string)
    requires q.WellFormed() && q.Convertible() && s == q.Text() + left && next == Add(total, q)
    requires StrandsFrom(left, next, tail, p, rest)
    ensures StrandsFrom(s, total, [q] + tail, p, rest)
  {
    assert ([q] + tail)[1..] == tail;
    Associative(q.Text(), Text(tail), p.Text() + rest);
  }

  lemma FailedReachesLongRun(s: string)
    requires Parse(s) == Err(IntDigitLimit)
    ensures ReachesLongRun(s)
  {
    var sign, body := SignAndBody(s);
    var ps, p, rest := StoppedIsStranded(body, 0);
    assert Strands(body, ps, p, rest);
    assert SignThen(s, sign, body) && Stranded(body);
  }

  lemma LongRunFails(s: string)
    requires ReachesLongRun(s)
    ensures Parse(s) == Err(IntDigitLimit)
  {
    var sign, body :| SignThen(s, sign, body) && Stranded(body);
    var ps, p, rest :| Strands(body, ps, p, rest);
    StrandedStops(body, ps, p, rest);
    ParseSplit(s, sign, body);
  }

  /** The plain ValueError, exactly: the parser fails with it iff the text is a sign, convertible
    * pieces summing to at most 2^63-1, then a piece with a digit run too long for `int()`, then
    * anything at all. Every other refusal is a GoDurationError. */
  lemma IntDigitLimitIff(s: string)
    ensures Parse(s) == Err(IntDigitLimit) <==> ReachesLongRun(s)
  {
    if Parse(s) == Err(IntDigitLimit) {
      FailedReachesLongRun(s);
    } else if ReachesLongRun(s) {
      LongRunFails(s);
    }
  }

  // ---------------------------------------------------------------- microseconds

  /** `parse_go_duration`: nanoseconds truncated toward zero to whole microseconds. */
  function TruncateToMicros(ns: int): int {
    var us := (if ns < 0 then -ns else ns) / 1000;
    if ns < 0 then -us else us
  }

  function ParseMicros(s: string): Result<int, Error> {
    match Parse(s)
    case Err(e) => Err(e)
    case Ok(ns) => Ok(TruncateToMicros(ns))
  }

  /** Truncation keeps the sign, never grows the magnitude and loses less than a microsecond; the
    * result is positive exactly from one microsecond up. */
  lemma TruncationTowardZero(ns: int)
    ensures var us := TruncateToMicros(ns);
            && (ns >= 0 ==> 1000 * us <= ns < 1000 * us + 1000)
            && (ns <= 0 ==> 1000 * us - 1000 < ns <= 1000 * us)
            && (us > 0 <==> ns >= 1000)
  {}
}
