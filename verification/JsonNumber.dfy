/** The two integer readers of the JSON parser, with the 64-bit arithmetic they run on. */
module JsonNumber {
  import opened Bytes

  const MUL_LIMIT: nat := 922337203685477580

  /** The decimal loop on uint64_t from d[i..], having reached u. */
  function UintFrom(d: bytes, i: nat, u: nat): (r: Option<nat>)
    requires i <= |d|
    decreases |d| - i
  {
    if i == |d| then Some(u)
    else if !IsDigit(d[i]) then None
    else if u > MUL_LIMIT then None
    else UintFrom(d, i + 1, (u * 10 + (d[i] - ZERO)) % U64)
  }

  predicate IsNegative(t: bytes) {
    |t| > 0 && t[0] == MINUS
  }

  /** The digits behind an optional minus sign. */
  function Magnitude(t: bytes): bytes {
    if IsNegative(t) then t[1..] else t
  }

  /** The signed decimal reader; the range check of a negative value is done on u - 1 in uint64_t. */
  function IntValue(t: bytes): Option<int> {
    var d := Magnitude(t);
    if d == [] then None
    else
      match UintFrom(d, 0, 0)
      case None => None
      case Some(u) =>
        if IsNegative(t) then
          if (u + U64 - 1) % U64 > I64_MAX then None else Some(0 - u)
        else if u > I64_MAX then None
        else Some(u)
  }

  /** The signed value a digit string with an optional minus sign denotes. */
  function Denoted(t: bytes): int
    requires AllDigits(Magnitude(t))
  {
    if IsNegative(t) then 0 - DecimalValue(Magnitude(t)) else DecimalValue(Magnitude(t))
  }

  /**
   * The loop is exact and never wraps: it yields the denoted value, or stops because ten times the value
   * of a proper prefix already exceeds the signed range.
   */
  lemma {:induction false} UintExact(d: bytes, i: nat)
    requires i <= |d| && AllDigits(d) && DecimalValue(d[..i]) <= 10 * MUL_LIMIT + 9
    ensures var r := UintFrom(d, i, DecimalValue(d[..i]));
            if r.Some? then r.value == DecimalValue(d) <= 10 * MUL_LIMIT + 9
            else DecimalValue(d) > 10 * MUL_LIMIT + 9
    decreases |d| - i
  {
    DecimalGrows(d, i);
    if i == |d| {
      assert d[..i] == d;
    } else if DecimalValue(d[..i]) <= MUL_LIMIT {
      NoWrap(DecimalValue(d[..i]), d[i] - ZERO);
      hide DecimalValue;
      UintExact(d, i + 1);
    }
  }

  lemma NoWrap(u: nat, digit: nat)
    requires u <= MUL_LIMIT && digit <= 9
    ensures (u * 10 + digit) % U64 == u * 10 + digit <= 10 * MUL_LIMIT + 9
  {
  }

  lemma {:induction false} UintNeedsDigits(d: bytes, i: nat, u: nat)
    requires i <= |d| && UintFrom(d, i, u).Some?
    ensures forall k :: i <= k < |d| ==> IsDigit(d[k])
    decreases |d| - i
  {
    if i < |d| {
      UintNeedsDigits(d, i + 1, (u * 10 + (d[i] - ZERO)) % U64);
    }
  }

  /** Decimal texts accepted by a signed 64-bit reader, without "-0". */
  ghost predicate InRange(t: bytes) {
    && Magnitude(t) != [] && AllDigits(Magnitude(t))
    && -(I64_MAX + 1) <= Denoted(t) <= I64_MAX
    && (IsNegative(t) ==> Denoted(t) != 0)
  }

  /** The reader accepts exactly the texts with a value in [-2^63, 2^63 - 1], minus zero excepted, and returns it. */
  lemma IntExact(t: bytes)
    ensures IntValue(t).Some? <==> InRange(t)
    ensures IntValue(t).Some? ==> IntValue(t).value == Denoted(t)
  {
    var d := Magnitude(t);
    if d != [] {
      if AllDigits(d) {
        assert d[..0] == [];
        UintExact(d, 0);
      } else if UintFrom(d, 0, 0).Some? {
        UintNeedsDigits(d, 0, 0);
      }
    }
  }

  /** Zero with a minus sign is refused, however it is written; a negative number may carry leading zeros. */
  lemma MinusZero()
    ensures IntValue([MINUS, ZERO]).None?
    ensures IntValue([MINUS, ZERO, ZERO + 5]) == Some(-5)
  {
    IntExact([MINUS, ZERO]);
    IntExact([MINUS, ZERO, ZERO + 5]);
    assert Magnitude([MINUS, ZERO]) == [ZERO] && DecimalValue([ZERO]) == 0;
    assert Magnitude([MINUS, ZERO, ZERO + 5]) == [ZERO, ZERO + 5];
    assert [ZERO, ZERO + 5][..1] == [ZERO];
    assert DecimalValue([ZERO, ZERO + 5]) == 5;
  }

  // ---------------------------------------------------------------------------------------------
  // Hexadecimal
  // ---------------------------------------------------------------------------------------------

  function HexDigit(b: byte): Option<nat> {
    if IsDigit(b) then Some(b - ZERO)
    else if 97 <= b <= 102 then Some(10 + (b - 97))
    else if 65 <= b <= 70 then Some(10 + (b - 65))
    else None
  }

  /** The shift-and-add loop on uint64_t from d[i..]. */
  function HexFrom(d: bytes, i: nat, u: nat): Option<nat>
    requires i <= |d|
    decreases |d| - i
  {
    if i == |d| then Some(u)
    else if HexDigit(d[i]).None? then None
    else HexFrom(d, i + 1, (u * 16 + HexDigit(d[i]).value) % U64)
  }

  /** The cast of uint64_t to int64_t. */
  function Signed(u: nat): int
    requires u < U64
  {
    if u <= I64_MAX then u else u - U64
  }

  predicate AllHex(d: bytes) {
    forall i :: 0 <= i < |d| ==> HexDigit(d[i]).Some?
  }

  function HexNumber(d: bytes): nat
    requires AllHex(d)
  {
    if d == [] then 0 else HexNumber(d[..|d| - 1]) * 16 + HexDigit(d[|d| - 1]).value
  }

  function Pow16(n: nat): nat {
    if n == 0 then 1 else 16 * Pow16(n - 1)
  }

  lemma {:induction false} HexSmall(d: bytes)
    requires AllHex(d)
    ensures HexNumber(d) < Pow16(|d|)
  {
    if d != [] {
      HexSmall(d[..|d| - 1]);
    }
  }

  lemma Pow16At16()
    ensures Pow16(16) == U64
  {
    assert Pow16(4) == 0x1_0000;
    assert Pow16(8) == 0x1_0000_0000;
    assert Pow16(12) == 0x1_0000_0000_0000;
  }

  lemma {:induction false} Pow16Grows(m: nat, n: nat)
    requires m <= n
    ensures Pow16(m) <= Pow16(n)
    decreases n
  {
    if m < n {
      Pow16Grows(m, n - 1);
    }
  }

  lemma HexFits(d: bytes)
    requires |d| <= 16 && AllHex(d)
    ensures HexNumber(d) < U64
  {
    HexSmall(d);
    Pow16Grows(|d|, 16);
    Pow16At16();
  }

  lemma HexStep(d: bytes, i: nat)
    requires i < |d| && AllHex(d[..i]) && HexDigit(d[i]).Some?
    ensures AllHex(d[..i + 1]) && HexNumber(d[..i + 1]) == HexNumber(d[..i]) * 16 + HexDigit(d[i]).value
  {
    hide HexDigit;
    var e := d[..i + 1];
    assert e[..i] == d[..i];
    forall k | 0 <= k < |e|
      ensures HexDigit(e[k]).Some?
    {
      if k < i {
        assert e[k] == d[..i][k];
      }
    }
  }

  /** Up to 16 digits the loop never wraps and gives the number. */
  lemma {:induction false} HexExact(d: bytes, i: nat)
    requires i <= |d| <= 16
    requires AllHex(d[..i])
    ensures var r := HexFrom(d, i, HexNumber(d[..i]));
            (r.Some? <==> AllHex(d)) && (r.Some? ==> r.value == HexNumber(d) < U64)
    decreases |d| - i
  {
    hide HexNumber, HexDigit;
    if i == |d| {
      assert d[..i] == d;
      HexFits(d);
    } else if HexDigit(d[i]).Some? {
      HexStep(d, i);
      HexFits(d[..i + 1]);
      HexExact(d, i + 1);
    }
  }
}
