/** Bytes, the ASCII codes the client looks for, and decimal numerals. */
module Bytes {

  type byte = b: int | 0 <= b < 256
  type bytes = seq<byte>

  datatype Option<+T> = None | Some(value: T)

  const NUL: byte := 0
  const TAB: byte := 9
  const LF: byte := 10
  const CR: byte := 13
  const SP: byte := 32
  const DQUOTE: byte := 34
  const PLUS: byte := 43
  const SQUOTE: byte := 39
  const COMMA: byte := 44
  const MINUS: byte := 45
  const DOT: byte := 46
  const SLASH: byte := 47
  const ZERO: byte := 48
  const NINE: byte := 57
  const COLON: byte := 58
  const LBRACKET: byte := 91
  const BACKSLASH: byte := 92
  const RBRACKET: byte := 93
  const LBRACE: byte := 123
  const RBRACE: byte := 125

  const CRLF: bytes := [CR, LF]

  predicate IsNul(b: byte) { b == NUL }

  predicate IsQuote(b: byte) { b == SQUOTE || b == DQUOTE }

  predicate IsEol(b: byte) { b == CR || b == LF }

  /** The text does not break a line. */
  predicate NoEol(t: bytes) {
    forall i :: 0 <= i < |t| ==> !IsEol(t[i])
  }

  /** The largest value of `int64_t`, which `ngx_int_t` is, and the number of values of `uint64_t`. */
  const I64_MAX: nat := 9223372036854775807
  const U64: nat := 0x1_0000_0000_0000_0000

  function Lower(b: byte): byte {
    if 65 <= b <= 90 then b + 32 else b
  }

  /** Equality up to ASCII letter case, as ngx_strncasecmp decides it for equal lengths. */
  predicate SameFold(s: bytes, t: bytes) {
    |s| == |t| && forall i :: 0 <= i < |s| ==> Lower(s[i]) == Lower(t[i])
  }

  predicate IsDigit(b: byte) {
    ZERO <= b <= NINE
  }

  predicate AllDigits(t: bytes) {
    forall i :: 0 <= i < |t| ==> IsDigit(t[i])
  }

  /** The number a digit string denotes. */
  function DecimalValue(t: bytes): nat
    requires AllDigits(t)
  {
    if |t| == 0 then 0 else DecimalValue(t[..|t| - 1]) * 10 + (t[|t| - 1] - ZERO)
  }

  function Pow10(k: nat): nat {
    if k == 0 then 1 else 10 * Pow10(k - 1)
  }

  lemma {:induction false} DecimalGrows(t: bytes, i: nat)
    requires i <= |t| && AllDigits(t)
    ensures DecimalValue(t[..i]) <= DecimalValue(t)
    ensures i < |t| ==> 10 * DecimalValue(t[..i]) + (t[i] - ZERO) == DecimalValue(t[..i + 1]) <= DecimalValue(t)
    decreases |t|
  {
    if i == |t| {
      assert t[..i] == t;
    } else {
      assert t[..i + 1][..i] == t[..i];
      var u := t[..|t| - 1];
      DecimalGrows(u, i);
      assert u[..i] == t[..i];
      if i < |u| {
        assert u[..i + 1] == t[..i + 1];
      } else {
        assert t[..i + 1] == t;
      }
    }
  }

  /** The shortest numeral of n, as a `%ui` or the digit loop of the debug printer writes it. */
  function Decimal(n: nat): (t: bytes)
    ensures |t| > 0 && AllDigits(t)
    ensures DecimalValue(t) == n
    ensures n > 0 ==> t[0] != ZERO
    ensures n == 0 ==> t == [ZERO]
  {
    if n < 10 then
      assert [ZERO + n][..0] == [];
      [ZERO + n]
    else
      var d := Decimal(n / 10);
      var t := d + [ZERO + n % 10];
      assert t[..|t| - 1] == d;
      t
  }

  /** Index of the first byte at or after p on which `stop` holds, |s| if there is none. */
  function Scan(s: bytes, p: nat, stop: byte -> bool): (r: nat)
    requires p <= |s|
    ensures p <= r <= |s|
    ensures forall i :: p <= i < r ==> !stop(s[i])
    ensures r < |s| ==> stop(s[r])
    decreases |s| - p
  {
    if p == |s| || stop(s[p]) then p else Scan(s, p + 1, stop)
  }

  /** A scan is settled by any index with the two properties of its result. */
  lemma ScanIs(s: bytes, p: nat, stop: byte -> bool, r: nat)
    requires p <= r <= |s|
    requires forall i :: p <= i < r ==> !stop(s[i])
    requires r < |s| ==> stop(s[r])
    ensures Scan(s, p, stop) == r
  {
  }

  /** A scan that stops inside s stops at the same place when s is extended. */
  lemma ScanStable(s: bytes, t: bytes, p: nat, stop: byte -> bool)
    requires p <= |s|
    requires Scan(s, p, stop) < |s|
    ensures Scan(s + t, p, stop) == Scan(s, p, stop)
  {
    var r := Scan(s, p, stop);
    assert forall i :: p <= i < r ==> (s + t)[i] == s[i];
    ScanIs(s + t, p, stop, r);
  }

  /** The text t stands in s at p. */
  predicate At(s: bytes, p: nat, t: bytes) {
    p + |t| <= |s| && s[p..p + |t|] == t
  }

  lemma AtSplit(s: bytes, p: nat, t: bytes, u: bytes)
    ensures At(s, p, t + u) <==> At(s, p, t) && At(s, p + |t|, u)
  {
    if p + |t| + |u| <= |s| {
      var w := s[p..p + |t| + |u|];
      assert w == s[p..p + |t|] + s[p + |t|..p + |t| + |u|];
      if At(s, p, t + u) {
        assert w[..|t|] == t && w[|t|..] == u;
        assert s[p..p + |t|] == w[..|t|];
        assert s[p + |t|..p + |t| + |u|] == w[|t|..];
      }
    }
  }

  lemma AtByte(s: bytes, p: nat, b: byte)
    ensures At(s, p, [b]) <==> p < |s| && s[p] == b
  {
    if p < |s| {
      assert s[p..p + 1] == [s[p]];
    }
  }

  lemma AtSplit3(s: bytes, p: nat, t: bytes, u: bytes, w: bytes)
    requires At(s, p, t + u + w)
    ensures At(s, p, t) && At(s, p + |t|, u) && At(s, p + |t| + |u|, w)
  {
    hide At;
    AtSplit(s, p, t + u, w);
    AtSplit(s, p, t, u);
  }

  lemma AtIndex(s: bytes, p: nat, t: bytes, i: nat)
    requires At(s, p, t) && i < |t|
    ensures p + i < |s| && s[p + i] == t[i]
  {
    assert s[p..p + |t|][i] == s[p + i];
  }

  /** n is base, 2 base, 4 base, ... */
  predicate Doubling(base: nat, n: nat)
    requires base > 0
  {
    n == base || (n > base && n % 2 == 0 && Doubling(base, n / 2))
  }

  /** Between two doublings of the same base there is a factor of two. */
  lemma {:induction false} DoublingGap(base: nat, n: nat, m: nat)
    requires base > 0 && Doubling(base, n) && Doubling(base, m) && n < m
    ensures 2 * n <= m && Doubling(base, 2 * n)
    decreases n
  {
    assert (2 * n) / 2 == n;
    if n != base {
      DoublingGap(base, n / 2, m / 2);
    } else {
      assert m / 2 >= base by { DoublingAtLeast(base, m / 2); }
    }
  }

  lemma {:induction false} DoublingAtLeast(base: nat, n: nat)
    requires base > 0 && Doubling(base, n)
    ensures base <= n
  {
  }

  /** The doublings of a number are itself and those of its double. */
  lemma {:induction false} DoublingOn(base: nat, n: nat)
    requires base > 0
    ensures Doubling(base, n) <==> n == base || Doubling(2 * base, n)
    decreases n
  {
    if n > base && n % 2 == 0 && n != 2 * base {
      DoublingOn(base, n / 2);
    }
    if Doubling(2 * base, n) {
      DoublingAtLeast(2 * base, n);
      assert (2 * base) / 2 == base;
    }
  }
}
