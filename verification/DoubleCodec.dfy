/** The 13-byte portable form of a double: a class byte, a 64-bit integer mantissa and
    a 32-bit exponent, written over the very slot that holds the native value.

    A native double is its binary64 pattern (IEEE 754-2008, section 3.4); `frexp` and
    `ldexp` follow ISO C11, sections 7.12.6.4 and 7.12.6.6, with rounding to nearest
    and ties to even. */
module DoubleCodec {
  import opened Memory

  const SLOT_SIZE: nat := 13

  const NORMAL_NEGATIVE: byte := 0
  const NORMAL_POSITIVE: byte := 1
  const NOT_A_NUMBER: byte := 2
  const INF_NEGATIVE: byte := 3
  const INF_POSITIVE: byte := 4

  const TWO52: nat := 0x10_0000_0000_0000
  const TWO53: nat := 0x20_0000_0000_0000
  const SIGN_BIT: nat := 0x8000_0000_0000_0000
  const INFINITY_BITS: nat := 0x7FF0_0000_0000_0000
  const QUIET_NAN_BITS: nat := 0x7FF8_0000_0000_0000

  /** The pattern without its sign bit: ordered like the absolute values. */
  function Magnitude(bits: dword): nat { bits % SIGN_BIT }

  predicate IsNegative(bits: dword) { bits >= SIGN_BIT }

  predicate IsNan(bits: dword) { Magnitude(bits) > INFINITY_BITS }

  predicate IsInf(bits: dword) { Magnitude(bits) == INFINITY_BITS }

  predicate IsFinite(bits: dword) { Magnitude(bits) < INFINITY_BITS }

  /** What a double means once the codec is done with it: NaN payloads and the sign of
      zero do not survive. */
  function Canonical(bits: dword): dword {
    if IsNan(bits) then QUIET_NAN_BITS else if Magnitude(bits) == 0 then 0 else bits
  }

  function Pow2(k: nat): (p: nat)
    ensures p > 0
  {
    if k == 0 then 1 else 2 * Pow2(k - 1)
  }

  lemma Doubled(m: nat, k: nat)
    ensures 2 * m * Pow2(k) == m * Pow2(k + 1)
  {
    assert Pow2(k + 1) == 2 * Pow2(k);
  }

  /** `m * 2^e`, shifted left until the top mantissa bit is set. */
  function Normalized(m: nat, e: int): (r: (nat, int))
    requires 0 < m < TWO53
    ensures TWO52 <= r.0 < TWO53 && r.1 <= e
    ensures r.0 == m * Pow2(e - r.1)
    ensures e - r.1 <= 52
    decreases TWO53 - m
  {
    if m >= TWO52 then
      assert m * Pow2(0) == m;
      (m, e)
    else
      var r := Normalized(2 * m, e - 1);
      Doubled(m, e - 1 - r.1);
      ShiftBound(m, e - r.1);
      r
  }

  lemma {:induction false} Pow2AtLeast(k: nat)
    requires k >= 53
    ensures Pow2(k) >= TWO53
  {
    if k == 53 {
      assert Pow2(53) == 0x100 * Pow2(45) by { Pow2Plus8(45); }
      assert Pow2(45) == 0x100 * Pow2(37) by { Pow2Plus8(37); }
      assert Pow2(37) == 0x100 * Pow2(29) by { Pow2Plus8(29); }
      assert Pow2(29) == 0x100 * Pow2(21) by { Pow2Plus8(21); }
      assert Pow2(21) == 0x100 * Pow2(13) by { Pow2Plus8(13); }
      assert Pow2(13) == 0x100 * Pow2(5) by { Pow2Plus8(5); }
      assert Pow2(5) == 8 * Pow2(2);
    } else {
      Pow2AtLeast(k - 1);
    }
  }

  lemma Pow2Plus8(k: nat)
    ensures Pow2(k + 8) == 0x100 * Pow2(k)
  {
    assert Pow2(k + 8) == 4 * Pow2(k + 6);
    assert Pow2(k + 6) == 4 * Pow2(k + 4);
    assert Pow2(k + 4) == 4 * Pow2(k + 2);
  }

  lemma ShiftBound(m: nat, k: nat)
    requires m > 0 && m * Pow2(k) < TWO53
    ensures k <= 52
  {
    if k >= 53 {
      Pow2AtLeast(k);
      MulAtLeast(m, Pow2(k));
    }
  }

  lemma MulAtLeast(m: nat, p: nat)
    requires m > 0
    ensures m * p >= p
  {
  }

  /** `frexp(|v|)` followed by scaling the fraction to an integer: |v| = m * 2^e. */
  function MantissaExponent(bits: dword): (r: (nat, int32))
    requires IsFinite(bits)
    ensures r.0 == 0 || TWO52 <= r.0 < TWO53
    ensures r.0 == 0 <==> Magnitude(bits) == 0
  {
    var magnitude := Magnitude(bits);
    var biased, fraction := magnitude / TWO52, magnitude % TWO52;
    if magnitude == 0 then (0, -53)
    else if biased == 0 then Normalized(fraction, -1074)
    else (TWO52 + fraction, biased - 1075)
  }

  /** The absolute value of a finite pattern, in units of the smallest subnormal, 2^-1074:
      section 3.4 of IEEE 754-2008. */
  function Units(bits: dword): nat
    requires IsFinite(bits)
  {
    var biased, fraction := Magnitude(bits) / TWO52, Magnitude(bits) % TWO52;
    if biased == 0 then fraction else (TWO52 + fraction) * Pow2(biased - 1)
  }

  /** Significand and exponent stand for exactly the value, m * 2^e, with nothing rounded:
      either side is put in the finer of its two units. */
  lemma MantissaExponentExact(bits: dword)
    requires IsFinite(bits)
    ensures var (m, e) := MantissaExponent(bits);
            if e >= -1074 then Units(bits) == m * Pow2(e + 1074) else m == Units(bits) * Pow2(-1074 - e)
  {
    var magnitude := Magnitude(bits);
    if magnitude == 0 {
      assert Units(bits) == 0;
    } else if magnitude / TWO52 == 0 {
      assert Pow2(0) == 1;
    }
  }

  /** The classes by the fields of the pattern: one bit of sign, eleven of exponent, fifty-two
      of fraction (section 3.4 of IEEE 754-2008). */
  lemma PatternClasses(bits: dword)
    ensures var e, f := bits / 0x10_0000_0000_0000 % 0x800, bits % 0x10_0000_0000_0000;
            && (IsFinite(bits) <==> e < 0x7FF) && (IsInf(bits) <==> e == 0x7FF && f == 0)
            && (IsNan(bits) <==> e == 0x7FF && f != 0) && (IsNegative(bits) <==> bits / 0x8000_0000_0000_0000 == 1)
            && (Magnitude(bits) == 0 <==> e == 0 && f == 0)
  {
    var e, f := bits / 0x10_0000_0000_0000 % 0x800, bits % 0x10_0000_0000_0000;
    var m := bits % 0x8000_0000_0000_0000;
    assert m == e * 0x10_0000_0000_0000 + f;
  }

  /** What does not survive the codec is the payload and the sign of a NaN, and the sign of
      zero. */
  lemma CanonicalValues(bits: dword)
    ensures IsNan(bits) ==> IsNan(Canonical(bits))
    ensures IsInf(bits) ==> Canonical(bits) == bits
    ensures IsFinite(bits) && bits != 0x8000_0000_0000_0000 ==> Canonical(bits) == bits
    ensures Canonical(0x8000_0000_0000_0000) == 0
  {
  }

  /** m / 2^k, to nearest, ties to even. */
  function RoundShift(m: nat, k: nat): nat {
    var q, r := m / Pow2(k), m % Pow2(k);
    if 2 * r > Pow2(k) || (2 * r == Pow2(k) && q % 2 == 1) then q + 1 else q
  }

  /** No other multiple of 2^k is nearer to `m`, and of two that are as near it is the even
      one. */
  lemma RoundShiftNearest(m: nat, k: nat)
    ensures var q, p := RoundShift(m, k), Pow2(k);
            var off := if m >= q * p then m - q * p else q * p - m;
            2 * off <= p && (2 * off == p ==> q % 2 == 0)
  {
    var p := Pow2(k);
    var q, r := m / p, m % p;
    assert m == q * p + r;
    assert (q + 1) * p == q * p + p;
  }

  /** How many low bits `static_cast<double>` drops from a 64-bit integer. */
  function ExcessBits(m: nat): (k: nat)
    ensures m < TWO53 ==> k == 0
    decreases m
  {
    if m < TWO53 then 0 else 1 + ExcessBits(m / 2)
  }

  /** The magnitude pattern of `m * 2^e`, with subnormals rounded and overflow to
      infinity. */
  function Scaled(m: nat, e: int): nat
    requires m < TWO53
  {
    if m == 0 then 0
    else
      var (n, x) := Normalized(m, e);
      if x > 971 then INFINITY_BITS
      else if x >= -1074 then (x + 1074) * TWO52 + n
      else RoundShift(n, -1074 - x)
  }

  /** `ldexp(static_cast<double>(m), e)`. */
  function Ldexp(m: dword, e: int32): nat {
    var k := ExcessBits(m);
    var top := RoundShift(m, k);
    if top < TWO53 then Scaled(top, e + k) else Scaled(TWO52, e + k + 1)
  }

  /** Just as many as leave 53 of them. */
  lemma {:induction false} ExcessBitsFit(m: nat)
    ensures var p := Pow2(ExcessBits(m)); m < TWO53 * p && (m >= TWO53 ==> m >= TWO52 * p)
    decreases m
  {
    if m >= TWO53 {
      var half := m / 2;
      var p := Pow2(ExcessBits(half));
      ExcessBitsFit(half);
      assert Pow2(ExcessBits(m)) == 2 * p;
      if half < TWO53 {
        assert p == 1;
      }
    }
  }

  /** `m * 2^e`, which is `n * 2^x`, as a pattern: exact, rounded to a multiple of the
      smallest subnormal, or infinity where it is too large. */
  lemma ScaledValue(m: nat, e: int)
    requires 0 < m < TWO53
    ensures var (n, x) := Normalized(m, e);
            && (x > 971 ==> Scaled(m, e) == INFINITY_BITS)
            && (x <= 971 ==> Scaled(m, e) < INFINITY_BITS && IsFinite(Scaled(m, e)))
            && (-1074 <= x <= 971 ==> Units(Scaled(m, e)) == n * Pow2(x + 1074))
            && (x < -1074 ==> Units(Scaled(m, e)) == RoundShift(n, -1074 - x))
  {
    var (n, x) := Normalized(m, e);
    assert Scaled(m, e) == if x > 971 then INFINITY_BITS
                           else if x >= -1074 then (x + 1074) * TWO52 + n else RoundShift(n, -1074 - x);
    if -1074 <= x <= 971 {
      NormalPattern(n, x + 1074);
    } else if x < -1074 {
      SubnormalBound(n, -1074 - x);
      SubnormalPattern(RoundShift(n, -1074 - x));
    }
    hide *;
  }

  lemma NormalPattern(n: nat, k: nat)
    requires TWO52 <= n < TWO53 && k <= 2045
    ensures var s := k * TWO52 + n; s < INFINITY_BITS && IsFinite(s) && Units(s) == n * Pow2(k)
  {
    var s := k * TWO52 + n;
    assert s / TWO52 == k + 1 && s % TWO52 == n - TWO52 && Magnitude(s) == s;
    hide Pow2;
  }

  lemma SubnormalPattern(q: nat)
    requires q <= TWO52
    ensures q < INFINITY_BITS && IsFinite(q) && Units(q) == q
  {
    assert Pow2(0) == 1;
  }

  /** Shifted by at least one bit, a 53-bit number rounds to at most 2^52. */
  lemma SubnormalBound(n: nat, k: nat)
    requires n < TWO53 && k > 0
    ensures RoundShift(n, k) <= TWO52
  {
    hide *;
    var p, q := Pow2(k), n / Pow2(k);
    AtMostOneMore(n, k);
    EvenPower(k);
    Division(n, p);
    HalfBound(q, p, n % p);
  }

  lemma AtMostOneMore(n: nat, k: nat)
    ensures RoundShift(n, k) <= n / Pow2(k) + 1
  {
  }

  lemma EvenPower(k: nat)
    requires k > 0
    ensures Pow2(k) == 2 * Pow2(k - 1) && TWO53 == 2 * TWO52
  {
  }

  lemma Division(n: nat, p: nat)
    requires p > 0
    ensures n == (n / p) * p + n % p
  {
  }

  lemma HalfBound(q: nat, p: nat, r: nat)
    requires p >= 2 && q * p + r < TWO53
    ensures q < TWO52
  {
    var rest := q * (p - 2);
    assert q * p == q * 2 + rest;
  }

  /** A significand of more than 53 bits is rounded to 53 first, and what is scaled then is the
      rounded one: t * 2^x is q * 2^k * 2^e. */
  lemma LdexpValue(m: dword, e: int32)
    ensures var k, q := ExcessBits(m), RoundShift(m, ExcessBits(m));
            exists t: nat, x: int ::
              t < TWO53 && e <= x && t * Pow2(x - e) == q * Pow2(k) && Ldexp(m, e) == Scaled(t, x)
  {
    var k := ExcessBits(m);
    var q := RoundShift(m, k);
    hide RoundShift, Scaled, ExcessBits;
    if q < TWO53 {
      assert q < TWO53 && q * Pow2(e + k - e) == q * Pow2(k) && Ldexp(m, e) == Scaled(q, e + k);
    } else {
      TopRounded(m);
      assert Pow2(e + k + 1 - e) == 2 * Pow2(k);
      assert TWO52 * (2 * Pow2(k)) == TWO53 * Pow2(k);
      assert TWO52 < TWO53 && TWO52 * Pow2(e + k + 1 - e) == q * Pow2(k) && Ldexp(m, e) == Scaled(TWO52, e + k + 1);
    }
  }

  /** If the rounded significand has more than 53 bits, it is a power of two. */
  lemma TopRounded(m: nat)
    ensures RoundShift(m, ExcessBits(m)) <= TWO53
  {
    hide *;
    var k := ExcessBits(m);
    ExcessBitsFit(m);
    AtMostOneMore(m, k);
    Division(m, Pow2(k));
    QuotientBelow(m / Pow2(k), Pow2(k), m % Pow2(k));
  }

  lemma QuotientBelow(q: nat, p: nat, r: nat)
    requires p > 0 && q * p + r < TWO53 * p
    ensures q < TWO53
  {
    var gap := (q - TWO53) * p;
    assert gap == q * p - TWO53 * p < 0;
  }

  lemma RoundShiftExact(m: nat, k: nat)
    ensures RoundShift(m * Pow2(k), k) == m
  {
    var p := Pow2(k);
    assert m * p / p == m && m * p % p == 0 by { DivMulExact(m, p); }
  }

  lemma DivMulExact(m: nat, p: nat)
    requires p > 0
    ensures m * p / p == m && m * p % p == 0
  {
    var x := m * p;
    DivUnique(m, p, x / p, x % p);
  }

  lemma DivUnique(m: nat, p: nat, q: nat, r: nat)
    requires m * p == q * p + r && r < p
    ensures m == q && r == 0
  {
    assert (m - q) * p == r;
    if m > q {
      MulAtLeast(m - q, p);
    } else if m < q {
      MulAtLeast(q - m, p);
    }
  }

  /** The integer form of a finite value leads back to its magnitude, subnormals
      included, with no rounding on the way. */
  lemma LdexpOfMantissaExponent(bits: dword)
    requires IsFinite(bits)
    ensures var (m, e) := MantissaExponent(bits); Ldexp(m, e) == Magnitude(bits)
  {
    var magnitude := Magnitude(bits);
    var biased, fraction := magnitude / TWO52, magnitude % TWO52;
    var (m, e) := MantissaExponent(bits);
    assert RoundShift(m, 0) == m by { RoundShiftExact(m, 0); }
    if magnitude != 0 {
      assert Normalized(m, e) == (m, e);
      if biased == 0 {
        assert fraction == magnitude;
        if e < -1074 {
          RoundShiftExact(fraction, -1074 - e);
        }
      } else {
        assert magnitude == biased * TWO52 + fraction;
      }
    }
  }

  /** What `double_in_buf_to_network_order` leaves in memory. */
  function ToNetwork(s: seq<byte>): (r: seq<byte>)
    requires |s| >= SLOT_SIZE
    ensures |r| == |s| && r[SLOT_SIZE..] == s[SLOT_SIZE..]
  {
    var bits := DWordAt(s, 0);
    if IsNan(bits) then s[0 := NOT_A_NUMBER]
    else if IsInf(bits) then s[0 := if IsNegative(bits) then INF_NEGATIVE else INF_POSITIVE]
    else
      var (m, e) := MantissaExponent(bits);
      FiniteSlot(SignClass(bits), m, e) + s[SLOT_SIZE..]
  }

  /** The class byte of a finite value: `from < 0` does not hold of negative zero. */
  function SignClass(bits: dword): byte {
    if IsNegative(bits) && Magnitude(bits) != 0 then NORMAL_NEGATIVE else NORMAL_POSITIVE
  }

  function FiniteSlot(sign: byte, m: dword, e: int32): (r: seq<byte>)
    ensures |r| == SLOT_SIZE
  {
    [sign] + DWordBytes(Swap64(m)) + WordBytes(Swap32(Unsigned(e)))
  }

  /** The pattern `double_in_buf_to_host_order` computes from a slot. */
  function HostBits(s: seq<byte>): dword
    requires |s| >= SLOT_SIZE
  {
    if s[0] == NOT_A_NUMBER then QUIET_NAN_BITS
    else if s[0] == INF_NEGATIVE then SIGN_BIT + INFINITY_BITS
    else if s[0] == INF_POSITIVE then INFINITY_BITS
    else
      var v := Ldexp(Swap64(DWordAt(s, 1)), Signed(Swap32(WordAt(s, 9))));
      LdexpBound(Swap64(DWordAt(s, 1)), Signed(Swap32(WordAt(s, 9))));
      if s[0] == NORMAL_NEGATIVE then SIGN_BIT + v else v
  }

  /** What has no number: to network order, only the class byte changes. */
  lemma SpecialSlots(s: seq<byte>)
    requires |s| >= SLOT_SIZE
    ensures var bits := DWordAt(s, 0);
            && (IsNan(bits) ==> ToNetwork(s) == s[0 := 2])
            && (IsInf(bits) ==> ToNetwork(s) == s[0 := if bits >= 0x8000_0000_0000_0000 then 3 else 4])
  {
    hide MantissaExponent, DWordAt;
  }

  /** What the class byte alone decides: a quiet NaN, the two infinities, and otherwise the
      sign. */
  lemma SpecialsReceived(s: seq<byte>)
    requires |s| >= SLOT_SIZE
    ensures s[0] == 2 ==> IsNan(HostBits(s)) && HostBits(s) / 0x8_0000_0000_0000 % 2 == 1
    ensures s[0] == 3 ==> HostBits(s) == 0xFFF0_0000_0000_0000
    ensures s[0] == 4 ==> HostBits(s) == 0x7FF0_0000_0000_0000
    ensures s[0] < 2 || s[0] > 4 ==>
      var m, e := Swap64(DWordAt(s, 1)), Signed(Swap32(WordAt(s, 9)));
      HostBits(s) == Ldexp(m, e) + if s[0] == 0 then 0x8000_0000_0000_0000 else 0
  {
    hide Ldexp, Swap64, Swap32, DWordAt, WordAt;
    LdexpBound(Swap64(DWordAt(s, 1)), Signed(Swap32(WordAt(s, 9))));
  }

  /** Whatever arrives, the result is a magnitude no larger than infinity. */
  lemma LdexpBound(m: dword, e: int32)
    ensures Ldexp(m, e) <= INFINITY_BITS
  {
    var k := ExcessBits(m);
    var top := RoundShift(m, k);
    var (n, x) := if top < TWO53 then (top, e + k) else (TWO52, e + k + 1);
    ScaledBound(n, x);
  }

  lemma ScaledBound(m: nat, e: int)
    requires m < TWO53
    ensures Scaled(m, e) <= INFINITY_BITS
  {
    if m > 0 {
      var (n, x) := Normalized(m, e);
      if x < -1074 {
        assert Pow2(-1074 - x) >= 1;
        QuotientBound(n, Pow2(-1074 - x));
      }
    }
  }

  lemma QuotientBound(n: nat, p: nat)
    requires p > 0
    ensures n / p <= n
  {
    if n / p > n {
      MulAtLeast(p, n / p);
    }
  }

  /** What `double_in_buf_to_host_order` leaves in memory: it writes the eight native
      bytes only. */
  function ToHost(s: seq<byte>): (r: seq<byte>)
    requires |s| >= SLOT_SIZE
    ensures |r| == |s| && r[8..] == s[8..]
  {
    DWordBytes(HostBits(s)) + s[8..]
  }

  /** Host to network and back: every double keeps its value, although source and
      result share the slot; NaN stays NaN and negative zero comes back as zero. */
  lemma NetworkThenHost(s: seq<byte>)
    requires |s| >= SLOT_SIZE
    ensures HostBits(ToNetwork(s)) == Canonical(DWordAt(s, 0))
    ensures DWordAt(ToHost(ToNetwork(s)), 0) == Canonical(DWordAt(s, 0))
  {
    hide ToNetwork, ToHost, HostBits, Canonical, IsFinite, DWordAt;
    if IsFinite(DWordAt(s, 0)) {
      FiniteThenHost(s, DWordAt(s, 0));
    } else {
      SpecialThenHost(s, DWordAt(s, 0));
    }
    HostValue(ToNetwork(s));
  }

  lemma SpecialThenHost(s: seq<byte>, bits: dword)
    requires |s| >= SLOT_SIZE && bits == DWordAt(s, 0) && !IsFinite(bits)
    ensures HostBits(ToNetwork(s)) == Canonical(bits)
  {
    hide Ldexp, MantissaExponent, Swap64, Swap32, DWordAt, WordAt;
  }

  lemma FiniteThenHost(s: seq<byte>, bits: dword)
    requires |s| >= SLOT_SIZE && bits == DWordAt(s, 0) && IsFinite(bits)
    ensures HostBits(ToNetwork(s)) == Canonical(bits)
  {
    var (m, e) := MantissaExponent(bits);
    assert ToNetwork(s) == FiniteSlot(SignClass(bits), m, e) + s[SLOT_SIZE..];
    hide *;
    FiniteSlotHost(SignClass(bits), m, e, s[SLOT_SIZE..]);
    LdexpOfMantissaExponent(bits);
    SignRestored(bits);
  }

  lemma HostValue(r: seq<byte>)
    requires |r| >= SLOT_SIZE
    ensures DWordAt(ToHost(r), 0) == HostBits(r)
  {
    var host := DWordBytes(HostBits(r));
    assert ToHost(r)[0..8] == host == host[0..8];
  }

  lemma SignRestored(bits: dword)
    requires IsFinite(bits)
    ensures Canonical(bits)
         == if SignClass(bits) == NORMAL_NEGATIVE then SIGN_BIT + Magnitude(bits) else Magnitude(bits)
  {
  }

  /** The three fields of a finite slot, read back from memory. */
  lemma FiniteSlotHost(sign: byte, m: dword, e: int32, tail: seq<byte>)
    requires sign == NORMAL_NEGATIVE || sign == NORMAL_POSITIVE
    ensures HostBits(FiniteSlot(sign, m, e) + tail)
         == if sign == NORMAL_NEGATIVE then SIGN_BIT + Ldexp(m, e) else Ldexp(m, e)
  {
    var r := FiniteSlot(sign, m, e) + tail;
    var mantissa, exponent := DWordBytes(Swap64(m)), WordBytes(Swap32(Unsigned(e)));
    assert r[1..9] == mantissa == mantissa[0..8];
    assert r[9..13] == exponent == exponent[0..4];
    Swap64Involutive(m);
    Swap32Involutive(Unsigned(e));
  }

  /** `double_in_buf_to_network_order` on the slot at `at`: the native value is read
      before its bytes are overwritten. */
  method ToNetworkInPlace(a: array<byte>, at: nat)
    requires at + SLOT_SIZE <= a.Length
    modifies a
    ensures a[..] == old(a[..at]) + ToNetwork(old(a[at..]))
  {
    var from := DWordAt(a[at..], 0);
    if IsNan(from) {
      a[at] := NOT_A_NUMBER;
      return;
    }
    if IsInf(from) {
      a[at] := if IsNegative(from) then INF_NEGATIVE else INF_POSITIVE;
      return;
    }
    var (m, e) := MantissaExponent(from);
    Store(a, at, FiniteSlot(SignClass(from), m, e));
  }

  /** `double_in_buf_to_host_order` on the slot at `at`: class, mantissa and exponent
      are read before the native value lands on them. */
  method ToHostInPlace(a: array<byte>, at: nat)
    requires at + SLOT_SIZE <= a.Length
    modifies a
    ensures a[..] == old(a[..at]) + ToHost(old(a[at..]))
  {
    var bits := HostBits(a[at..]);
    Store(a, at, DWordBytes(bits));
  }

  /** The slot of 2 to the power of `e` + 52. */
  function PowerSlot(e: int32): (s: seq<byte>)
    ensures |s| == SLOT_SIZE
  {
    FiniteSlot(NORMAL_POSITIVE, TWO52, e)
  }

  /** Every byte of the slot counts: that of 1.0 and that of 2.0 differ in the last alone,
      and decoding either changes the last native byte. */
  lemma OneAndTwo() returns (one: seq<byte>, two: seq<byte>)
    ensures |one| == |two| == SLOT_SIZE == 13 && one[..12] == two[..12]
    ensures ToHost(one)[7] != ToHost(two)[7] && ToHost(one)[7] != one[7]
  {
    hide *;
    one, two := PowerSlot(-52), PowerSlot(-51);
    PowerDecoded(0x3FF, -52);
    PowerDecoded(0x400, -51);
    PowerFields(-52);
    PowerFields(-51);
  }

  lemma PowerDecoded(biased: nat, e: int32)
    requires 0 < biased < 0x7FF && e == biased - 1075
    ensures |PowerSlot(e)| == SLOT_SIZE == 13 && ToHost(PowerSlot(e))[7] == biased / 0x10
  {
    hide *;
    var slot := PowerSlot(e);
    var bits := biased * 0x10_0000_0000_0000;
    PowerParts(biased);
    PowerIs(e);
    LdexpOfMantissaExponent(bits);
    NativeByte(slot);
    LastByte(biased);
  }

  lemma PowerIs(e: int32)
    ensures |PowerSlot(e)| == SLOT_SIZE == 13 && HostBits(PowerSlot(e)) == Ldexp(0x10_0000_0000_0000, e)
  {
    FiniteSlotHost(NORMAL_POSITIVE, TWO52, e, []);
    hide HostBits, Ldexp, FiniteSlot;
    assert FiniteSlot(NORMAL_POSITIVE, TWO52, e) + [] == FiniteSlot(NORMAL_POSITIVE, TWO52, e);
  }

  lemma PowerParts(biased: nat)
    requires 0 < biased < 0x7FF
    ensures var bits := biased * 0x10_0000_0000_0000;
            && IsFinite(bits) && Magnitude(bits) == bits
            && MantissaExponent(bits) == (0x10_0000_0000_0000, biased - 1075)
  {
  }

  lemma NativeByte(s: seq<byte>)
    requires |s| >= SLOT_SIZE
    ensures |ToHost(s)| == |s| >= 8 && ToHost(s)[7] == DWordBytes(HostBits(s))[7]
  {
    hide HostBits, DWordBytes;
  }

  /** The most significant byte comes last in memory. */
  lemma LastByte(biased: nat)
    requires biased < 0x1000
    ensures DWordBytes(biased * 0x10_0000_0000_0000)[7] == biased / 0x10
  {
    hide *;
    var n, top := biased * 0x10_0000_0000_0000, biased * 0x10;
    Pow256Of6();
    DigitsShifted(top, 6, 2);
    FirstDigits(top, 2);
    FirstDigits(top / 0x100, 1);
    DWordDigits(n);
    assert DWordBytes(n)[6..][1] == DWordBytes(n)[7];
  }

  lemma Pow256Of6()
    ensures Pow256(6) == 0x1_0000_0000_0000
  {
  }

  lemma DWordDigits(n: dword)
    ensures DWordBytes(n) == Digits(n, 8)
  {
  }

  /** A number with `j` zero bytes at its low end. */
  lemma {:induction false} DigitsShifted(v: nat, j: nat, k: nat)
    ensures Digits(v * Pow256(j), j + k)[j..] == Digits(v, k)
  {
    if j > 0 {
      var n := v * Pow256(j - 1);
      assert v * Pow256(j) == 0x100 * n;
      DigitsShifted(v, j - 1, k);
      FirstDigits(0x100 * n, j + k);
    }
  }

  lemma FirstDigits(n: nat, k: nat)
    requires k > 0
    ensures Digits(n, k) == [n % 0x100] + Digits(n / 0x100, k - 1)
  {
  }

  /** What the slot of a power of two holds in front of its last byte, and there. */
  lemma PowerFields(e: int32)
    requires -256 <= e < 0
    ensures |PowerSlot(e)| == SLOT_SIZE == 13 && PowerSlot(e)[7] == 0
    ensures PowerSlot(e)[..12] == [1] + DWordBytes(Swap64(0x10_0000_0000_0000)) + [0xFF, 0xFF, 0xFF]
  {
    hide *;
    SlotIs(e);
    SecondByte(0x10_0000_0000_0000);
    NegativeWord(e);
  }

  lemma SlotIs(e: int32)
    ensures |PowerSlot(e)| == SLOT_SIZE == 13
    ensures PowerSlot(e) == [1] + DWordBytes(Swap64(0x10_0000_0000_0000)) + WordBytes(Swap32(Unsigned(e)))
  {
    hide DWordBytes, WordBytes, Swap64, Swap32, Unsigned;
  }

  lemma SecondByte(m: dword)
    ensures DWordBytes(Swap64(m))[6] == m / 0x100 % 0x100
  {
    hide WordAt, Swap64, Swap32, Reverse, DWordAt;
    var s := DWordBytes(m);
    assert s[0..8] == s && |s| == 8;
    Swap64Reverses(s, 0);
    ReversedAt(s, 6);
    FirstDigits(m, 8);
    FirstDigits(m / 0x100, 7);
    hide Digits;
  }

  lemma ReversedAt(s: seq<byte>, i: nat)
    requires i < |s|
    ensures Reverse(s)[i] == s[|s| - 1 - i]
  {
  }

  lemma NegativeWord(e: int32)
    requires -256 <= e < 0
    ensures WordBytes(Swap32(Unsigned(e)))[..3] == [0xFF, 0xFF, 0xFF]
  {
    var w := Unsigned(e);
    var s := WordBytes(w);
    FirstDigits(w, 4);
    FirstDigits(w / 0x100, 3);
    FirstDigits(w / 0x100 / 0x100, 2);
    FirstDigits(w / 0x100 / 0x100 / 0x100, 1);
    assert s[1] == s[2] == s[3] == 0xFF;
    hide *;
    assert s[0..4] == s && |s| == 4;
    Swap32Reverses(s, 0);
    ReversedAt(s, 0);
    ReversedAt(s, 1);
    ReversedAt(s, 2);
  }
}
