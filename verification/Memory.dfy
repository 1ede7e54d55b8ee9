/** Memory as bytes, and the machine words the library reads from it.

    The host is little-endian: a word's first byte in memory is its least
    significant one.  Network order is the opposite, most significant first
    (RFC 791, Appendix B). */
module Memory {

  type byte = b: int | 0 <= b < 0x100
  type word = w: int | 0 <= w < 0x1_0000_0000
  type dword = d: int | 0 <= d < 0x1_0000_0000_0000_0000
  type int32 = i: int | -0x8000_0000 <= i < 0x8000_0000

  /** The number that `s` holds, first byte least significant. */
  function Number(s: seq<byte>): nat {
    if s == [] then 0 else s[0] as int + 0x100 * Number(s[1..])
  }

  /** The `k` low bytes of `n`, first byte least significant. */
  function Digits(n: nat, k: nat): (s: seq<byte>)
    ensures |s| == k
  {
    if k == 0 then [] else [n % 0x100] + Digits(n / 0x100, k - 1)
  }

  function Pow256(k: nat): (p: nat)
    ensures p > 0
  {
    if k == 0 then 1 else 0x100 * Pow256(k - 1)
  }

  function Reverse(s: seq<byte>): (r: seq<byte>)
    ensures |r| == |s|
  {
    seq(|s|, i requires 0 <= i < |s| => s[|s| - 1 - i])
  }

  lemma {:induction false} NumberBound(s: seq<byte>)
    ensures Number(s) < Pow256(|s|)
  {
    if s != [] {
      NumberBound(s[1..]);
    }
  }

  lemma {:induction false} NumberOfDigits(n: nat, k: nat)
    requires n < Pow256(k)
    ensures Number(Digits(n, k)) == n
  {
    if k > 0 {
      NumberOfDigits(n / 0x100, k - 1);
      assert Digits(n, k)[1..] == Digits(n / 0x100, k - 1);
    }
  }

  lemma {:induction false} DigitsOfNumber(s: seq<byte>)
    ensures Digits(Number(s), |s|) == s
  {
    if s != [] {
      DigitsOfNumber(s[1..]);
      assert Number(s) % 0x100 == s[0] && Number(s) / 0x100 == Number(s[1..]);
    }
  }

  lemma {:induction false} NumberOfConcat(s: seq<byte>, t: seq<byte>)
    ensures Number(s + t) == Number(s) + Pow256(|s|) * Number(t)
  {
    if s == [] {
      assert s + t == t;
    } else {
      NumberOfConcat(s[1..], t);
      assert (s + t)[1..] == s[1..] + t;
      assert 0x100 * (Pow256(|s| - 1) * Number(t)) == Pow256(|s|) * Number(t);
    }
  }

  lemma WordPowers()
    ensures Pow256(4) == 0x1_0000_0000 && Pow256(8) == 0x1_0000_0000_0000_0000
  {
    assert Pow256(2) == 0x1_0000;
    assert Pow256(4) == 0x100 * (0x100 * Pow256(2));
    assert Pow256(6) == 0x100 * (0x100 * Pow256(4));
    assert Pow256(8) == 0x100 * (0x100 * Pow256(6));
  }

  function WordAt(s: seq<byte>, at: nat): word
    requires at + 4 <= |s|
  {
    NumberBound(s[at..at + 4]);
    WordPowers();
    Number(s[at..at + 4])
  }

  function WordBytes(w: word): (s: seq<byte>)
    ensures |s| == 4 && WordAt(s, 0) == w
  {
    WordPowers();
    NumberOfDigits(w, 4);
    assert Digits(w, 4)[0..4] == Digits(w, 4);
    Digits(w, 4)
  }

  function DWordAt(s: seq<byte>, at: nat): dword
    requires at + 8 <= |s|
  {
    NumberBound(s[at..at + 8]);
    WordPowers();
    Number(s[at..at + 8])
  }

  function DWordBytes(d: dword): (s: seq<byte>)
    ensures |s| == 8 && DWordAt(s, 0) == d
  {
    WordPowers();
    NumberOfDigits(d, 8);
    assert Digits(d, 8)[0..8] == Digits(d, 8);
    Digits(d, 8)
  }

  /** What is in memory determines the word, and conversely. */
  lemma WordRoundTrip(s: seq<byte>, at: nat)
    requires at + 4 <= |s|
    ensures WordBytes(WordAt(s, at)) == s[at..at + 4]
  {
    DigitsOfNumber(s[at..at + 4]);
  }

  lemma DWordRoundTrip(s: seq<byte>, at: nat)
    requires at + 8 <= |s|
    ensures DWordBytes(DWordAt(s, at)) == s[at..at + 8]
  {
    DigitsOfNumber(s[at..at + 8]);
  }

  /** Reinterpreting a 32-bit word as two's complement, and back. */
  function Signed(w: word): int32 { if w < 0x8000_0000 then w else w - 0x1_0000_0000 }

  function Unsigned(i: int32): (w: word)
    ensures Signed(w) == i
  {
    if i < 0 then i + 0x1_0000_0000 else i
  }

  /** Two's complement: negative numbers are the words with the top bit set. */
  lemma TwosComplement(i: int32)
    ensures Unsigned(i) == if i >= 0 then i else 0x1_0000_0000 + i
    ensures Signed(Unsigned(i)) == i && (i < 0 <==> Unsigned(i) >= 0x8000_0000)
  {
  }

  /** `htonl`, which on a little-endian host is also `ntohl`: the word whose bytes
      are those of `w` in the opposite order. */
  function Swap32(w: word): word {
    WordAt(Reverse(WordBytes(w)), 0)
  }

  /** The macros `htonll` and `ntohll`: swap both halves and exchange them. */
  function Swap64(d: dword): dword {
    Swap32(d / 0x1_0000_0000) as int + Swap32(d % 0x1_0000_0000) as int * 0x1_0000_0000
  }

  /** Swapping the value of a word is reversing its four bytes in memory. */
  lemma Swap32Reverses(s: seq<byte>, at: nat)
    requires at + 4 <= |s|
    ensures WordBytes(Swap32(WordAt(s, at))) == Reverse(s[at..at + 4])
  {
    WordRoundTrip(s, at);
    var r := Reverse(s[at..at + 4]);
    WordRoundTrip(r, 0);
    assert r[0..4] == r;
  }

  lemma Swap32Involutive(w: word)
    ensures Swap32(Swap32(w)) == w
  {
    var r := Reverse(WordBytes(w));
    WordRoundTrip(r, 0);
    assert r[0..4] == r && Reverse(r) == WordBytes(w);
  }

  /** The 64-bit macro, although put together from two 32-bit swaps, reverses all
      eight bytes. */
  lemma Swap64Reverses(s: seq<byte>, at: nat)
    requires at + 8 <= |s|
    ensures DWordBytes(Swap64(DWordAt(s, at))) == Reverse(s[at..at + 8])
  {
    var lo, hi := s[at..at + 4], s[at + 4..at + 8];
    Halves(lo, hi);
    assert s[at..at + 8] == lo + hi;
    Swap32Reverses(s, at);
    Swap32Reverses(s, at + 4);
    var r := Reverse(hi) + Reverse(lo);
    assert Reverse(s[at..at + 8]) == r;
    assert WordBytes(WordAt(s, at)) == lo && WordBytes(WordAt(s, at + 4)) == hi by {
      WordRoundTrip(s, at);
      WordRoundTrip(s, at + 4);
    }
    Halves(Reverse(hi), Reverse(lo));
    assert Swap64(DWordAt(s, at)) == DWordAt(r, 0) by {
      assert Reverse(hi)[0..4] == Reverse(hi) && Reverse(lo)[0..4] == Reverse(lo);
      assert r[0..8] == r;
    }
    DWordRoundTrip(r, 0);
    assert r[0..8] == r;
  }

  lemma Halves(lo: seq<byte>, hi: seq<byte>)
    requires |lo| == |hi| == 4
    ensures Number(lo + hi) / 0x1_0000_0000 == Number(hi) && Number(lo + hi) % 0x1_0000_0000 == Number(lo)
    ensures Number(lo + hi) == Number(lo) + Number(hi) * 0x1_0000_0000
  {
    NumberOfConcat(lo, hi);
    NumberBound(lo);
    WordPowers();
  }

  lemma Swap64Involutive(d: dword)
    ensures Swap64(Swap64(d)) == d
  {
    var s := DWordBytes(d);
    Swap64Reverses(s, 0);
    assert s[0..8] == s;
    var r := Reverse(s);
    Swap64Reverses(r, 0);
    assert r[0..8] == r && Reverse(r) == s;
    DWordRoundTrip(r, 0);
  }

  /** The first `n` words of `s`, each with its bytes reversed; the rest as it was. */
  function Flip(s: seq<byte>, n: nat): (r: seq<byte>)
    requires n * 4 <= |s|
    ensures |r| == |s|
  {
    if n == 0 then s else Reverse(s[..4]) + Flip(s[4..], n - 1)
  }

  lemma {:induction false} FlipInvolutive(s: seq<byte>, n: nat)
    requires n * 4 <= |s|
    ensures Flip(Flip(s, n), n) == s
  {
    if n > 0 {
      var r := Flip(s, n);
      assert r[..4] == Reverse(s[..4]) && r[4..] == Flip(s[4..], n - 1);
      FlipInvolutive(s[4..], n - 1);
      ReverseInvolutive(s[..4]);
    }
  }

  lemma ReverseInvolutive(s: seq<byte>)
    ensures Reverse(Reverse(s)) == s
  {
  }

  lemma {:induction false} FlipSlice(s: seq<byte>, n: nat, j: nat)
    requires n * 4 <= |s| && j < n
    ensures Flip(s, n)[4 * j..4 * j + 4] == Reverse(s[4 * j..4 * j + 4])
  {
    var r := Flip(s, n);
    if j == 0 {
      assert r[..4] == Reverse(s[..4]);
    } else {
      FlipSlice(s[4..], n - 1, j - 1);
      assert r[4..] == Flip(s[4..], n - 1);
      hide *;
      var at := 4 * (j - 1);
      SliceOfRest(r, 4, at, at + 4);
      SliceOfRest(s, 4, at, at + 4);
    }
  }

  lemma SliceOfRest(s: seq<byte>, n: nat, a: nat, b: nat)
    requires n <= |s| && a <= b <= |s| - n
    ensures s[n..][a..b] == s[n + a..n + b]
  {
  }

  lemma {:induction false} FlipConcat(s: seq<byte>, t: seq<byte>, n: nat)
    requires n * 4 <= |s|
    ensures Flip(s + t, n) == Flip(s, n) + t
  {
    if n > 0 {
      var p, r := Reverse(s[..4]), s[4..];
      assert (s + t)[..4] == s[..4] && (s + t)[4..] == r + t;
      assert Flip(s, n) == p + Flip(r, n - 1) && Flip(s + t, n) == p + Flip(r + t, n - 1);
      hide *;
      FlipConcat(r, t, n - 1);
    }
  }

  function ReverseWordAt(s: seq<byte>, at: nat): (r: seq<byte>)
    requires at + 4 <= |s|
    ensures |r| == |s|
  {
    s[..at] + Reverse(s[at..at + 4]) + s[at + 4..]
  }

  lemma {:induction false} FlipNext(s: seq<byte>, n: nat)
    requires (n + 1) * 4 <= |s|
    ensures Flip(s, n + 1) == ReverseWordAt(Flip(s, n), n * 4)
  {
    var p, r := Reverse(s[..4]), s[4..];
    FlipUnfold(s, n + 1);
    if n == 0 {
      assert Flip(r, 0) == r && Flip(s, 0) == s;
      assert ReverseWordAt(s, 0) == p + r;
    } else {
      FlipUnfold(s, n);
      FlipNext(r, n - 1);
      hide *;
      ReverseWordBehind(p, Flip(r, n - 1), (n - 1) * 4);
    }
  }

  lemma FlipUnfold(s: seq<byte>, n: nat)
    requires 0 < n && n * 4 <= |s|
    ensures Flip(s, n) == Reverse(s[..4]) + Flip(s[4..], n - 1)
  {
  }

  lemma ReverseWordBehind(p: seq<byte>, s: seq<byte>, at: nat)
    requires at + 4 <= |s|
    ensures ReverseWordAt(p + s, |p| + at) == p + ReverseWordAt(s, at)
  {
    var r := p + s;
    assert r[..|p| + at] == p + s[..at];
    assert r[|p| + at..|p| + at + 4] == s[at..at + 4];
    assert r[|p| + at + 4..] == s[at + 4..];
  }

  /** `memcpy` of `s` to `at`. */
  method Store(a: array<byte>, at: nat, s: seq<byte>)
    requires at + |s| <= a.Length
    modifies a
    ensures a[..] == old(a[..at]) + s + old(a[at + |s|..])
  {
    forall i | 0 <= i < |s| {
      a[at + i] := s[i];
    }
  }

  /** `*p = htonl(*p)` on the word at `at`. */
  method SwapWordInPlace(a: array<byte>, at: nat)
    requires at + 4 <= a.Length
    modifies a
    ensures a[..] == ReverseWordAt(old(a[..]), at)
  {
    Swap32Reverses(a[..], at);
    Store(a, at, WordBytes(Swap32(WordAt(a[..], at))));
  }

  /** `*p = htonll(*p)` on the eight bytes at `at`. */
  method SwapDWordInPlace(a: array<byte>, at: nat)
    requires at + 8 <= a.Length
    modifies a
    ensures a[..] == old(a[..at]) + Reverse(old(a[at..at + 8])) + old(a[at + 8..])
  {
    Swap64Reverses(a[..], at);
    assert a[..][at..at + 8] == a[at..at + 8];
    Store(a, at, DWordBytes(Swap64(DWordAt(a[..], at))));
  }

  /** One turn of the conversion loops: word `i` of the run that starts at `at`. */
  method SwapNextWord(a: array<byte>, at: nat, i: nat, ghost p: seq<byte>, ghost s: seq<byte>)
    requires |p| == at && (i + 1) * 4 <= |s| && a[..] == p + Flip(s, i)
    modifies a
    ensures a[..] == p + Flip(s, i + 1)
  {
    hide *;
    ReverseWordBehind(p, Flip(s, i), i * 4);
    FlipNext(s, i);
    assert a.Length == |a[..]| == at + |s|;
    SwapWordInPlace(a, at + i * 4);
  }

  /** The loops that convert a header, a route block or a vector word by word. */
  method SwapWordsInPlace(a: array<byte>, at: nat, n: nat)
    requires at + n * 4 <= a.Length
    modifies a
    ensures a[..] == old(a[..at]) + Flip(old(a[at..]), n)
  {
    ghost var p, s := a[..at], a[at..];
    assert a[..] == p + Flip(s, 0);
    var i := 0;
    while i < n
      invariant 0 <= i <= n
      invariant a[..] == p + Flip(s, i)
    {
      SwapNextWord(a, at, i, p, s);
      i := i + 1;
    }
  }
}
