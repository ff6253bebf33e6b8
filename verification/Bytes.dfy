/** Byte strings as the C code handles them: searching, splitting, big-endian fields,
    decimal text and the bitwise exclusive or of unsigned integers. */
module Bytes {

  type byte = b: nat | b < 256
  type u16 = n: nat | n < 0x1_0000
  type u32 = n: nat | n < 0x1_0000_0000
  type u64 = n: nat | n < 0x1_0000_0000_0000_0000

  const U64: nat := 0x1_0000_0000_0000_0000

  const SLASH: byte := 47      // '/'
  const AT: byte := 64         // '@'
  const DIGIT_0: byte := 48    // '0'
  const BAR: byte := 124       // '|'
  const SEMICOLON: byte := 59  // ';'

  datatype Option<T> = None | Some(value: T)

  /** The bytes of an ASCII text. */
  function Ascii(text: string): (r: seq<byte>)
    requires forall i :: 0 <= i < |text| ==> text[i] as int < 128
    ensures |r| == |text| && forall i :: 0 <= i < |r| ==> r[i] == text[i] as int
  {
    seq(|text|, i requires 0 <= i < |text| => text[i] as int)
  }

  lemma PunctuationSpelled()
    ensures [SLASH, AT, DIGIT_0, BAR, SEMICOLON] == Ascii("/@0|;")
  {
  }

  // ----- searching ------------------------------------------------------------------

  /** Index of the first `b` in `s`, or |s|. */
  function IndexOf(s: seq<byte>, b: byte): (k: nat)
    ensures k <= |s| && b !in s[..k]
    ensures k < |s| ==> s[k] == b
  {
    if s == [] || s[0] == b then 0 else 1 + IndexOf(s[1..], b)
  }

  lemma {:induction false} IndexOfUnique(s: seq<byte>, b: byte, k: nat)
    requires k <= |s| && b !in s[..k]
    requires k < |s| ==> s[k] == b
    ensures IndexOf(s, b) == k
  {
  }

  /** The scan `while (i < len && s[i] != b) i++`. */
  method SkipTo(s: seq<byte>, start: nat, b: byte) returns (i: nat)
    requires start <= |s|
    ensures start <= i <= |s| && i == start + IndexOf(s[start..], b)
  {
    i := start;
    while i < |s| && s[i] != b
      invariant start <= i <= |s|
      invariant b !in s[start..i]
    {
      i := i + 1;
    }
    assert s[start..][..i - start] == s[start..i];
    IndexOfUnique(s[start..], b, i - start);
  }

  /** What a C string holding the bytes `s` reads back as: everything before the first NUL. */
  function CString(s: seq<byte>): (r: seq<byte>)
    ensures r == s <==> 0 !in s
    ensures 0 !in r && |r| <= |s|
  {
    assert 0 !in s ==> IndexOf(s, 0) == |s|;
    s[..IndexOf(s, 0)]
  }

  function Take<T>(s: seq<T>, n: nat): (r: seq<T>)
    ensures |r| == (if |s| < n then |s| else n) && r <= s
  {
    if |s| <= n then s else s[..n]
  }

  lemma Assoc<T>(a: seq<T>, b: seq<T>, c: seq<T>)
    ensures (a + b) + c == a + (b + c)
  {
  }

  // ----- separated fields -----------------------------------------------------------

  /** The pieces the loop "read up to the separator, then step over it" visits. */
  function Fields(s: seq<byte>, sep: byte): seq<seq<byte>>
    decreases |s|
  {
    if s == [] then []
    else
      var k := IndexOf(s, sep);
      [s[..k]] + (if k == |s| then [] else Fields(s[k + 1..], sep))
  }

  function Join(xs: seq<seq<byte>>, sep: byte): seq<byte> {
    if xs == [] then []
    else if |xs| == 1 then xs[0]
    else xs[0] + [sep] + Join(xs[1..], sep)
  }

  ghost predicate Separable(xs: seq<seq<byte>>, sep: byte) {
    forall i :: 0 <= i < |xs| ==> xs[i] != [] && sep !in xs[i]
  }

  lemma {:induction false} FieldsStep(x: seq<byte>, rest: seq<byte>, sep: byte)
    requires sep !in x
    ensures Fields(x + [sep] + rest, sep) == [x] + Fields(rest, sep)
  {
    var s := x + [sep] + rest;
    assert s[..|x|] == x && s[|x| + 1..] == rest;
    IndexOfUnique(s, sep, |x|);
  }

  lemma {:induction false} FieldsOfJoin(xs: seq<seq<byte>>, sep: byte)
    requires Separable(xs, sep)
    ensures Fields(Join(xs, sep), sep) == xs
  {
    if xs == [] {
    } else if |xs| == 1 {
      IndexOfUnique(xs[0], sep, |xs[0]|);
      assert xs[0][..|xs[0]|] == xs[0];
      assert xs == [xs[0]];
    } else {
      FieldsOfJoin(xs[1..], sep);
      FieldsStep(xs[0], Join(xs[1..], sep), sep);
      assert Join(xs, sep) == xs[0] + [sep] + Join(xs[1..], sep);
    }
  }

  /** Splitting and joining gives the text back, except that one separator at the end is lost. */
  lemma {:induction false} JoinFields(s: seq<byte>, sep: byte)
    ensures Join(Fields(s, sep), sep) == if s != [] && s[|s| - 1] == sep then s[..|s| - 1] else s
    decreases |s|
  {
    hide Join, Fields, IndexOf;
    var k := IndexOf(s, sep);
    FieldsCut(s, sep);
    JoinFew(s);
    if s != [] && k == |s| {
      WholeCut(s, sep);
    } else if s != [] {
      var rest := s[k + 1..];
      JoinFields(rest, sep);
      FieldsCut(rest, sep);
      JoinHead(s[..k], Fields(rest, sep), sep);
      ChopTail(s, k, sep);
    }
  }

  lemma ChopTail(s: seq<byte>, k: nat, sep: byte)
    requires k < |s| && s[k] == sep
    ensures s[k + 1..] == [] ==> s[|s| - 1] == sep && s[..|s| - 1] == s[..k]
    ensures s[k + 1..] != [] ==> s[|s| - 1] == s[k + 1..][|s| - k - 2]
    ensures s[k + 1..] != [] ==> s[..|s| - 1] == s[..k] + [sep] + s[k + 1..][..|s| - k - 2]
    ensures s == s[..k] + [sep] + s[k + 1..]
  {
  }

  lemma FieldsCut(s: seq<byte>, sep: byte)
    ensures s == [] ==> Fields(s, sep) == []
    ensures s != [] ==> Fields(s, sep) != []
    ensures var k := IndexOf(s, sep);
      s != [] ==> Fields(s, sep) == if k == |s| then [s] else [s[..k]] + Fields(s[k + 1..], sep)
  {
    hide IndexOf;
    assert s[..|s|] == s;
  }

  lemma JoinFew(s: seq<byte>)
    ensures forall sep :: Join([], sep) == [] && Join([s], sep) == s
  {
  }

  lemma WholeCut(s: seq<byte>, sep: byte)
    requires IndexOf(s, sep) == |s|
    ensures s != [] ==> s[|s| - 1] != sep
  {
    assert s[..|s|] == s;
  }

  lemma JoinHead(x: seq<byte>, rest: seq<seq<byte>>, sep: byte)
    ensures Join([x] + rest, sep) == if rest == [] then x else x + [sep] + Join(rest, sep)
  {
    assert ([x] + rest)[1..] == rest;
  }

  lemma {:induction false} JoinSnoc(xs: seq<seq<byte>>, x: seq<byte>, sep: byte)
    requires xs != []
    ensures Join(xs + [x], sep) == Join(xs, sep) + [sep] + x
  {
    if |xs| == 1 {
      assert (xs + [x])[1..] == [x];
    } else {
      assert (xs + [x])[1..] == xs[1..] + [x];
      JoinSnoc(xs[1..], x, sep);
    }
  }

  // ----- big-endian integers --------------------------------------------------------

  function Pow256(k: nat): nat {
    if k == 0 then 1 else 256 * Pow256(k - 1)
  }

  /** htobe64 / htonl followed by memcpy: the low `k` bytes of `n`, most significant first. */
  function BigEndian(n: nat, k: nat): (r: seq<byte>)
    ensures |r| == k
  {
    if k == 0 then [] else BigEndian(n / 256, k - 1) + [n % 256]
  }

  function FromBigEndian(s: seq<byte>): (n: nat)
    ensures n < Pow256(|s|)
  {
    if s == [] then 0 else FromBigEndian(s[..|s| - 1]) * 256 + s[|s| - 1]
  }

  lemma {:induction false} BigEndianDecodes(n: nat, k: nat)
    requires n < Pow256(k)
    ensures FromBigEndian(BigEndian(n, k)) == n
  {
    if k > 0 {
      var r := BigEndian(n, k);
      assert r[..k - 1] == BigEndian(n / 256, k - 1);
      BigEndianDecodes(n / 256, k - 1);
    }
  }

  lemma {:induction false} BigEndianEncodes(s: seq<byte>)
    ensures BigEndian(FromBigEndian(s), |s|) == s
  {
    if s != [] {
      BigEndianEncodes(s[..|s| - 1]);
      var n := FromBigEndian(s);
      assert n / 256 == FromBigEndian(s[..|s| - 1]) && n % 256 == s[|s| - 1];
      assert s == s[..|s| - 1] + [s[|s| - 1]];
    }
  }

  lemma Expand(p: nat, q: nat, m: nat, r: nat, t: nat)
    requires r < q && t < p
    ensures p * (q * m + r) + t == (p * q) * m + (p * r + t)
    ensures 0 < p * q && p * r + t < p * q
  {
    assert p * (q * m) == (p * q) * m;
    assert p * (r + 1) <= p * q;
  }

  lemma Multiples(d: int, e: int)
    requires d >= 0
    ensures e >= 1 ==> d * e >= d
    ensures e <= -1 ==> d * e <= -d
  {
  }

  lemma QuotientIs(n: nat, d: nat, m: nat, rest: nat)
    requires d > 0 && n == d * m + rest && rest < d
    ensures n / d == m
  {
    var q := n / d;
    assert n == d * q + n % d;
    Multiples(d, q - m);
    assert d * (q - m) == d * q - d * m;
  }

  lemma LowByte(x: nat, q: nat, r: byte)
    requires x == 256 * q + r
    ensures x % 256 == r && x / 256 == q
  {
  }

  lemma DivDiv(n: nat, p: nat, q: nat)
    requires p > 0 && q > 0
    ensures p * q > 0 && n / p / q == n / (p * q)
  {
    var a := n / p;
    Nested(n, p, q, a / q, a % q, n % p);
  }

  lemma Nested(n: nat, p: nat, q: nat, m: nat, r: nat, t: nat)
    requires n == p * (q * m + r) + t && r < q && t < p
    ensures p * q > 0 && n / (p * q) == m
  {
    Expand(p, q, m, r, t);
    QuotientIs(n, p * q, m, p * r + t);
  }

  lemma {:induction false} Pow256Positive(k: nat)
    ensures Pow256(k) > 0
  {
    if k > 0 { Pow256Positive(k - 1); }
  }

  /** The digit of weight 256^j. */
  function Digit256(n: nat, j: nat): byte {
    Pow256Positive(j);
    n / Pow256(j) % 256
  }

  /** Byte `i` of a field of `k` bytes has the weight 256^(k-1-i): the most significant comes first. */
  lemma {:induction false} BigEndianAt(n: nat, k: nat, i: nat)
    requires i < k
    ensures BigEndian(n, k)[i] == Digit256(n, k - 1 - i)
  {
    Pow256Positive(k - 1 - i);
    if i < k - 1 {
      BigEndianAt(n / 256, k - 1, i);
      DivDiv(n, 256, Pow256(k - 2 - i));
    } else {
      assert n / 1 == n;
    }
  }

  lemma Pow256Widths()
    ensures Pow256(4) == 0x1_0000_0000 && Pow256(8) == U64
  {
    assert Pow256(2) == 0x1_0000;
    assert Pow256(4) == 0x1_0000_0000;
    assert Pow256(6) == 0x1_0000_0000_0000;
  }

  // ----- decimal text ---------------------------------------------------------------

  predicate IsDigit(b: byte) { DIGIT_0 <= b <= DIGIT_0 + 9 }

  /** printf's %llu and %zu. */
  function Digits(n: nat): (r: seq<byte>)
    ensures r != [] && forall b <- r :: IsDigit(b)
  {
    if n < 10 then [DIGIT_0 + n] else Digits(n / 10) + [DIGIT_0 + n % 10]
  }

  function Pow10(k: nat): nat {
    if k == 0 then 1 else 10 * Pow10(k - 1)
  }

  lemma {:induction false} Pow10Positive(k: nat)
    ensures Pow10(k) > 0
  {
    if k > 0 { Pow10Positive(k - 1); }
  }

  /** Digit `i` of the printed number has the weight 10^(length-1-i), and the first is 0 only in "0". */
  lemma {:induction false} DigitsAt(n: nat, i: nat)
    requires i < |Digits(n)|
    ensures Pow10(|Digits(n)| - 1 - i) > 0
    ensures Digits(n)[i] == DIGIT_0 + n / Pow10(|Digits(n)| - 1 - i) % 10
    ensures Digits(n)[0] == DIGIT_0 ==> n == 0 && |Digits(n)| == 1
  {
    var d := Digits(n);
    Pow10Positive(|d| - 1 - i);
    if n < 10 {
      assert n / 1 == n;
    } else {
      DigitsAt(n / 10, 0);
      if i < |d| - 1 {
        DigitsAt(n / 10, i);
        DivDiv(n, 10, Pow10(|d| - 2 - i));
      } else {
        assert n / 1 == n;
      }
    }
  }

  /** The accumulation ver = ver * 10 + digit in a uint64_t, which wraps. */
  function DecimalValue(s: seq<byte>): u64
    requires forall b <- s :: IsDigit(b)
  {
    if s == [] then 0
    else (DecimalValue(s[..|s| - 1]) * 10 + (s[|s| - 1] - DIGIT_0)) % U64
  }

  lemma {:induction false} DecimalRoundTrip(n: u64)
    ensures DecimalValue(Digits(n)) == n
    decreases n
  {
    var r := Digits(n);
    if n < 10 {
      assert r[..0] == [];
      assert DecimalValue(r[..0]) == 0;
    } else {
      assert r[..|r| - 1] == Digits(n / 10);
      DecimalRoundTrip(n / 10);
    }
  }

  lemma {:induction false} DigitsInjective(m: nat, n: nat)
    requires Digits(m) == Digits(n)
    ensures m == n
  {
    var a, b := Digits(m), Digits(n);
    assert a[|a| - 1] == b[|b| - 1];
    if m >= 10 && n >= 10 {
      assert a[..|a| - 1] == Digits(m / 10) && b[..|b| - 1] == Digits(n / 10);
      DigitsInjective(m / 10, n / 10);
    }
  }

  // ----- exclusive or ---------------------------------------------------------------

  /** Bitwise exclusive or of two unsigned integers, digit by binary digit. */
  function Xor(a: nat, b: nat): nat
    decreases a + b
  {
    if a == 0 && b == 0 then 0
    else 2 * Xor(a / 2, b / 2) + (a % 2 + b % 2) % 2
  }

  lemma XorUnfold(a: nat, b: nat)
    ensures Xor(a, b) == 2 * Xor(a / 2, b / 2) + Bit(a, b)
    ensures Xor(a, b) / 2 == Xor(a / 2, b / 2) && Xor(a, b) % 2 == Bit(a, b)
    ensures Xor(0, 0) == 0
  {
  }

  function Bit(a: nat, b: nat): nat {
    (a % 2 + b % 2) % 2
  }

  lemma {:induction false} XorSymmetric(a: nat, b: nat)
    ensures Xor(a, b) == Xor(b, a)
    decreases a + b
  {
    if a != 0 || b != 0 { XorSymmetric(a / 2, b / 2); }
  }

  lemma {:induction false} XorZeroIffEqual(a: nat, b: nat)
    ensures Xor(a, b) == 0 <==> a == b
    decreases a + b
  {
    if a != 0 || b != 0 { XorZeroIffEqual(a / 2, b / 2); }
  }

  /** x -> x ^ c is its own inverse. */
  lemma {:induction false} XorCancels(a: nat, c: nat)
    ensures Xor(Xor(a, c), c) == a
    decreases a + c
  {
    hide Xor;
    XorUnfold(a, c);
    XorUnfold(Xor(a, c), c);
    if a != 0 || c != 0 { XorCancels(a / 2, c / 2); }
  }

  lemma {:induction false} XorInjective(a: nat, b: nat, c: nat)
    requires Xor(a, c) == Xor(b, c)
    ensures a == b
  {
    XorCancels(a, c);
    XorCancels(b, c);
  }

  lemma BitTriangle(a: nat, b: nat, c: nat)
    ensures Bit(a, c) <= Bit(a, b) + Bit(b, c)
  {
  }

  lemma {:induction false} XorTriangle(a: nat, b: nat, c: nat)
    ensures Xor(a, c) <= Xor(a, b) + Xor(b, c)
    decreases a + b + c
  {
    hide Xor, Bit;
    XorUnfold(a, c);
    XorUnfold(a, b);
    XorUnfold(b, c);
    BitTriangle(a, b, c);
    if a != 0 || b != 0 || c != 0 { XorTriangle(a / 2, b / 2, c / 2); }
  }

  lemma {:induction false} XorBound(a: nat, b: nat, k: nat)
    requires a < Pow2(k) && b < Pow2(k)
    ensures Xor(a, b) < Pow2(k)
  {
    if k > 0 {
      XorBound(a / 2, b / 2, k - 1);
      XorUnfold(a, b);
    }
  }

  function Pow2(k: nat): nat {
    if k == 0 then 1 else 2 * Pow2(k - 1)
  }

  /** Bit by bit, the exclusive or is 1 exactly where the two numbers differ. */
  lemma {:induction false} XorBit(a: nat, b: nat, i: nat)
    ensures Pow2(i) > 0
    ensures Xor(a, b) / Pow2(i) % 2 == if a / Pow2(i) % 2 == b / Pow2(i) % 2 then 0 else 1
  {
    if i == 0 {
      XorUnfold(a, b);
      assert a / 1 == a && b / 1 == b && Xor(a, b) / 1 == Xor(a, b);
    } else {
      XorBit(a / 2, b / 2, i - 1);
      XorUnfold(a, b);
      hide Xor;
      DivDiv(a, 2, Pow2(i - 1));
      DivDiv(b, 2, Pow2(i - 1));
      DivDiv(Xor(a, b), 2, Pow2(i - 1));
    }
  }

  lemma XorLow(q: nat, r: nat, b: nat)
    requires r < 256 && b < 256
    ensures Xor(256 * q + r, b) == 256 * q + Xor(r, b)
  {
    XorShift(q, r, b, 8);
  }

  lemma {:induction false} XorZero(a: nat)
    ensures Xor(a, 0) == a
  {
    if a > 0 { XorZero(a / 2); }
  }

  lemma {:induction false} XorShift(q: nat, r: nat, b: nat, k: nat)
    requires r < Pow2(k) && b < Pow2(k)
    ensures Xor(Pow2(k) * q + r, b) == Pow2(k) * q + Xor(r, b)
  {
    hide Xor;
    if k == 0 {
      XorZero(q);
      XorZero(0);
    } else {
      var a := Pow2(k) * q + r;
      assert a / 2 == Pow2(k - 1) * q + r / 2 && a % 2 == r % 2 by { HalfOf(Pow2(k - 1) * q, r); }
      XorShift(q, r / 2, b / 2, k - 1);
      XorUnfold(a, b);
      XorUnfold(r, b);
    }
  }

  lemma HalfOf(x: nat, r: nat)
    ensures (2 * x + r) / 2 == x + r / 2 && (2 * x + r) % 2 == r % 2
  {
  }

  lemma {:induction false} Pow2Adds(i: nat, j: nat)
    ensures Pow2(i + j) == Pow2(i) * Pow2(j)
  {
    if i > 0 {
      Pow2Adds(i - 1, j);
      calc {
        Pow2(i + j);
      == 2 * Pow2((i - 1) + j);
      == 2 * (Pow2(i - 1) * Pow2(j));
      == Pow2(i) * Pow2(j);
      }
    }
  }

  lemma Pow2Of64()
    ensures Pow2(64) == U64
  {
    assert Pow2(8) == 256;
    Pow2Adds(8, 8);
    Pow2Adds(16, 16);
    Pow2Adds(32, 32);
  }

  lemma Xor64(a: u64, b: u64)
    ensures Xor(a, b) < U64
  {
    Pow2Of64();
    XorBound(a, b, 64);
  }
}
