/** The 64-bit FNV-1a hash (section 2 of draft-eastlake-fnv) used for content names and DHT ids. */
module Fnv {
  import opened Bytes

  const OFFSET_BASIS: u64 := 14695981039346656037
  const PRIME: u64 := 1099511628211
  /** The inverse of PRIME modulo 2^64. */
  const PRIME_INVERSE: nat := 14886173955864302971

  /** One byte of the fold: hash ^= b; hash *= prime, modulo 2^64. */
  function Step(h: u64, b: byte): u64 {
    (Xor(h, b) * PRIME) % U64
  }

  function Fold(h: u64, s: seq<byte>): u64 {
    if s == [] then h else Step(Fold(h, s[..|s| - 1]), s[|s| - 1])
  }

  function Hash(s: seq<byte>): u64 { Fold(OFFSET_BASIS, s) }

  /** fnv1a_hash. */
  method Fnv1aHash(data: seq<byte>) returns (hash: u64)
    ensures hash == Hash(data)
  {
    hash := OFFSET_BASIS;
    for i := 0 to |data|
      invariant hash == Hash(data[..i])
    {
      hash := Step(hash, data[i]);
      assert data[..i + 1][..i] == data[..i];
    }
    assert data[..|data|] == data;
  }

  // ----- the fold loses nothing -----------------------------------------------------

  lemma {:induction false} UniqueRemainder(x: u64, y: u64, z: int)
    requires x == y + U64 * z
    ensures x == y
  {
  }

  lemma {:induction false} Cofactor(x: int, p: int, q: int, m: int, w: int, d: int)
    requires p * q == 1 + m * w && x * p == m * d
    ensures x == m * (d * q - x * w)
  {
    calc {
      x;
    == x * (p * q) - x * (m * w);
    == (x * p) * q - x * (m * w);
    == m * (d * q) - m * (x * w);
    }
  }

  /** Multiplying by the odd prime is injective modulo 2^64. */
  lemma {:induction false} PrimeMultiplicationInjective(x: u64, y: u64)
    requires (x * PRIME) % U64 == (y * PRIME) % U64
    ensures x == y
  {
    var d := x * PRIME / U64 - y * PRIME / U64;
    assert (x - y) * PRIME == U64 * d;
    var w := (PRIME * PRIME_INVERSE - 1) / U64;
    assert PRIME * PRIME_INVERSE == 1 + U64 * w;
    Cofactor(x - y, PRIME, PRIME_INVERSE, U64, w, d);
    UniqueRemainder(x, y, d * PRIME_INVERSE - (x - y) * w);
  }

  lemma {:induction false} StepInjectiveInState(h: u64, k: u64, b: byte)
    requires Step(h, b) == Step(k, b)
    ensures h == k
  {
    Xor64(h, b);
    Xor64(k, b);
    PrimeMultiplicationInjective(Xor(h, b), Xor(k, b));
    XorInjective(h, k, b);
  }

  lemma {:induction false} StepInjectiveInByte(h: u64, a: byte, b: byte)
    requires Step(h, a) == Step(h, b)
    ensures a == b
  {
    Xor64(h, a);
    Xor64(h, b);
    PrimeMultiplicationInjective(Xor(h, a), Xor(h, b));
    XorSymmetric(h, a);
    XorSymmetric(h, b);
    XorInjective(a, b, h);
  }

  /** Folding any text is a permutation of the hash states. */
  lemma {:induction false} FoldInjectiveInState(h: u64, k: u64, s: seq<byte>)
    requires Fold(h, s) == Fold(k, s)
    ensures h == k
  {
    if s != [] {
      StepInjectiveInState(Fold(h, s[..|s| - 1]), Fold(k, s[..|s| - 1]), s[|s| - 1]);
      FoldInjectiveInState(h, k, s[..|s| - 1]);
    }
  }

  lemma {:induction false} FoldConcat(h: u64, s: seq<byte>, t: seq<byte>)
    ensures Fold(h, s + t) == Fold(Fold(h, s), t)
  {
    if t == [] {
      assert s + t == s;
    } else {
      assert (s + t)[..|s + t| - 1] == s + t[..|t| - 1];
      FoldConcat(h, s, t[..|t| - 1]);
    }
  }

  /** Two texts of one length that differ in exactly one byte never share a hash. */
  lemma {:induction false} OneByteChangesHash(s: seq<byte>, t: seq<byte>, k: nat)
    requires |s| == |t| && k < |s| && s[k] != t[k]
    requires forall i :: 0 <= i < |s| && i != k ==> s[i] == t[i]
    ensures Hash(s) != Hash(t)
  {
    var p, q := s[..k], s[k + 1..];
    assert s == p + [s[k]] + q && t == p + [t[k]] + q;
    FoldConcat(OFFSET_BASIS, p + [s[k]], q);
    FoldConcat(OFFSET_BASIS, p + [t[k]], q);
    if Hash(s) == Hash(t) {
      FoldInjectiveInState(Hash(p + [s[k]]), Hash(p + [t[k]]), q);
      assert (p + [s[k]])[..k] == p && (p + [t[k]])[..k] == p;
      StepInjectiveInByte(Hash(p), s[k], t[k]);
    }
  }

  // ----- published values -----------------------------------------------------------

  lemma EmptyHash()
    ensures Hash([]) == 0xcbf29ce484222325
  {
  }

  /** The value the standard publishes for "a": exclusive or first, then the multiplication. */
  lemma HashOfA()
    ensures Hash(Ascii("a")) == 0xaf63dc4c8601ec8c
  {
    hide Xor;
    assert Ascii("a") == [97] && [97][..0] == [];
    XorLow(OFFSET_BASIS / 256, OFFSET_BASIS % 256, 97);
    XorSmall();
    FoldOne(97);
    assert Xor(OFFSET_BASIS, 97) == 0xcbf29ce484222344;
  }

  lemma FoldOne(b: byte)
    ensures Hash([b]) == (Xor(OFFSET_BASIS, b) * PRIME) % U64
  {
    hide Xor;
    assert [b][..0] == [] && Fold(OFFSET_BASIS, []) == OFFSET_BASIS;
    assert [b][|[b]| - 1] == b;
  }

  lemma XorSmall()
    ensures Xor(0x25, 97) == 0x44
  {
    assert Xor(0, 0) == 0;
    assert Xor(0, 1) == 1;
    assert Xor(1, 3) == 2;
    assert Xor(2, 6) == 4;
    assert Xor(4, 12) == 8;
    assert Xor(9, 24) == 17;
    assert Xor(18, 48) == 34;
    assert Xor(37, 97) == 68;
  }
}
