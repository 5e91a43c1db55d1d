/** The default hasher: 64-bit FNV-1a. */
module Fnv {
  import opened Bytes
  import opened Bits

  const OFFSET64: u64 := 14695981039346656037
  const PRIME64 := 1099511628211

  /** The inverse of PRIME64 modulo 2^64, which exists because PRIME64 is odd. */
  const INVERSE := 14886173955864302971

  function Round(hash: u64, b: byte): u64 {
    (Xor(hash, b as nat) * PRIME64) % TWO_64
  }

  /** The state that a round started from. */
  function Unround(hash: u64, b: byte): nat {
    Xor((hash * INVERSE) % TWO_64, b as nat)
  }

  /** The state after hashing key from a given state. */
  function Fold(hash: u64, key: seq<byte>): u64 {
    if key == [] then hash else Round(Fold(hash, key[..|key| - 1]), key[|key| - 1])
  }

  method Sum64(key: seq<byte>) returns (hash: u64)
    ensures hash == Fold(OFFSET64, key)
  {
    hash := OFFSET64;
    var i := 0;
    while i < |key|
      invariant 0 <= i <= |key| && hash == Fold(OFFSET64, key[..i])
    {
      var x := Xor(hash, key[i] as nat);
      hash := (x * PRIME64) % TWO_64;
      assert key[..i + 1][..i] == key[..i];
      i := i + 1;
    }
    assert key[..i] == key;
  }

  // ---------------------------------------------------------------- arithmetic modulo 2^64

  lemma InverseOfPrime()
    ensures PRIME64 * INVERSE == 887285111055 * TWO_64 + 1
  {
  }

  /** Multiplying by PRIME64 and then by its inverse is the identity on 64-bit numbers. */
  lemma TimesPrimeTimesInverse(x: u64, p: nat, q: nat, c: nat)
    requires p * q == c * TWO_64 + 1
    ensures (((x * p) % TWO_64) * q) % TWO_64 == x
  {
    var a, r := (x * p) / TWO_64, (x * p) % TWO_64;
    assert x * p == a * TWO_64 + r;
    assert r * q == (x * c - a * q) * TWO_64 + x by {
      calc {
        r * q;
        (x * p - a * TWO_64) * q;
        x * (p * q) - a * TWO_64 * q;
        x * (c * TWO_64 + 1) - a * TWO_64 * q;
        (x * c - a * q) * TWO_64 + x;
      }
    }
    ModUnique(r * q, TWO_64, x * c - a * q, x);
  }

  lemma XorFits(h: nat, b: byte)
    requires h < TWO_64
    ensures Xor(h, b as nat) < TWO_64
  {
    Power64();
    XorBound(h, b as nat, 64);
  }

  lemma Power64()
    ensures Power2(64) == TWO_64
  {
    assert Power2(8) == 256;
    PowerSum(8, 8);
    PowerSum(16, 16);
    PowerSum(32, 32);
  }

  lemma {:induction false} PowerSum(a: nat, b: nat)
    ensures Power2(a + b) == Power2(a) * Power2(b)
    decreases a
  {
    if a > 0 {
      PowerSum(a - 1, b);
    }
  }

  // ---------------------------------------------------------------- rounds are bijections

  /** Each round, for a given byte, is a bijection of the 64-bit states. */
  lemma RoundInverts(h: u64, b: byte)
    ensures Unround(Round(h, b), b) == h
    ensures Unround(h, b) < TWO_64 && Round(Unround(h, b), b) == h
  {
    hide Xor;
    InverseOfPrime();
    XorFits(h, b);
    TimesPrimeTimesInverse(Xor(h, b as nat), PRIME64, INVERSE, 887285111055);
    XorTwice(h, b as nat);
    var y := (h * INVERSE) % TWO_64;
    XorFits(y, b);
    XorTwice(y, b as nat);
    TimesPrimeTimesInverse(h, INVERSE, PRIME64, 887285111055);
  }

  /** From one state, different bytes lead to different states. */
  lemma RoundSeparates(h: u64, a: byte, b: byte)
    requires a != b
    ensures Round(h, a) != Round(h, b)
  {
    hide Xor;
    if Round(h, a) == Round(h, b) {
      InverseOfPrime();
      XorFits(h, a);
      XorFits(h, b);
      TimesPrimeTimesInverse(Xor(h, a as nat), PRIME64, INVERSE, 887285111055);
      TimesPrimeTimesInverse(Xor(h, b as nat), PRIME64, INVERSE, 887285111055);
      XorCommutes(h, a as nat);
      XorCommutes(h, b as nat);
      XorTwice(a as nat, h);
      XorTwice(b as nat, h);
    }
  }

  lemma {:induction false} FoldInjective(g: u64, h: u64, key: seq<byte>)
    ensures Fold(g, key) == Fold(h, key) <==> g == h
    decreases |key|
  {
    if key != [] {
      var init, b := key[..|key| - 1], key[|key| - 1];
      FoldInjective(g, h, init);
      RoundInverts(Fold(g, init), b);
      RoundInverts(Fold(h, init), b);
    }
  }

  lemma {:induction false} FoldConcat(h: u64, a: seq<byte>, b: seq<byte>)
    ensures Fold(h, a + b) == Fold(Fold(h, a), b)
    decreases |b|
  {
    if b == [] {
      assert a + b == a;
    } else {
      FoldConcat(h, a, b[..|b| - 1]);
      assert (a + b)[..|a + b| - 1] == a + b[..|b| - 1];
    }
  }

  // ---------------------------------------------------------------- hashes of keys

  function Hash(key: seq<byte>): u64 { Fold(OFFSET64, key) }

  lemma KnownXor()
    ensures Xor(0xcbf29ce484222325, 97) == 0xcbf29ce484222344
  {
    hide Xor;
    XorStep(14695981039346656037, 97);
    XorStep(7347990519673328018, 48);
    XorStep(3673995259836664009, 24);
    XorStep(1836997629918332004, 12);
    XorStep(918498814959166002, 6);
    XorStep(459249407479583001, 3);
    XorStep(229624703739791500, 1);
    XorZero(114812351869895750);
  }

  /** The hashes of the empty key and of the key "a", as they are published. */
  lemma KnownHashes()
    ensures Hash([]) == 0xcbf29ce484222325 && Hash([97]) == 0xaf63dc4c8601ec8c
  {
    hide Xor;
    KnownXor();
    var key: seq<byte> := [97];
    assert key[..0] == [];
    assert Fold(OFFSET64, key) == Round(OFFSET64, 97);
  }

  /** Appending the same bytes to two keys preserves both equality and inequality of their hashes. */
  lemma CommonSuffix(a: seq<byte>, b: seq<byte>, suffix: seq<byte>)
    ensures Hash(a + suffix) == Hash(b + suffix) <==> Hash(a) == Hash(b)
  {
    FoldConcat(OFFSET64, a, suffix);
    FoldConcat(OFFSET64, b, suffix);
    FoldInjective(Hash(a), Hash(b), suffix);
  }

  /** Two keys of the same length that differ in exactly one byte never collide. */
  lemma OneByteApart(a: seq<byte>, b: seq<byte>, i: nat)
    requires |a| == |b| && i < |a| && a[i] != b[i]
    requires forall j :: 0 <= j < |a| && j != i ==> a[j] == b[j]
    ensures Hash(a) != Hash(b)
  {
    hide Round;
    var init := a[..i];
    assert a == init + [a[i]] + a[i + 1..] && b == init + [b[i]] + a[i + 1..];
    CommonSuffix(init + [a[i]], init + [b[i]], a[i + 1..]);
    assert (init + [a[i]])[..i] == init && (init + [b[i]])[..i] == init;
    RoundSeparates(Hash(init), a[i], b[i]);
  }
}
