/** Bytes, the unsigned integers of the original, and their little-endian layout. */
module Bytes {

  newtype byte = x: int | 0 <= x < 256

  const TWO_16 := 0x1_0000
  const TWO_32 := 0x1_0000_0000
  const TWO_63 := 0x8000_0000_0000_0000
  const TWO_64 := 0x1_0000_0000_0000_0000

  type u16 = x: int | 0 <= x < 0x1_0000
  type u64 = x: int | 0 <= x < 0x1_0000_0000_0000_0000

  function Power256(k: nat): (p: nat)
    ensures p > 0
  {
    if k == 0 then 1 else 256 * Power256(k - 1)
  }

  /** The low k bytes of n, least significant first. */
  function Put(n: nat, k: nat): (s: seq<byte>)
    ensures |s| == k
    decreases k
  {
    if k == 0 then [] else [(n % 256) as byte] + Put(n / 256, k - 1)
  }

  /** The number whose bytes are s, least significant first. */
  function Get(s: seq<byte>): nat {
    if s == [] then 0 else s[0] as nat + 256 * Get(s[1..])
  }

  /** Reading back k bytes gives the number modulo 256^k. */
  lemma {:induction false} GetPut(n: nat, k: nat)
    ensures Get(Put(n, k)) == n % Power256(k)
    decreases k
  {
    if k > 0 {
      var p := Power256(k - 1);
      GetPut(n / 256, k - 1);
      assert Put(n, k)[1..] == Put(n / 256, k - 1);
      ModSplit(n, p);
    }
  }

  /** The least significant byte comes first: byte i is digit i of the number to the base of 256. */
  lemma {:induction false} PutDigit(n: nat, k: nat, i: nat)
    requires i < k
    ensures Put(n, k)[i] as nat == (n / Power256(i)) % 256
    decreases k
  {
    if i > 0 {
      PutDigit(n / 256, k - 1, i - 1);
      assert Put(n, k)[i] == Put(n / 256, k - 1)[i - 1];
      DivTwice(n, Power256(i - 1));
    }
  }

  lemma DivTwice(n: nat, p: nat)
    requires p > 0
    ensures (n / 256) / p == n / (256 * p)
  {
    var q, r := n / 256, n % 256;
    var a, b := q / p, q % p;
    assert q == a * p + b;
    assert n == a * (256 * p) + (256 * b + r);
    ModUnique(n, 256 * p, a, 256 * b + r);
  }

  lemma {:induction false} GetBound(s: seq<byte>)
    ensures Get(s) < Power256(|s|)
  {
    if s != [] {
      GetBound(s[1..]);
    }
  }

  lemma ModSplit(n: nat, p: nat)
    requires p > 0
    ensures n % (256 * p) == n % 256 + 256 * ((n / 256) % p)
  {
    var q, r := n / 256, n % 256;
    var a, b := q / p, q % p;
    assert q == a * p + b;
    assert n == a * (256 * p) + (256 * b + r);
    ModUnique(n, 256 * p, a, 256 * b + r);
  }

  lemma ModUnique(n: int, m: int, a: int, r: int)
    requires m > 0 && 0 <= r < m && n == a * m + r
    ensures n % m == r && n / m == a
  {
    var d := n / m - a;
    assert n == (n / m) * m + n % m;
    assert d * m == r - n % m;
    AtLeast(d, m);
  }

  lemma AtLeast(d: int, m: int)
    requires m > 0
    ensures d >= 1 ==> d * m >= m
    ensures d <= -1 ==> d * m <= -m
  {
  }

  lemma Powers()
    ensures Power256(0) == 1 && Power256(1) == 256 && Power256(2) == TWO_16 && Power256(3) == 16777216
    ensures Power256(4) == TWO_32 && Power256(8) == TWO_64
  {
    assert Power256(1) == 256 * Power256(0);
    assert Power256(3) == 256 * Power256(2);
    assert Power256(4) == 256 * Power256(3);
    assert Power256(5) == 256 * Power256(4);
    assert Power256(6) == 256 * Power256(5);
    assert Power256(7) == 256 * Power256(6);
  }

  /** s with the bytes of src written over it from position at. */
  function Overwrite(s: seq<byte>, at: int, src: seq<byte>): (r: seq<byte>)
    requires 0 <= at && at + |src| <= |s|
    ensures |r| == |s|
  {
    s[..at] + src + s[at + |src|..]
  }

  /** The built-in copy into dst[at:]: as many bytes of src as fit. */
  method CopyInto(dst: array<byte>, at: int, src: seq<byte>) returns (n: int)
    requires 0 <= at <= dst.Length
    modifies dst
    ensures n == if |src| <= dst.Length - at then |src| else dst.Length - at
    ensures dst[..] == Overwrite(old(dst[..]), at, src[..n])
  {
    n := if |src| <= dst.Length - at then |src| else dst.Length - at;
    forall i | 0 <= i < n {
      dst[at + i] := src[i];
    }
  }

  /** The four parts of a concatenation. */
  lemma Parts(a: seq<byte>, b: seq<byte>, c: seq<byte>, d: seq<byte>)
    ensures var s := a + b + c + d;
      && s[..|a|] == a
      && s[|a|..|a| + |b|] == b
      && s[|a| + |b|..|a| + |b| + |c|] == c
      && s[|a| + |b| + |c|..] == d
  {
  }

  /** Writes src into dst[at:], which has room for it; the bytes written so far are a prefix. */
  method WriteAt(dst: array<byte>, at: int, src: seq<byte>)
    requires 0 <= at && at + |src| <= dst.Length
    modifies dst
    ensures dst[..at + |src|] == old(dst[..at]) + src
  {
    var n := CopyInto(dst, at, src);
    assert src[..n] == src;
  }
}
