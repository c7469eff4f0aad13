/**
 * Unsigned big-endian integers over byte strings: the conversion Python performs
 * with int.from_bytes(b, "big") (Web3.to_int on bytes) and its inverse, the
 * fixed-width encoding the Ethereum Contract ABI uses for uint256 words.
 */
module BigEndian {

  type uint8 = b: int | 0 <= b < 256

  /** 256^n, the number of distinct values an n-byte string can hold. */
  function Pow256(n: nat): (p: nat)
    ensures p >= 1
  {
    if n == 0 then 1 else 256 * Pow256(n - 1)
  }

  lemma {:induction false} Pow256Grows(m: nat, n: nat)
    requires m <= n
    ensures Pow256(m) <= Pow256(n)
  {
    if m < n {
      Pow256Grows(m, n - 1);
    }
  }

  /** The unsigned value of s read most significant byte first. */
  function ToNat(s: seq<uint8>): (n: nat)
    ensures n < Pow256(|s|)
  {
    if |s| == 0 then 0
    else
      var hi := ToNat(s[..|s| - 1]);
      assert hi <= Pow256(|s| - 1) - 1;
      assert hi * 256 <= Pow256(|s| - 1) * 256 - 256;
      hi * 256 + s[|s| - 1]
  }

  /** The len-byte big-endian encoding of n (n must fit in len bytes). */
  function FromNat(n: nat, len: nat): (s: seq<uint8>)
    requires n < Pow256(len)
    ensures |s| == len
  {
    if len == 0 then []
    else
      assert n / 256 < Pow256(len - 1) by { DivBound(n, Pow256(len - 1)); }
      FromNat(n / 256, len - 1) + [n % 256]
  }

  lemma DivBound(n: nat, p: nat)
    requires n < 256 * p
    ensures n / 256 < p
  {
  }

  /** Decoding an encoding gives back the number. */
  lemma {:induction false} ToNatFromNat(n: nat, len: nat)
    requires n < Pow256(len)
    ensures ToNat(FromNat(n, len)) == n
  {
    if len > 0 {
      var s := FromNat(n, len);
      var q, r := n / 256, n % 256;
      assert q < Pow256(len - 1) by { DivBound(n, Pow256(len - 1)); }
      assert s == FromNat(q, len - 1) + [r];
      assert s[..len - 1] == FromNat(q, len - 1) && s[len - 1] == r;
      ToNatFromNat(q, len - 1);
      assert ToNat(s) == q * 256 + r;
    }
  }

  /** Encoding the value of s at the width of s gives back s: no two byte strings
      of one length have the same value. */
  lemma {:induction false} FromNatToNat(s: seq<uint8>)
    ensures FromNat(ToNat(s), |s|) == s
  {
    if |s| > 0 {
      var init, last := s[..|s| - 1], s[|s| - 1];
      var n := ToNat(s);
      assert n == ToNat(init) * 256 + last;
      assert n / 256 == ToNat(init) && n % 256 == last;
      FromNatToNat(init);
      assert s == init + [last];
    }
  }

  lemma ToNatInjective(s: seq<uint8>, t: seq<uint8>)
    requires |s| == |t| && ToNat(s) == ToNat(t)
    ensures s == t
  {
    FromNatToNat(s);
    FromNatToNat(t);
  }

  /** The first byte is the most significant: it counts 256^(number of bytes
      after it) times. */
  lemma {:induction false} ToNatCons(b: uint8, s: seq<uint8>)
    ensures ToNat([b] + s) == b * Pow256(|s|) + ToNat(s)
    decreases |s|
  {
    if |s| > 0 {
      var init := s[..|s| - 1];
      assert ([b] + s)[..|s|] == [b] + init;
      ToNatCons(b, init);
      var p, x, last := Pow256(|init|), ToNat(init), s[|s| - 1];
      assert ToNat([b] + s) == ToNat([b] + init) * 256 + last;
      assert ToNat(s) == x * 256 + last;
      assert Pow256(|s|) == 256 * p;
      ShiftByte(b, p, x, last);
    }
  }

  lemma ShiftByte(b: int, p: int, x: int, last: int)
    ensures (b * p + x) * 256 + last == b * (256 * p) + (x * 256 + last)
  {
  }

  /** Python's slice b[lo:hi] for 0 <= lo <= hi: the bounds are clamped to the length. */
  function Slice(b: seq<uint8>, lo: nat, hi: nat): (r: seq<uint8>)
    requires lo <= hi
    ensures |r| == (if lo >= |b| then 0 else (if hi <= |b| then hi else |b|) - lo)
    ensures forall k :: 0 <= k < |r| ==> r[k] == b[lo + k]
  {
    if hi <= |b| then b[lo..hi] else if lo <= |b| then b[lo..] else []
  }
}
