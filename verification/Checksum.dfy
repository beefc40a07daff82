/**
  The frame checksum of boot_fdl.c: the Internet checksum of RFC 1071 over little-endian 16-bit
  words, computed with deferred carries.
*/
module Checksum {

  import opened Words

  type byte = x: int | 0 <= x < 0x100

  const M16: nat := 0x1_0000

  /** The two bytes of a 16-bit number, least significant first. */
  function Le16(n: nat): (s: seq<byte>)
    requires n < M16
    ensures |s| == 2
  {
    [n % 0x100, n / 0x100]
  }

  /** The two bytes of a 16-bit number, most significant first. */
  function Be16(n: nat): (s: seq<byte>)
    requires n < M16
    ensures |s| == 2
  {
    [n / 0x100, n % 0x100]
  }

  function LeValue(lo: byte, hi: byte): (n: nat)
    ensures n < M16
  {
    lo + 0x100 * hi
  }

  // ----- the specification -----

  /** Addition with end-around carry, section 1 of RFC 1071. */
  function OnesAdd(a: nat, b: nat): (r: nat)
    requires a < M16 && b < M16
    ensures r < M16
  {
    if a + b < M16 then a + b else a + b - (M16 - 1)
  }

  /** The one's complement sum of the 16-bit words; an odd byte is padded with zero. */
  function OnesSum(d: seq<byte>): (r: nat)
    ensures r < M16
    decreases |d|
  {
    if |d| == 0 then 0
    else if |d| == 1 then d[0]
    else OnesAdd(LeValue(d[0], d[1]), OnesSum(d[2..]))
  }

  function Internet(d: seq<byte>): (r: nat)
    ensures r < M16
  {
    M16 - 1 - OnesSum(d)
  }

  // ----- deferring the carries -----

  /** The plain sum of the words. */
  function PlainSum(d: seq<byte>): nat
    decreases |d|
  {
    if |d| == 0 then 0
    else if |d| == 1 then d[0]
    else LeValue(d[0], d[1]) + PlainSum(d[2..])
  }

  /** The end-around folding of a sum: 0 only for 0, otherwise the residue in 1 .. 65535. */
  function Fold(sum: nat): (r: nat)
    ensures r < M16
  {
    if sum == 0 then 0 else (sum - 1) % (M16 - 1) + 1
  }

  lemma FoldAdd(w: nat, sum: nat)
    requires w < M16
    ensures OnesAdd(w, Fold(sum)) == Fold(w + sum)
  {
    if sum > 0 {
      var q, r := (sum - 1) / (M16 - 1), (sum - 1) % (M16 - 1);
      assert w + sum - 1 == q * (M16 - 1) + (r + w);
      if r + w < M16 - 1 {
        Residue(q, r + w);
      } else {
        assert w + sum - 1 == (q + 1) * (M16 - 1) + (r + w - (M16 - 1));
        if r + w - (M16 - 1) < M16 - 1 {
          Residue(q + 1, r + w - (M16 - 1));
        }
      }
    } else if w > 0 {
      Residue(0, w - 1);
    }
  }

  lemma Residue(q: nat, r: nat)
    requires r < M16 - 1
    ensures (q * (M16 - 1) + r) % (M16 - 1) == r
  {
  }

  lemma {:induction false} DeferredCarries(d: seq<byte>)
    ensures OnesSum(d) == Fold(PlainSum(d))
    decreases |d|
  {
    hide OnesAdd, Fold, LeValue;
    if |d| == 0 {
      FoldSmall(0);
    } else if |d| == 1 {
      FoldSmall(d[0]);
    } else {
      DeferredCarries(d[2..]);
      FoldAdd(LeValue(d[0], d[1]), PlainSum(d[2..]));
    }
  }

  lemma FoldSmall(sum: nat)
    requires sum < M16
    ensures Fold(sum) == sum
  {
    if sum > 0 {
      Residue(0, sum - 1);
    }
  }

  /** Folding a 32-bit sum twice and keeping 16 bits folds it completely. */
  lemma TwoFoldsSuffice(sum: nat)
    requires sum < TWO32
    ensures var once := sum / M16 + sum % M16;
            once + once / M16 < TWO32 && (once + once / M16) % M16 == Fold(sum)
  {
    var h, l := sum / M16, sum % M16;
    assert sum == h * (M16 - 1) + (h + l);
    if 0 < h + l < M16 {
      Residue(h, h + l - 1);
    } else if h + l >= M16 {
      assert sum - 1 == (h + 1) * (M16 - 1) + (h + l - M16);
      Residue(h + 1, h + l - M16);
    }
  }

  // ----- what makes it a checksum -----

  lemma {:induction false} PlainSumBound(d: seq<byte>)
    ensures PlainSum(d) <= (|d| + 1) / 2 * (M16 - 1)
    decreases |d|
  {
    if |d| > 1 {
      PlainSumBound(d[2..]);
      assert (|d[2..]| + 1) / 2 == (|d| + 1) / 2 - 1;
    }
  }

  lemma {:induction false} PlainSumConcat(a: seq<byte>, b: seq<byte>)
    requires |a| % 2 == 0
    ensures PlainSum(a + b) == PlainSum(a) + PlainSum(b)
    decreases |a|
  {
    if a == [] {
      assert a + b == b;
    } else {
      PlainSumConcat(a[2..], b);
      assert (a + b)[2..] == a[2..] + b;
    }
  }

  /** The checksum and the sum of the words add up to a multiple of 65535. */
  lemma ChecksumCancels(d: seq<byte>) returns (k: nat)
    ensures k > 0 && Internet(d) + PlainSum(d) == k * (M16 - 1)
  {
    DeferredCarries(d);
    hide OnesSum, PlainSum;
    var s := PlainSum(d);
    if s == 0 {
      k := 1;
    } else {
      k := (s - 1) / (M16 - 1) + 1;
    }
  }

  /** Appended to a message of even length, the checksum makes the sum all ones. */
  lemma ChecksumVerifies(d: seq<byte>)
    requires |d| % 2 == 0
    ensures OnesSum(d + Le16(Internet(d))) == M16 - 1
  {
    hide OnesSum, PlainSum, Internet, Le16, Fold;
    var tail := Le16(Internet(d));
    PlainSumConcat(d, tail);
    TailSum(Internet(d));
    DeferredCarries(d + tail);
    var k := ChecksumCancels(d);
    FullFold(k);
  }

  lemma TailSum(n: nat)
    requires n < M16
    ensures PlainSum(Le16(n)) == n
  {
    assert Le16(n)[2..] == [];
    assert n % 0x100 + 0x100 * (n / 0x100) == n;
  }

  lemma FullFold(k: nat)
    requires k > 0
    ensures Fold(k * (M16 - 1)) == M16 - 1
  {
    assert k * (M16 - 1) - 1 == (k - 1) * (M16 - 1) + (M16 - 2);
    Residue(k - 1, M16 - 2);
  }

  // ----- the unrolled loop -----

  /** The sum is a 32-bit variable; it does not overflow for any frame. */
  method CalcCrc16Frm(src: seq<byte>) returns (crc: nat)
    requires |src| <= 0x2_0000
    ensures crc == Internet(src)
  {
    PlainSumBound(src);
    hide PlainSum, Internet, Fold, LeValue;
    var sum: nat := 0;
    var at: nat := 0;
    var len: nat := |src|;
    while len > 3
      invariant at + len == |src| && sum < TWO32
      invariant sum + PlainSum(src[at..]) == PlainSum(src)
    {
      TwoWords(src, at);
      sum := sum + LeValue(src[at], src[at + 1]);
      at := at + 2;
      sum := sum + LeValue(src[at], src[at + 1]);
      at := at + 2;
      len := len - 4;
    }
    ShortSum(src[at..]);
    match len % 4 {
      case 2 =>
        sum := sum + LeValue(src[at], src[at + 1]);
        at := at + 2;
      case 3 =>
        sum := sum + LeValue(src[at], src[at + 1]);
        at := at + 2;
        sum := sum + src[at];
      case 1 =>
        sum := sum + src[at];
      case _ =>
    }
    assert sum == PlainSum(src);
    TwoFoldsSuffice(sum);
    sum := sum / M16 + sum % M16;
    sum := sum + sum / M16;
    Complement(sum);
    InternetIs(src);
    crc := (TWO32 - 1 - sum) % M16;
  }

  lemma InternetIs(d: seq<byte>)
    ensures Internet(d) == M16 - 1 - Fold(PlainSum(d))
  {
    DeferredCarries(d);
  }

  /** Complementing 32 bits and keeping 16 complements 16 bits. */
  lemma Complement(sum: nat)
    requires sum < TWO32
    ensures (TWO32 - 1 - sum) % M16 == M16 - 1 - sum % M16
  {
    var h, l := sum / M16, sum % M16;
    assert TWO32 - 1 - sum == (M16 - 1 - h) * M16 + (M16 - 1 - l);
  }

  lemma ShortSum(d: seq<byte>)
    requires |d| < 4
    ensures |d| == 0 ==> PlainSum(d) == 0
    ensures |d| == 1 ==> PlainSum(d) == d[0]
    ensures |d| == 2 ==> PlainSum(d) == LeValue(d[0], d[1])
    ensures |d| == 3 ==> PlainSum(d) == LeValue(d[0], d[1]) + d[2]
  {
    if |d| >= 2 {
      assert PlainSum(d[2..]) == if |d| == 3 then d[2] else 0;
    }
  }

  lemma TwoWords(src: seq<byte>, at: nat)
    requires at + 4 <= |src|
    ensures PlainSum(src[at..])
         == LeValue(src[at], src[at + 1]) + LeValue(src[at + 2], src[at + 3]) + PlainSum(src[at + 4..])
  {
    assert src[at..][2..] == src[at + 2..];
    assert src[at + 2..][2..] == src[at + 4..];
  }
}
