/** The TCP checksum, on a host that stores the low octet of a word first. */
module Checksum {
  import opened Bytes

  // The 16-bit words of a segment, added up; an odd last octet counts as the low one of its word.
  function WordSum(b: seq<Byte>): (s: int)
    ensures 0 <= s
    decreases |b|
  {
    if |b| == 0 then 0
    else if |b| == 1 then b[0] as int
    else b[0] as int + 256 * b[1] as int + WordSum(b[2..])
  }

  // htons of a uint16_t
  function Swap16(x: int): int
    requires 0 <= x < 0x1_0000
  {
    x % 256 * 256 + x / 256
  }

  const IPPROTO_TCP := 6

  function PseudoHeader(len: int, saddr: U32, daddr: U32): (s: int)
    requires 0 <= len < 0x1_0000
    ensures 0 < s <= 6 * 0xFFFF
  {
    saddr % 0x1_0000 + saddr / 0x1_0000 + daddr % 0x1_0000 + daddr / 0x1_0000 + Swap16(len) + Swap16(IPPROTO_TCP)
  }

  // The sum whose one's complement the checksum is; for every segment it fits the 32-bit accumulator.
  function Total(b: seq<Byte>, saddr: U32, daddr: U32): (s: U32)
    requires |b| < 0x1_0000
    ensures 0 < s
  {
    WordSumBound(b);
    WordSum(b) + PseudoHeader(|b|, saddr, daddr)
  }

  // The pseudo header of section 3.1 of RFC 793, octet by octet: the two addresses, 0, the protocol and the TCP length.
  // The addresses are in memory as they are in the header, the length is a number of the host's.
  function PseudoOctets(len: int, saddr: U32, daddr: U32): (b: seq<Byte>)
    requires 0 <= len < 0x1_0000
    ensures |b| == 12
  {
    Octets4(saddr) + Octets4(daddr) + Protocol(len)
  }

  function Protocol(len: int): (b: seq<Byte>)
    requires 0 <= len < 0x1_0000
    ensures |b| == 4
  {
    [0, IPPROTO_TCP as Byte, (len / 256) as Byte, (len % 256) as Byte]
  }

  // The four octets of a word in memory.
  function Octets4(w: U32): (b: seq<Byte>)
    ensures |b| == 4
  {
    [(w % 256) as Byte, (w / 0x100 % 256) as Byte, (w / 0x1_0000 % 256) as Byte, (w / 0x100_0000) as Byte]
  }

  lemma WordSum4(w: U32, rest: seq<Byte>)
    ensures WordSum(Octets4(w) + rest) == w % 0x1_0000 + w / 0x1_0000 + WordSum(rest)
  {
    var b := Octets4(w) + rest;
    assert b[2..] == b[2..4] + rest && b[2..][2..] == rest;
    assert w % 0x1_0000 == w % 256 + 256 * (w / 0x100 % 256);
    assert w / 0x1_0000 == w / 0x1_0000 % 256 + 256 * (w / 0x100_0000);
  }

  // What the checksum is of: the pseudo header and the segment, one behind the other.
  lemma TotalIsWordSum(b: seq<Byte>, saddr: U32, daddr: U32)
    requires |b| < 0x1_0000
    ensures Total(b, saddr, daddr) == WordSum(PseudoOctets(|b|, saddr, daddr) + b)
  {
    hide WordSum, Octets4, Swap16;
    var tail := Protocol(|b|) + b;
    WordSum4(saddr, Octets4(daddr) + tail);
    WordSum4(daddr, tail);
    ProtocolSum(|b|, b);
    assert PseudoOctets(|b|, saddr, daddr) + b == Octets4(saddr) + (Octets4(daddr) + tail);
  }

  lemma ProtocolSum(len: int, b: seq<Byte>)
    requires 0 <= len < 0x1_0000
    ensures WordSum(Protocol(len) + b) == Swap16(len) + Swap16(IPPROTO_TCP) + WordSum(b)
  {
    assert (Protocol(len) + b)[2..][2..] == b;
  }

  // The two folds, and the low half of the complement.
  function Finish(sum: U32): int {
    var once := sum / 0x1_0000 + sum % 0x1_0000;
    0xFFFF - (once + once / 0x1_0000) % 0x1_0000
  }

  // Two folds are enough: what is complemented is the sum in one's-complement arithmetic, never the second zero.
  lemma FinishIsComplement(sum: U32)
    requires 0 < sum
    ensures 0 <= Finish(sum) < 0xFFFF
    ensures (sum + Finish(sum)) % 0xFFFF == 0
    ensures Finish(sum) == 0 <==> sum % 0xFFFF == 0
  {
    var hi, lo := sum / 0x1_0000, sum % 0x1_0000;
    var once := hi + lo;
    var r := (once + once / 0x1_0000) % 0x1_0000;
    assert sum == 0xFFFF * hi + once;
    assert r == if once < 0x1_0000 then once else once - 0xFFFF;
    assert 0 < r <= 0xFFFF;
    var q := if once < 0x1_0000 then hi else hi + 1;
    assert sum == 0xFFFF * q + r;
    assert sum + Finish(sum) == 0xFFFF * (q + 1);
  }

  lemma {:induction false} WordSumBound(b: seq<Byte>)
    ensures WordSum(b) <= (|b| + 1) / 2 * 0xFFFF
    decreases |b|
  {
    if |b| > 1 {
      WordSumBound(b[2..]);
      assert (|b| + 1) / 2 == (|b| - 1) / 2 + 1;
    }
  }

  lemma {:induction false} WordSumSnoc(b: seq<Byte>, i: nat)
    requires 2 * i + 1 < |b|
    ensures WordSum(b[..2 * i + 2]) == WordSum(b[..2 * i]) + b[2 * i] as int + 256 * b[2 * i + 1] as int
    decreases i
  {
    if i == 0 {
      assert b[..2][2..] == [];
    } else {
      WordSumSnoc(b[2..], i - 1);
      assert b[..2 * i + 2][2..] == b[2..][..2 * (i - 1) + 2] && b[..2 * i][2..] == b[2..][..2 * (i - 1)];
    }
  }

  lemma {:induction false} WordSumSplit(b: seq<Byte>, i: nat)
    requires 2 * i <= |b|
    ensures WordSum(b) == WordSum(b[..2 * i]) + WordSum(b[2 * i..])
    decreases i
  {
    if i == 0 {
      assert b[0..] == b;
    } else {
      WordSumSplit(b[2..], i - 1);
      assert b[..2 * i][2..] == b[2..][..2 * (i - 1)] && b[2 * i..] == b[2..][2 * (i - 1)..];
    }
  }

  // TCPCalcChecksum
  method TCPCalcChecksum(buf: seq<Byte>, saddr: U32, daddr: U32) returns (check: int)
    requires |buf| < 0x1_0000
    ensures check == Finish(Total(buf, saddr, daddr)) && 0 <= check < 0xFFFF
    ensures check == 0 <==> Total(buf, saddr, daddr) % 0xFFFF == 0
  {
    hide Finish, PseudoHeader, WordSum;
    ghost var total := Total(buf, saddr, daddr);
    var sum: U32, nleft, w := 0, |buf|, 0;
    EmptySum(buf);
    while nleft > 1
      invariant 0 <= nleft && nleft + 2 * w == |buf| && sum == WordSum(buf[..2 * w])
      decreases nleft
    {
      WordSumSnoc(buf, w);
      WordSumSplit(buf, w + 1);
      sum := sum + buf[2 * w] as int + 256 * buf[2 * w + 1] as int;
      w := w + 1;
      nleft := nleft - 2;
    }
    WordSumSplit(buf, w);
    LastOctet(buf[2 * w..]);
    if nleft > 0 {
      sum := sum + buf[2 * w] as int;
    }
    sum := AddPseudoHeader(sum, |buf|, saddr, daddr);
    FinishIsComplement(sum);
    check := Folded(sum);
  }

  lemma EmptySum(b: seq<Byte>)
    ensures WordSum(b[..0]) == 0
  {
  }

  lemma LastOctet(b: seq<Byte>)
    requires |b| < 2
    ensures WordSum(b) == if b == [] then 0 else b[0] as int
  {
  }

  method AddPseudoHeader(sum0: U32, len: int, saddr: U32, daddr: U32) returns (sum: U32)
    requires 0 <= len < 0x1_0000 && sum0 + PseudoHeader(len, saddr, daddr) < 0x1_0000_0000
    ensures sum == sum0 + PseudoHeader(len, saddr, daddr)
  {
    sum := sum0 + (saddr % 0x1_0000 + saddr / 0x1_0000);
    sum := sum + (daddr % 0x1_0000 + daddr / 0x1_0000);
    sum := sum + Swap16(len);
    sum := sum + Swap16(IPPROTO_TCP);
  }

  method Folded(sum0: U32) returns (check: int)
    ensures check == Finish(sum0)
  {
    var sum := sum0 / 0x1_0000 + sum0 % 0x1_0000;
    sum := sum + sum / 0x1_0000;
    check := 0xFFFF - sum % 0x1_0000;
  }

  // A segment with a 16-bit word stored at an even offset.
  function Store16(b: seq<Byte>, at: int, v: int): (r: seq<Byte>)
    requires 0 <= at && at + 1 < |b| && 0 <= v < 0x1_0000
    ensures |r| == |b|
  {
    b[at := (v % 256) as Byte][at + 1 := (v / 256) as Byte]
  }

  lemma {:induction false} StoreAdds(b: seq<Byte>, i: nat, v: int)
    requires 2 * i + 1 < |b| && 0 <= v < 0x1_0000 && b[2 * i] == b[2 * i + 1] == 0
    ensures WordSum(Store16(b, 2 * i, v)) == WordSum(b) + v
    decreases i
  {
    var c := Store16(b, 2 * i, v);
    if i == 0 {
      assert c[2..] == b[2..];
    } else {
      StoreAdds(b[2..], i - 1, v);
      assert c[2..] == Store16(b[2..], 2 * (i - 1), v);
    }
  }

  // A sender that fills the zeroed checksum word of a segment, of any length, is believed by the receiver.
  lemma FilledSegmentVerifies(b: seq<Byte>, at: int, saddr: U32, daddr: U32)
    requires |b| < 0x1_0000 && 0 <= at && at % 2 == 0 && at + 1 < |b| && b[at] == b[at + 1] == 0
    ensures var c := Finish(Total(b, saddr, daddr));
            0 <= c < 0xFFFF && Finish(Total(Store16(b, at, c), saddr, daddr)) == 0
  {
    hide Finish, PseudoHeader, WordSum, Store16;
    FinishIsComplement(Total(b, saddr, daddr));
    var c := Finish(Total(b, saddr, daddr));
    assert 2 * (at / 2) == at;
    StoreAdds(b, at / 2, c);
    var filled := Store16(b, at, c);
    FinishIsComplement(Total(filled, saddr, daddr));
  }
}
