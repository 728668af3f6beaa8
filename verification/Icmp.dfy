/** The echo reply and the Internet checksum of section 1 of RFC 1071. */
module Icmp {
  import opened Words
  import opened Options

  // ---- Specification -------------------------------------------------------

  /** The sum of the 16-bit big-endian words; an odd last byte is the high half of a word. */
  function WordSum(data: Bytes): nat
    decreases |data|
  {
    if data == [] then 0
    else if |data| == 1 then 256 * data[0] as int
    else 256 * data[0] as int + data[1] as int + WordSum(data[2..])
  }

  /** Addition of 16-bit words with end-around carry, as arithmetic modulo 65535: zero only for
      zero, otherwise the representative in 1..65535. */
  function OnesComplement(sum: nat): (r: nat)
    ensures r <= 0xFFFF
  {
    if sum == 0 then 0 else 1 + (sum - 1) % 0xFFFF
  }

  function Checksum(data: Bytes): u16 {
    (0xFFFF - OnesComplement(WordSum(data))) as u16
  }

  /** One fold of the high half into the low half keeps the end-around value. */
  lemma FoldKeeps(sum: nat)
    ensures OnesComplement(sum % 0x1_0000 + sum / 0x1_0000) == OnesComplement(sum)
  {
    var hi, lo := sum / 0x1_0000, sum % 0x1_0000;
    if sum != 0 {
      var q, r := (lo + hi - 1) / 0xFFFF, (lo + hi - 1) % 0xFFFF;
      DivModUnique(sum - 1, q + hi, r, 0xFFFF);
    }
  }

  lemma {:induction false} WordSumAppend(a: Bytes, b: Bytes)
    requires |a| % 2 == 0
    ensures WordSum(a + b) == WordSum(a) + WordSum(b)
    decreases |a|
  {
    if a == [] {
      assert a + b == b;
    } else {
      assert (a + b)[2..] == a[2..] + b;
      WordSumAppend(a[2..], b);
    }
  }

  lemma {:induction false} WordSumBound(data: Bytes)
    ensures WordSum(data) <= (|data| + 1) / 2 * 0xFFFF
    decreases |data|
  {
    if |data| > 1 {
      WordSumBound(data[2..]);
    }
  }

  /** Storing the complement of a sum in a zero word makes the whole sum fold to all ones. */
  lemma StoredChecksumVerifies(sum: nat)
    ensures OnesComplement(sum + (0xFFFF - OnesComplement(sum))) == 0xFFFF
  {
    if sum != 0 {
      var q, r := (sum - 1) / 0xFFFF, (sum - 1) % 0xFFFF;
      DivModUnique(sum + (0xFFFF - (1 + r)) - 1, q, 0xFFFE, 0xFFFF);
    }
  }

  // ---- The checksum loop ---------------------------------------------------

  /** The largest input whose sum cannot leave 32 bits is 65537 words. */
  method Checksum16(data: Bytes) returns (c: u16)
    requires |data| <= 131074
    ensures c == Checksum(data)
  {
    var sum: u32 := 0;
    var i := 0;
    while i + 1 < |data|
      invariant 0 <= i <= |data| && i % 2 == 0
      invariant sum as int == WordSum(data[..i])
    {
      WordSumBound(data[..i + 2]);
      WordSumNext(data, i);
      sum := sum + (256 * data[i] as u32 + data[i + 1] as u32);
      i := i + 2;
    }
    if i < |data| {
      WordSumBound(data);
      WordSumLast(data, i);
      sum := sum + 256 * data[i] as u32;
    }
    assert data[..|data|] == data;
    while sum / 0x1_0000 != 0
      invariant OnesComplement(sum as int) == OnesComplement(WordSum(data))
      decreases sum
    {
      FoldKeeps(sum as int);
      sum := sum % 0x1_0000 + sum / 0x1_0000;
    }
    c := (0xFFFF - sum as int) as u16;
  }

  lemma WordSumNext(data: Bytes, i: nat)
    requires i + 1 < |data| && i % 2 == 0
    ensures WordSum(data[..i + 2]) == WordSum(data[..i]) + 256 * data[i] as int + data[i + 1] as int
  {
    assert data[..i + 2] == data[..i] + [data[i], data[i + 1]];
    WordSumAppend(data[..i], [data[i], data[i + 1]]);
    assert WordSum([data[i], data[i + 1]][2..]) == 0;
  }

  lemma WordSumLast(data: Bytes, i: nat)
    requires i == |data| - 1 && i % 2 == 0
    ensures WordSum(data) == WordSum(data[..i]) + 256 * data[i] as int
  {
    assert data == data[..i] + [data[i]];
    WordSumAppend(data[..i], [data[i]]);
  }

  // ---- The echo reply ------------------------------------------------------

  /** Header length in bytes, from the low half of the first byte. */
  function HeaderLength(pkt: Bytes): nat
    requires pkt != []
  {
    pkt[0] as int % 16 * 4
  }

  /** An IPv4 packet, protocol ICMP, with a whole header, eight ICMP bytes and type 8. */
  predicate IsEchoRequest(pkt: Bytes) {
    && |pkt| >= 28 && pkt[0] / 16 == 4
    && var ihl := HeaderLength(pkt);
    ihl >= 20 && |pkt| >= ihl + 8 && pkt[9] == 1 && pkt[ihl] == 8
  }

  /** What a reply keeps of the request: everything but the addresses, the type and the checksum. */
  ghost predicate OnlyReplyFieldsDiffer(pkt: Bytes, out: Bytes)
    requires IsEchoRequest(pkt)
  {
    var ihl := HeaderLength(pkt);
    && |out| == |pkt|
    && (forall i :: 0 <= i < |pkt| && !(12 <= i < 20) && i != ihl && i != ihl + 2 && i != ihl + 3
         ==> out[i] == pkt[i])
  }

  method EchoReply(pkt: Bytes) returns (r: Option<Bytes>)
    requires |pkt| <= 65535
    ensures r.Some? <==> IsEchoRequest(pkt)
    ensures r.Some? ==>
      var out, ihl := r.value, HeaderLength(pkt);
      && OnlyReplyFieldsDiffer(pkt, out)
      && out[12..16] == pkt[16..20] && out[16..20] == pkt[12..16]
      && out[ihl] == 0
      && Checksum(out[ihl..]) == 0
      && Checksum(out[..ihl]) == Checksum(pkt[..ihl])
  {
    hide WordSum, OnesComplement, Checksum;
    if |pkt| < 28 || pkt[0] / 16 != 4 {
      return None;
    }
    var ihl := pkt[0] as int % 16 * 4;
    if ihl < 20 || |pkt| < ihl + 8 || pkt[9] != 1 || pkt[ihl] != 8 {
      return None;
    }
    var out := new u8[|pkt|](i requires 0 <= i < |pkt| => pkt[i]);
    SwapAddresses(out, pkt);
    ghost var swapped := out[..];
    out[ihl] := 0;
    out[ihl + 2] := 0;
    out[ihl + 3] := 0;
    ghost var cleared := out[ihl..];
    var csum := Checksum16(out[ihl..]);
    out[ihl + 2] := (csum / 256) as u8;
    out[ihl + 3] := (csum % 256) as u8;
    ghost var icmp := out[ihl..];
    assert icmp == cleared[2 := (csum / 256) as u8][3 := (csum % 256) as u8];
    StoredWord(cleared, icmp, csum);
    assert out[..ihl] == swapped[..ihl];
    HeaderSumKept(pkt, swapped, ihl);
    r := Some(out[..]);
    assert out[..][ihl..] == icmp;
    assert out[..][..ihl] == swapped[..ihl];
    assert out[..][12..16] == swapped[12..16] && out[..][16..20] == swapped[16..20];
  }

  /** `out.swap(12 + i, 16 + i)` for i below 4. */
  method SwapAddresses(out: array<u8>, ghost pkt: Bytes)
    requires out.Length >= 20 && out[..] == pkt
    modifies out
    ensures out[12..16] == pkt[16..20] && out[16..20] == pkt[12..16]
    ensures forall i :: 0 <= i < out.Length && !(12 <= i < 20) ==> out[i] == pkt[i]
  {
    for i := 0 to 4
      invariant forall k :: 12 <= k < 12 + i ==> out[k] == pkt[k + 4]
      invariant forall k :: 16 <= k < 16 + i ==> out[k] == pkt[k - 4]
      invariant forall k :: 0 <= k < out.Length && !(12 <= k < 12 + i) && !(16 <= k < 16 + i) ==> out[k] == pkt[k]
    {
      out[12 + i], out[16 + i] := out[16 + i], out[12 + i];
    }
  }

  lemma StoredWord(cleared: Bytes, icmp: Bytes, csum: u16)
    requires |cleared| >= 8 && cleared[2] == 0 && cleared[3] == 0
    requires csum == Checksum(cleared)
    requires icmp == cleared[2 := (csum / 256) as u8][3 := (csum % 256) as u8]
    ensures Checksum(icmp) == 0
  {
    WordSumHead(cleared);
    WordSumHead(icmp);
    assert cleared[4..] == icmp[4..];
    assert WordSum(icmp) == WordSum(cleared) + csum as int;
    StoredChecksumVerifies(WordSum(cleared));
  }

  lemma WordSumHead(d: Bytes)
    requires |d| >= 4
    ensures WordSum(d) == 256 * d[0] as int + d[1] as int + 256 * d[2] as int + d[3] as int + WordSum(d[4..])
  {
    assert d[2..][2..] == d[4..];
  }

  /** Exchanging the two addresses does not change the sum of the header words. */
  lemma HeaderSumKept(pkt: Bytes, swapped: Bytes, ihl: nat)
    requires 20 <= ihl <= |pkt| == |swapped|
    requires swapped[12..16] == pkt[16..20] && swapped[16..20] == pkt[12..16]
    requires forall i :: 0 <= i < |pkt| && !(12 <= i < 20) ==> swapped[i] == pkt[i]
    ensures Checksum(swapped[..ihl]) == Checksum(pkt[..ihl])
  {
    hide WordSum;
    HeaderParts(pkt, ihl);
    HeaderParts(swapped, ihl);
    assert swapped[..12] == pkt[..12] && swapped[20..ihl] == pkt[20..ihl];
  }

  lemma HeaderParts(p: Bytes, ihl: nat)
    requires 20 <= ihl <= |p|
    ensures WordSum(p[..ihl]) == WordSum(p[..12]) + WordSum(p[12..16]) + WordSum(p[16..20]) + WordSum(p[20..ihl])
  {
    hide WordSum;
    assert p[..ihl] == p[..12] + (p[12..16] + (p[16..20] + p[20..ihl]));
    WordSumAppend(p[..12], p[12..16] + (p[16..20] + p[20..ihl]));
    WordSumAppend(p[12..16], p[16..20] + p[20..ihl]);
    WordSumAppend(p[16..20], p[20..ihl]);
  }
}
