/** The data-packet session: counter nonces outbound, a 64-entry replay window inbound. */
module Session {
  import opened Words
  import opened ByteStrings
  import opened Bits
  import opened Aead
  import opened Options

  const WINDOW: int := 64

  // ---- Specification -------------------------------------------------------

  /** Four zero bytes, then the counter little-endian. */
  function Nonce(counter: u64): (n: Bytes)
    ensures |n| == 12
  {
    Zeros(4) + ToLE(counter as int, 8)
  }

  /** The packet for a counter: the counter big-endian, then the sealed plaintext. */
  function Packet(key: Bytes, counter: u64, plaintext: Bytes): Bytes
    requires |key| == 32
  {
    ToBE(counter as int, 8) + SealSpec(key, Nonce(counter), [], plaintext)
  }

  datatype Delivery = Delivery(counter: u64, plaintext: Bytes)

  /** A counter may still be accepted: never accepted before, and no accepted counter is 64 or
      more ahead of it. */
  predicate Acceptable(accepted: set<u64>, c: u64) {
    c !in accepted && forall a :: a in accepted ==> (a as int) < c as int + WINDOW
  }

  /** What a receiver that has accepted a set of counters delivers for a packet. */
  function Deliver(key: Bytes, accepted: set<u64>, packet: Bytes): Option<Delivery>
    requires |key| == 32
  {
    if |packet| < 8 then None
    else
      var c := CounterOf(packet);
      match OpenSpec(key, Nonce(c), [], packet[8..])
      case None => None
      case Some(p) => if Acceptable(accepted, c) then Some(Delivery(c, p)) else None
  }

  /** The counter a packet claims, before anything is authenticated. */
  function CounterOf(packet: Bytes): (c: u64)
    requires |packet| >= 8
    ensures c as int == BE(packet[..8])
  {
    hide BE, Pow2;
    BEBound(packet[..8]);
    Pow2SixtyFour();
    BE(packet[..8]) as u64
  }

  lemma BEBound(s: Bytes)
    ensures BE(s) < Pow2(8 * |s|)
  {
    hide BE, ToBE;
    ToBEBE(s);
    BEToBE(BE(s), |s|);
  }

  /** Everything delivered over a run of arriving packets. */
  function Run(key: Bytes, accepted: set<u64>, packets: seq<Bytes>): seq<Delivery>
    requires |key| == 32
    decreases |packets|
  {
    if packets == [] then []
    else
      match Deliver(key, accepted, packets[0])
      case None => Run(key, accepted, packets[1..])
      case Some(d) => [d] + Run(key, accepted + {d.counter}, packets[1..])
  }

  // ---- What every run keeps ------------------------------------------------

  /** Counters are encoded in full, so the packet of a counter claims that counter. */
  lemma PacketCounter(key: Bytes, counter: u64, plaintext: Bytes)
    requires |key| == 32
    ensures var p := Packet(key, counter, plaintext);
            && |p| >= 8 && CounterOf(p) == counter
            && p[8..] == SealSpec(key, Nonce(counter), [], plaintext)
  {
    hide SealSpec, ToBE, BE, Pow2;
    var p := Packet(key, counter, plaintext);
    assert p[..8] == ToBE(counter as int, 8);
    BEToBE(counter as int, 8);
    Pow2SixtyFour();
    DivModUnique(counter as int, 0, counter as int, 0x1_0000_0000_0000_0000);
  }

  /** Distinct counters never share a nonce. */
  lemma NonceInjective(c: u64, d: u64)
    requires Nonce(c) == Nonce(d)
    ensures c == d
  {
    hide ToLE;
    assert Nonce(c)[4..] == ToLE(c as int, 8) && Nonce(d)[4..] == ToLE(d as int, 8);
    LengthField(c as int);
    LengthField(d as int);
  }

  /** The packet of a counter that may still be accepted is delivered, with its plaintext. */
  lemma AuthenticIsDelivered(key: Bytes, accepted: set<u64>, counter: u64, plaintext: Bytes)
    requires |key| == 32
    requires Acceptable(accepted, counter)
    ensures Deliver(key, accepted, Packet(key, counter, plaintext)) == Some(Delivery(counter, plaintext))
  {
    hide SealSpec, OpenSpec, Packet, Nonce, CounterOf;
    PacketCounter(key, counter, plaintext);
    OpenExactlySealed(key, Nonce(counter), [], SealSpec(key, Nonce(counter), [], plaintext), plaintext);
  }

  /** The deliveries of a run: none repeats a counter, none was accepted before. */
  ghost predicate NeverRepeats(accepted: set<u64>, r: seq<Delivery>) {
    && (forall i :: 0 <= i < |r| ==> r[i].counter !in accepted)
    && (forall i, j :: 0 <= i < j < |r| ==> r[i].counter != r[j].counter)
  }

  /** No counter is delivered twice, nor any that had been accepted before the run. */
  lemma {:induction false} RunNeverRepeats(key: Bytes, accepted: set<u64>, packets: seq<Bytes>)
    requires |key| == 32
    ensures NeverRepeats(accepted, Run(key, accepted, packets))
    decreases |packets|
  {
    hide OpenSpec, CounterOf, Nonce;
    if packets != [] {
      match Deliver(key, accepted, packets[0]) {
        case None =>
          RunNeverRepeats(key, accepted, packets[1..]);
          assert Run(key, accepted, packets) == Run(key, accepted, packets[1..]);
        case Some(d) =>
          RunNeverRepeats(key, accepted + {d.counter}, packets[1..]);
          var rest := Run(key, accepted + {d.counter}, packets[1..]);
          assert Run(key, accepted, packets) == [d] + rest;
          forall i | 0 <= i < |rest|
            ensures rest[i].counter != d.counter && rest[i].counter !in accepted
          {
            assert rest[i].counter !in accepted + {d.counter};
          }
      }
    }
  }

  /** A network that only drops, duplicates and reorders: every arriving packet was sent. */
  ghost predicate OnlySent(key: Bytes, sent: seq<Bytes>, packets: seq<Bytes>)
    requires |key| == 32
  {
    && |sent| <= 0x1_0000_0000_0000_0000
    && forall k :: 0 <= k < |packets| ==> SentPacket(key, sent, packets[k])
  }

  ghost predicate SentPacket(key: Bytes, sent: seq<Bytes>, packet: Bytes)
    requires |key| == 32
  {
    exists c: u64 :: c as int < |sent| && packet == Packet(key, c, sent[c])
  }

  lemma DeliveredWasSent(key: Bytes, sent: seq<Bytes>, accepted: set<u64>, packet: Bytes)
    requires |key| == 32
    requires SentPacket(key, sent, packet)
    ensures var d := Deliver(key, accepted, packet);
            d.Some? ==> d.value.counter as int < |sent| && d.value.plaintext == sent[d.value.counter]
  {
    hide SealSpec, OpenSpec, Packet, Nonce, CounterOf;
    var c: u64 :| c as int < |sent| && packet == Packet(key, c, sent[c]);
    PacketCounter(key, c, sent[c]);
    OpenExactlySealed(key, Nonce(c), [], packet[8..], sent[c]);
  }

  /** Every delivery carries a plaintext that was sent under its counter. */
  ghost predicate AllSent(sent: seq<Bytes>, r: seq<Delivery>) {
    forall i :: 0 <= i < |r| ==>
      r[i].counter as int < |sent| && r[i].plaintext == sent[r[i].counter]
  }

  /** Over such a network the plaintexts delivered are those sent, each at most once. */
  lemma RunDeliversWhatWasSent(key: Bytes, sent: seq<Bytes>, accepted: set<u64>, packets: seq<Bytes>)
    requires |key| == 32
    requires OnlySent(key, sent, packets)
    ensures AllSent(sent, Run(key, accepted, packets))
    ensures NeverRepeats(accepted, Run(key, accepted, packets))
    ensures |Run(key, accepted, packets)| <= |sent|
  {
    hide Run, OnlySent;
    RunAuthentic(key, sent, accepted, packets);
    RunNeverRepeats(key, accepted, packets);
    DistinctBelow(Run(key, accepted, packets), |sent|);
  }

  lemma {:induction false} RunAuthentic(key: Bytes, sent: seq<Bytes>, accepted: set<u64>, packets: seq<Bytes>)
    requires |key| == 32
    requires OnlySent(key, sent, packets)
    ensures AllSent(sent, Run(key, accepted, packets))
    decreases |packets|
  {
    hide Deliver, SentPacket;
    if packets != [] {
      assert SentPacket(key, sent, packets[0]);
      assert OnlySent(key, sent, packets[1..]);
      DeliveredWasSent(key, sent, accepted, packets[0]);
      match Deliver(key, accepted, packets[0]) {
        case None =>
          RunAuthentic(key, sent, accepted, packets[1..]);
          assert Run(key, accepted, packets) == Run(key, accepted, packets[1..]);
        case Some(d) =>
          RunAuthentic(key, sent, accepted + {d.counter}, packets[1..]);
          assert Run(key, accepted, packets) == [d] + Run(key, accepted + {d.counter}, packets[1..]);
      }
    }
  }

  lemma DistinctBelow(r: seq<Delivery>, n: nat)
    requires forall i :: 0 <= i < |r| ==> r[i].counter as int < n
    requires forall i, j :: 0 <= i < j < |r| ==> r[i].counter != r[j].counter
    ensures |r| <= n
  {
    DistinctCount(r);
    BoundedCount(Counters(r), n);
  }

  function Counters(r: seq<Delivery>): (s: set<int>)
    ensures forall x :: x in s <==> exists i :: 0 <= i < |r| && r[i].counter as int == x
  {
    if r == [] then {} else
    assert forall i :: 1 <= i < |r| ==> r[i] == r[1..][i - 1];
    Counters(r[1..]) + {r[0].counter as int}
  }

  lemma {:induction false} DistinctCount(r: seq<Delivery>)
    requires forall i, j :: 0 <= i < j < |r| ==> r[i].counter != r[j].counter
    ensures |Counters(r)| == |r|
    decreases |r|
  {
    if r != [] {
      DistinctCount(r[1..]);
    }
  }

  lemma {:induction false} BoundedCount(s: set<int>, n: nat)
    requires forall x :: x in s ==> 0 <= x < n
    ensures |s| <= n
    decreases n
  {
    if n == 0 {
      assert forall x :: x in s <==> x in {};
      assert s == {};
    } else {
      BoundedCount(s - {n - 1}, n - 1);
      if n - 1 in s {
        assert |s - {n - 1}| == |s| - 1;
      } else {
        assert s - {n - 1} == s;
      }
    }
  }

  // ---- The window ----------------------------------------------------------

  /** Bit i of a mask. */
  predicate BitSet(mask: u64, i: nat) { BitAt(mask as int, i) == 1 }

  /** The mask, maximum and started flag stand for exactly the accepted counters in the window. */
  ghost predicate Represents(started: bool, max: u64, mask: u64, accepted: set<u64>) {
    && (!started ==> accepted == {})
    && (started ==> max in accepted)
    && (forall a :: a in accepted ==> a <= max)
    && (started ==> forall c: u64 :: c <= max && max as int < c as int + WINDOW ==>
         (c in accepted <==> BitSet(mask, (max - c) as int)))
  }

  /** With a represented set, the tests of the code decide acceptability. */
  lemma WindowDecides(started: bool, max: u64, mask: u64, accepted: set<u64>, c: u64)
    requires Represents(started, max, mask, accepted)
    ensures Acceptable(accepted, c)
       <==> (!started || c > max
             || (max as int < c as int + WINDOW && !BitSet(mask, (max - c) as int)))
  {
    hide BitSet;
  }

  /** `mask << shift | 1`, or 1 when everything has left the window. */
  function Slide(mask: u64, shift: u64): u64
    requires shift > 0
  {
    OpWord(OrOp, if shift >= 64 then 0 else ShiftLeft(mask, shift as int), 1)
  }

  /** `x << s` on a 64-bit word. */
  function ShiftLeft(x: u64, s: nat): u64
    requires s < 64
  {
    ((x as int * Pow2(s)) % 0x1_0000_0000_0000_0000) as u64
  }

  lemma SlideBit(mask: u64, shift: u64, i: nat)
    requires shift > 0 && i < 64
    ensures BitSet(Slide(mask, shift), i)
       <==> (i == 0 || (shift as int <= i && BitSet(mask, i - shift as int)))
  {
    hide BitAt, Bitwise, ShiftLeft, Pow2;
    var moved := if shift >= 64 then 0 else ShiftLeft(mask, shift as int);
    BitOfBitwise(OrOp, moved as int, 1, i);
    BitOfOne(i);
    if shift >= 64 {
      BitOfZero(i);
    } else {
      ShiftedBit(mask, shift as int, i);
    }
  }

  lemma BitOfZero(i: nat)
    ensures BitAt(0, i) == 0
  {
    DivModUnique(0, 0, 0, Pow2(i));
  }

  lemma ShiftedBit(x: u64, s: nat, i: nat)
    requires s < 64 && i < 64
    ensures BitAt(ShiftLeft(x, s) as int, i) == if s <= i then BitAt(x as int, i - s) else 0
  {
    hide BitAt, Pow2;
    Pow2SixtyFour();
    BitOfShift(x as int, s, i);
    BitOfLow(x as int * Pow2(s), 64, i);
  }

  /** `1 << diff`. */
  function OneBit(diff: u64): (r: u64)
    requires diff < 64
    ensures r as int == Pow2(diff as int)
  {
    hide Pow2;
    Pow2SixtyFour();
    Pow2Add(diff as int, 64 - diff as int);
    Pow2Unfold(64 - diff as int);
    MulMono(2, Pow2(64 - diff as int), Pow2(diff as int));
    Pow2(diff as int) as u64
  }

  /** Testing one bit of the mask. */
  lemma TestBit(mask: u64, diff: u64)
    requires diff < 64
    ensures OpWord(AndOp, mask, OneBit(diff)) != 0 <==> BitSet(mask, diff as int)
  {
    hide BitAt, Bitwise, Pow2;
    AndOneBit(mask as int, diff as int);
    BitIsBit(mask as int, diff as int);
  }

  lemma BitIsBit(m: nat, k: nat)
    ensures 0 <= BitAt(m, k) <= 1
  {
  }

  /** Setting one bit of the mask. */
  lemma SetBit(mask: u64, diff: u64, i: nat)
    requires diff < 64 && i < 64
    ensures BitSet(OpWord(OrOp, mask, OneBit(diff)), i) <==> (i == diff as int || BitSet(mask, i))
  {
    hide BitAt, Bitwise, Pow2;
    BitOfBitwise(OrOp, mask as int, Pow2(diff as int), i);
    BitOfPow2(diff as int, i);
  }

  lemma SlideKeeps(max: u64, mask: u64, accepted: set<u64>, c: u64)
    requires Represents(true, max, mask, accepted) && c > max
    ensures Represents(true, c, Slide(mask, c - max), accepted + {c})
  {
    hide BitSet, Slide;
    forall x: u64 | x <= c && (c as int) < x as int + WINDOW
      ensures x in accepted + {c} <==> BitSet(Slide(mask, c - max), (c - x) as int)
    {
      SlideBit(mask, c - max, (c - x) as int);
      if x <= max {
        assert (c - x) as int - (c - max) as int == (max - x) as int;
      }
    }
  }

  lemma FirstKeeps(c: u64)
    ensures Represents(true, c, 1, {c})
  {
    hide BitAt;
    var only := {c};
    forall x: u64 | x <= c && (c as int) < x as int + WINDOW
      ensures x in only <==> BitSet(1, (c - x) as int)
    {
      BitOfOne((c - x) as int);
    }
  }

  lemma SetBitKeeps(max: u64, mask: u64, accepted: set<u64>, c: u64)
    requires Represents(true, max, mask, accepted)
    requires c <= max && max - c < 64
    ensures Represents(true, max, OpWord(OrOp, mask, OneBit(max - c)), accepted + {c})
  {
    hide BitSet, OpWord, OneBit;
    forall x: u64 | x <= max && (max as int) < x as int + WINDOW
      ensures x in accepted + {c} <==> BitSet(OpWord(OrOp, mask, OneBit(max - c)), (max - x) as int)
    {
      SetBit(mask, max - c, (max - x) as int);
    }
  }

  // ---- The session ---------------------------------------------------------

  datatype TransportKeys = TransportKeys(send: Bytes, recv: Bytes)

  class Session {
    const sendKey: Bytes
    const recvKey: Bytes
    var sendCounter: u64
    var recvMax: u64
    var recvMask: u64
    var recvStarted: bool
    /** The plaintexts sealed so far, in order, and the counters accepted so far. */
    ghost var Sent: seq<Bytes>
    ghost var Accepted: set<u64>

    ghost predicate Valid()
      reads this
    {
      && |sendKey| == 32 && |recvKey| == 32
      && sendCounter as int == |Sent|
      && Represents(recvStarted, recvMax, recvMask, Accepted)
    }

    constructor (keys: TransportKeys)
      requires |keys.send| == 32 && |keys.recv| == 32
      ensures Valid() && Sent == [] && Accepted == {}
      ensures sendKey == keys.send && recvKey == keys.recv
    {
      sendKey, recvKey := keys.send, keys.recv;
      sendCounter, recvMax, recvMask, recvStarted := 0, 0, 0, false;
      Sent, Accepted := [], {};
    }

    /** The packet carries the next counter; that counter is never used again. */
    method Encrypt(plaintext: Bytes) returns (packet: Bytes)
      requires Valid() && sendCounter < 0xFFFF_FFFF_FFFF_FFFF
      modifies this`sendCounter, this`Sent
      ensures Valid() && Sent == old(Sent) + [plaintext]
      ensures packet == Packet(sendKey, old(sendCounter), plaintext)
    {
      hide SealSpec, Represents;
      var counter := sendCounter;
      sendCounter := sendCounter + 1;
      Sent := Sent + [plaintext];
      var ct := Seal(sendKey, Nonce(counter), [], plaintext);
      packet := ToBE(counter as int, 8) + ct;
    }

    /** Delivers exactly what the set of accepted counters allows; on refusal nothing changes. */
    method Decrypt(packet: Bytes) returns (r: Option<Bytes>)
      requires Valid()
      modifies this`recvMax, this`recvMask, this`recvStarted, this`Accepted
      ensures Valid()
      ensures match Deliver(recvKey, old(Accepted), packet)
              case None => r == None && Accepted == old(Accepted)
                           && recvMax == old(recvMax) && recvMask == old(recvMask)
                           && recvStarted == old(recvStarted)
              case Some(d) => r == Some(d.plaintext) && Accepted == old(Accepted) + {d.counter}
    {
      hide OpenSpec, Represents, BitSet, OpWord, OneBit, Slide, CounterOf, Nonce, Acceptable;
      if |packet| < 8 {
        return None;
      }
      var counter := CounterOf(packet);
      WindowDecides(recvStarted, recvMax, recvMask, Accepted, counter);
      if recvStarted && recvMax >= 64 && counter <= recvMax - 64 {
        return None;
      }
      var plaintext := Open(recvKey, Nonce(counter), [], packet[8..]);
      if plaintext == None {
        return None;
      }
      if !recvStarted {
        recvStarted := true;
        recvMax := counter;
        recvMask := 1;
        NothingAccepted(false, old(recvMax), old(recvMask), Accepted);
        FirstKeeps(counter);
        assert Accepted + {counter} == {counter};
      } else if counter > recvMax {
        SlideKeeps(recvMax, recvMask, Accepted, counter);
        recvMask := Slide(recvMask, counter - recvMax);
        recvMax := counter;
      } else {
        // The source tests `diff >= WINDOW` once more here; the early test makes it unreachable.
        var diff := recvMax - counter;
        assert diff < 64;
        var bit := OneBit(diff);
        TestBit(recvMask, diff);
        if OpWord(AndOp, recvMask, bit) != 0 {
          return None;
        }
        SetBitKeeps(recvMax, recvMask, Accepted, counter);
        recvMask := OpWord(OrOp, recvMask, bit);
      }
      Accepted := Accepted + {counter};
      r := plaintext;
    }
  }

  lemma NothingAccepted(started: bool, max: u64, mask: u64, accepted: set<u64>)
    requires Represents(started, max, mask, accepted) && !started
    ensures accepted == {}
  {
  }
}
