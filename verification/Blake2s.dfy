/** BLAKE2s with a lazily flushed buffer, against the one-shot fold of section 3.3 of RFC 7693. */
module Blake2s {
  import opened Words
  import opened ByteStrings
  import opened Words32

  // ---- Specification -------------------------------------------------------

  const IV: Words8 :=
    [0x6A09E667, 0xBB67AE85, 0x3C6EF372, 0xA54FF53A, 0x510E527F, 0x9B05688C, 0x1F83D9AB, 0x5BE0CD19]

  type Index = i: nat | i < 16
  type Row = s: seq<Index> | |s| == 16 witness seq(16, i => 0)

  function Sigma(round: nat): Row
    requires round < 10
  {
    if round < 5 then SigmaLow(round) else SigmaHigh(round)
  }

  function SigmaLow(round: nat): Row
    requires round < 5
  {
    match round
    case 0 => [0, 1, 2, 3, 4, 5, 6, 7, 8, 9, 10, 11, 12, 13, 14, 15]
    case 1 => [14, 10, 4, 8, 9, 15, 13, 6, 1, 12, 0, 2, 11, 7, 5, 3]
    case 2 => [11, 8, 12, 0, 5, 2, 15, 13, 10, 14, 3, 6, 7, 1, 9, 4]
    case 3 => [7, 9, 3, 1, 13, 12, 11, 14, 2, 6, 5, 10, 4, 0, 15, 8]
    case _ => [9, 0, 5, 7, 2, 4, 10, 15, 14, 1, 11, 12, 6, 8, 3, 13]
  }

  function SigmaHigh(round: nat): Row
    requires 5 <= round < 10
  {
    match round
    case 5 => [2, 12, 6, 10, 0, 11, 8, 3, 4, 13, 7, 5, 15, 14, 1, 9]
    case 6 => [12, 5, 1, 15, 14, 13, 4, 10, 0, 7, 6, 3, 9, 2, 8, 11]
    case 7 => [13, 11, 7, 14, 12, 1, 3, 9, 5, 0, 15, 4, 8, 6, 2, 10]
    case 8 => [6, 15, 14, 9, 11, 3, 0, 8, 12, 2, 13, 7, 1, 4, 10, 5]
    case _ => [10, 2, 8, 4, 7, 6, 1, 5, 15, 11, 9, 14, 3, 12, 13, 0]
  }

  function Rotr16(x: u32): u32 { RotateLeft(x, 0x1_0000, 0x1_0000) }
  function Rotr12(x: u32): u32 { RotateLeft(x, 0x10_0000, 0x1000) }
  function Rotr8(x: u32): u32 { RotateLeft(x, 0x100_0000, 0x100) }
  function Rotr7(x: u32): u32 { RotateLeft(x, 0x200_0000, 0x80) }

  /** The mixing function G on four words and two message words. */
  function Mix(a: u32, b: u32, c: u32, d: u32, x: u32, y: u32): (u32, u32, u32, u32) {
    var a1 := WrapAdd(WrapAdd(a, b), x);
    var d1 := Rotr16(XorWord(d, a1));
    var c1 := WrapAdd(c, d1);
    var b1 := Rotr12(XorWord(b, c1));
    var a2 := WrapAdd(WrapAdd(a1, b1), y);
    var d2 := Rotr8(XorWord(d1, a2));
    var c2 := WrapAdd(c1, d2);
    var b2 := Rotr7(XorWord(b1, c2));
    (a2, b2, c2, d2)
  }

  function MixAt(v: Words16, a: nat, b: nat, c: nat, d: nat, x: u32, y: u32): Words16
    requires a < 16 && b < 16 && c < 16 && d < 16
  {
    var q := Mix(v[a], v[b], v[c], v[d], x, y);
    v[a := q.0][b := q.1][c := q.2][d := q.3]
  }

  function Round(v: Words16, m: Words16, s: Row): Words16 {
    hide MixAt;
    var v1 := MixAt(v, 0, 4, 8, 12, m[s[0]], m[s[1]]);
    var v2 := MixAt(v1, 1, 5, 9, 13, m[s[2]], m[s[3]]);
    var v3 := MixAt(v2, 2, 6, 10, 14, m[s[4]], m[s[5]]);
    var v4 := MixAt(v3, 3, 7, 11, 15, m[s[6]], m[s[7]]);
    var v5 := MixAt(v4, 0, 5, 10, 15, m[s[8]], m[s[9]]);
    var v6 := MixAt(v5, 1, 6, 11, 12, m[s[10]], m[s[11]]);
    var v7 := MixAt(v6, 2, 7, 8, 13, m[s[12]], m[s[13]]);
    MixAt(v7, 3, 4, 9, 14, m[s[14]], m[s[15]])
  }

  function Rounds(v: Words16, m: Words16, n: nat): Words16
    requires n <= 10
  {
    hide Round, Sigma;
    if n == 0 then v else Round(Rounds(v, m, n - 1), m, Sigma(n - 1))
  }

  /** The low and high words of a byte count, as the 64-bit counter holds it. */
  function CounterLow(t: nat): u32 { (t % 0x1_0000_0000) as u32 }
  function CounterHigh(t: nat): u32 { (t / 0x1_0000_0000 % 0x1_0000_0000) as u32 }

  function MessageWords(block: Bytes): (m: Words16)
    requires |block| == 64
  {
    seq(16, i requires 0 <= i < 16 => WordAt(block, i))
  }

  function StartWord(h: Words8, lo: u32, hi: u32, last: bool, i: nat): u32
    requires i < 16
  {
    if i < 8 then h[i]
    else if i == 12 then XorWord(IV[i - 8], lo)
    else if i == 13 then XorWord(IV[i - 8], hi)
    else if i == 14 && last then XorWord(IV[i - 8], 0xFFFF_FFFF)
    else IV[i - 8]
  }

  lemma FinishVector(h: Words8, lo: u32, hi: u32, last: bool, plain: Words16, v: Words16)
    requires forall j :: 0 <= j < 16 ==> plain[j] == if j < 8 then h[j] else IV[j - 8]
    requires v == (if last then plain[12 := XorWord(plain[12], lo)][13 := XorWord(plain[13], hi)]
                                    [14 := XorWord(plain[14], 0xFFFF_FFFF)]
                   else plain[12 := XorWord(plain[12], lo)][13 := XorWord(plain[13], hi)])
    ensures v == StartVector(h, lo, hi, last)
  {
    hide XorWord;
  }

  function StartVector(h: Words8, lo: u32, hi: u32, last: bool): Words16 {
    seq(16, i requires 0 <= i < 16 => StartWord(h, lo, hi, last, i))
  }

  /** The compression function F of section 3.2 on a block and a byte count. */
  function Compress(h: Words8, block: Bytes, t: nat, last: bool): (r: Words8)
    requires |block| == 64
  {
    CompressWith(h, block, CounterLow(t), CounterHigh(t), last)
  }

  function CompressWith(h: Words8, block: Bytes, lo: u32, hi: u32, last: bool): (r: Words8)
    requires |block| == 64
  {
    hide Rounds, StartVector, MessageWords, Folded;
    var v := Rounds(StartVector(h, lo, hi, last), MessageWords(block), 10);
    seq(8, i requires 0 <= i < 8 => Folded(h, v, i))
  }

  /** Word i of the hash value with both halves of the work vector folded in. */
  function Folded(h: Words8, v: Words16, i: nat): u32
    requires i < 8
  {
    XorWord(h[i], XorWord(v[i], v[i + 8]))
  }

  lemma FoldedWord(h: Words8, v: Words16, i: nat)
    requires i < 8
    ensures Folded(h, v, i) == XorWord(h[i], XorWord(v[i], v[i + 8]))
  {
  }

  lemma FoldedIsCompressed(h: Words8, block: Bytes, lo: u32, hi: u32, last: bool, v: Words16, r: Words8)
    requires |block| == 64
    requires v == Rounds(StartVector(h, lo, hi, last), MessageWords(block), 10)
    requires forall j :: 0 <= j < 8 ==> r[j] == Folded(h, v, j)
    ensures r == CompressWith(h, block, lo, hi, last)
  {
    hide Folded, Rounds, StartVector, MessageWords;
  }

  function PadBlock(data: Bytes): (b: Bytes)
    requires |data| <= 64
    ensures |b| == 64
  {
    data + Zeros(64 - |data|)
  }

  /** The one-shot fold: every block but the last is full and not final; the last one, possibly
      short or empty, is final. The count is the number of bytes compressed so far. */
  function Fold(h: Words8, data: Bytes, t: nat): Words8
    decreases |data|
  {
    hide Compress;
    if |data| <= 64 then Compress(h, PadBlock(data), t + |data|, true)
    else Fold(Compress(h, data[..64], t + 64, false), data[64..], t + 64)
  }

  /** Full, non-final blocks only. */
  function Chain(h: Words8, data: Bytes, t: nat): Words8
    decreases |data|
  {
    hide Compress;
    if |data| < 64 then h
    else Chain(Compress(h, data[..64], t + 64, false), data[64..], t + 64)
  }

  function InitialHash(outlen: nat, keylen: nat): Words8
    requires 1 <= outlen <= 32 && keylen <= 32
  {
    hide XorWord;
    IV[0 := XorWord(IV[0], XorWord(XorWord(0x0101_0000, (256 * keylen) as u32), outlen as u32))]
  }

  /** The key, when there is one, is a first block of its own. */
  function KeyBlock(key: Bytes): (b: Bytes)
    requires |key| <= 32
  {
    if key == [] then [] else PadBlock(key)
  }

  function Digest(h: Words8, outlen: nat): (d: Bytes)
    requires outlen <= 32
    ensures |d| == 32
  {
    seq(32, i requires 0 <= i < 32 => if i < outlen then ToLE(h[i / 4] as int, 4)[i % 4] else 0)
  }

  /** BLAKE2s of section 3.3, keyed or not, any input length. */
  function HashSpec(outlen: nat, key: Bytes, data: Bytes): (d: Bytes)
    requires 1 <= outlen <= 32 && |key| <= 32
    ensures |d| == 32
  {
    Digest(Fold(InitialHash(outlen, |key|), KeyBlock(key) + data, 0), outlen)
  }

  lemma {:induction false} ChainAppend(h: Words8, data: Bytes, block: Bytes, t: nat)
    requires |data| % 64 == 0 && |block| == 64
    ensures Chain(h, data + block, t) == Compress(Chain(h, data, t), block, t + |data| + 64, false)
    decreases |data|
  {
    hide Compress;
    if data == [] {
      assert (data + block)[..64] == block && (data + block)[64..] == [];
    } else {
      assert (data + block)[..64] == data[..64];
      assert (data + block)[64..] == data[64..] + block;
      ChainAppend(Compress(h, data[..64], t + 64, false), data[64..], block, t + 64);
    }
  }

  /** The fold over full blocks and a non-empty rest is the chain, then the fold of the rest. */
  lemma {:induction false} FoldAfterChain(h: Words8, data: Bytes, rest: Bytes, t: nat)
    requires |data| % 64 == 0
    requires data == [] || rest != []
    ensures Fold(h, data + rest, t) == Fold(Chain(h, data, t), rest, t + |data|)
    decreases |data|
  {
    hide Compress;
    if data == [] {
      assert data + rest == rest;
    } else {
      assert (data + rest)[..64] == data[..64];
      assert (data + rest)[64..] == data[64..] + rest;
      FoldAfterChain(Compress(h, data[..64], t + 64, false), data[64..], rest, t + 64);
    }
  }

  // ---- In place ------------------------------------------------------------

  method G(v: array<u32>, a: nat, b: nat, c: nat, d: nat, x: u32, y: u32)
    requires v.Length == 16 && a < 16 && b < 16 && c < 16 && d < 16
    requires a != b && a != c && a != d && b != c && b != d && c != d
    modifies v
    ensures v[..] == MixAt(old(v[..]), a, b, c, d, x, y)
  {
    hide WrapAdd, XorWord, RotateLeft;
    v[a] := WrapAdd(WrapAdd(v[a], v[b]), x);
    v[d] := Rotr16(XorWord(v[d], v[a]));
    v[c] := WrapAdd(v[c], v[d]);
    v[b] := Rotr12(XorWord(v[b], v[c]));
    v[a] := WrapAdd(WrapAdd(v[a], v[b]), y);
    v[d] := Rotr8(XorWord(v[d], v[a]));
    v[c] := WrapAdd(v[c], v[d]);
    v[b] := Rotr7(XorWord(v[b], v[c]));
  }

  method RoundInPlace(v: array<u32>, m: Words16, s: Row)
    requires v.Length == 16
    modifies v
    ensures v[..] == Round(old(v[..]), m, s)
  {
    hide MixAt;
    G(v, 0, 4, 8, 12, m[s[0]], m[s[1]]);
    G(v, 1, 5, 9, 13, m[s[2]], m[s[3]]);
    G(v, 2, 6, 10, 14, m[s[4]], m[s[5]]);
    G(v, 3, 7, 11, 15, m[s[6]], m[s[7]]);
    G(v, 0, 5, 10, 15, m[s[8]], m[s[9]]);
    G(v, 1, 6, 11, 12, m[s[10]], m[s[11]]);
    G(v, 2, 7, 8, 13, m[s[12]], m[s[13]]);
    G(v, 3, 4, 9, 14, m[s[14]], m[s[15]]);
  }

  /** The zero-padded key is the key block, and no key is no block. */
  lemma KeyIsBuffered(key: Bytes, buf: Bytes)
    requires |key| <= 32 && |buf| == 64
    requires forall i :: 0 <= i < 64 ==> buf[i] == if i < |key| then key[i] else 0
    ensures buf[..if |key| > 0 then 64 else 0] == KeyBlock(key)
  {
  }

  lemma NothingChained(h: Words8)
    ensures Chain(h, [], 0) == h && CounterLow(0) == 0 && CounterHigh(0) == 0
  {
  }

  class State {
    var h: array<u32>
    var t0: u32
    var t1: u32
    var buf: array<u8>
    var buflen: nat
    const outlen: nat
    /** Everything fed so far, key block included, and the hash value it started from. */
    ghost var Fed: Bytes
    ghost const Start: Words8

    ghost predicate Shape()
      reads this
    {
      h.Length == 8 && buf.Length == 64 && buflen <= 64 && 1 <= outlen <= 32
    }

    /** The buffer holds the last bytes, never flushed while they could be the final block; the
        hash value and the counter pair account for all the full blocks before them. */
    ghost predicate Valid()
      reads this, h, buf
    {
      Consistent() && (Fed != [] ==> buflen > 0)
    }

    ghost predicate Consistent()
      reads this, h, buf
    {
      && Shape()
      && buflen <= |Fed|
      && (|Fed| - buflen) % 64 == 0
      && buf[..buflen] == Fed[|Fed| - buflen..]
      && h[..] == Chain(Start, Fed[..|Fed| - buflen], 0)
      && t0 == CounterLow(|Fed| - buflen) && t1 == CounterHigh(|Fed| - buflen)
    }

    constructor (outlen: nat, key: Bytes)
      requires 1 <= outlen <= 32 && |key| <= 32
      ensures Valid() && fresh(h) && fresh(buf)
      ensures this.outlen == outlen && Start == InitialHash(outlen, |key|)
      ensures Fed == KeyBlock(key)
    {
      hide InitialHash, KeyBlock, PadBlock, Chain, CounterLow, CounterHigh;
      var h' := new u32[8](i requires 0 <= i < 8 => InitialHash(outlen, |key|)[i]);
      var buf' := new u8[64](i requires 0 <= i < 64 => if i < |key| then key[i] else 0);
      KeyIsBuffered(key, buf'[..]);
      NothingChained(InitialHash(outlen, |key|));
      this.h := h';
      this.buf := buf';
      this.t0 := 0;
      this.t1 := 0;
      this.buflen := if |key| > 0 then 64 else 0;
      this.outlen := outlen;
      this.Fed := KeyBlock(key);
      this.Start := InitialHash(outlen, |key|);
      new;
      assert h[..] == InitialHash(outlen, |key|);
      assert buf[..buflen] == KeyBlock(key);
    }

    /** The two-word counter with an explicit carry. */
    method IncrementCounter(n: u32)
      modifies this`t0, this`t1
      ensures forall t: nat :: old(t0) == CounterLow(t) && old(t1) == CounterHigh(t) ==>
        t0 == CounterLow(t + n as int) && t1 == CounterHigh(t + n as int)
    {
      t0 := WrapAdd(t0, n);
      if t0 < n {
        t1 := WrapAdd(t1, 1);
      }
      forall t: nat | old(t0) == CounterLow(t) && old(t1) == CounterHigh(t)
        ensures t0 == CounterLow(t + n as int) && t1 == CounterHigh(t + n as int)
      {
        CounterCarry(t, n as int);
      }
    }

    /** The local work vector. */
    method WorkVector(last: bool) returns (v: array<u32>)
      requires Shape()
      ensures fresh(v) && v[..] == StartVector(h[..], t0, t1, last)
    {
      hide XorWord;
      v := new u32[16](_ => 0);
      forall i | 0 <= i < 8 {
        v[i] := h[i];
      }
      forall i | 8 <= i < 16 {
        v[i] := IV[i - 8];
      }
      ghost var plain := v[..];
      v[12] := XorWord(v[12], t0);
      v[13] := XorWord(v[13], t1);
      if last {
        v[14] := XorWord(v[14], 0xFFFF_FFFF);
      }
      assert forall j :: 0 <= j < 16 ==> plain[j] == if j < 8 then h[j] else IV[j - 8];
      FinishVector(h[..], t0, t1, last, plain, v[..]);
    }

    /** Mix a block into the hash value. */
    method CompressBlock(block: Bytes, last: bool)
      requires Shape() && |block| == 64
      modifies h
      ensures h[..] == CompressWith(old(h[..]), block, t0, t1, last)
    {
      hide Folded, Round, WordAt, Sigma, StartVector;
      var m := seq(16, i requires 0 <= i < 16 => WordAt(block, i));
      assert m == MessageWords(block);
      ghost var was := h[..];
      ghost var start := StartVector(was, t0, t1, last);
      var v := WorkVector(last);
      for s := 0 to 10
        modifies v
        invariant v[..] == Rounds(start, m, s)
      {
        RoundInPlace(v, m, Sigma(s));
      }
      assert h[..] == was;
      XorHalves(v);
      assert forall j :: 0 <= j < 8 ==> h[j] == Folded(was, v[..], j);
      assert forall j :: 0 <= j < 8 ==> h[..][j] == h[j];
      FoldedIsCompressed(was, block, t0, t1, last, v[..], h[..]);
    }

    method XorHalves(v: array<u32>)
      requires Shape() && v.Length == 16 && v != h
      modifies h
      ensures forall j :: 0 <= j < 8 ==> h[j] == Folded(old(h[..]), v[..], j)
    {
      hide Folded, XorWord;
      ghost var was := h[..];
      for i := 0 to 8
        invariant forall j :: 0 <= j < i ==> h[j] == Folded(was, v[..], j)
        invariant forall j :: i <= j < 8 ==> h[j] == was[j]
      {
        FoldedWord(was, v[..], i);
        h[i] := XorWord(h[i], XorWord(v[i], v[i + 8]));
      }
    }

    /** Compress a full buffer that is known not to be the last block. */
    method Flush()
      requires Consistent() && buflen == 64
      modifies this`t0, this`t1, this`buflen, h
      ensures Consistent() && buflen == 0
    {
      hide CompressWith, CounterLow, CounterHigh;
      ghost var done := |Fed| - 64;
      IncrementCounter(64);
      assert t0 == CounterLow(done + 64) && t1 == CounterHigh(done + 64);
      CompressBlock(buf[..], false);
      assert buf[..] == buf[..64] == Fed[done..];
      ChainAppend(Start, Fed[..done], Fed[done..], 0);
      assert Fed[..done] + Fed[done..] == Fed == Fed[..|Fed|];
      buflen := 0;
    }

    /** Copy bytes behind those already buffered. */
    method Fill(bytes: Bytes)
      requires Consistent() && bytes != [] && buflen + |bytes| <= 64
      modifies this`buflen, this`Fed, buf
      ensures Valid() && Fed == old(Fed) + bytes
    {
      hide Chain, CounterLow, CounterHigh;
      ghost var done := |Fed| - buflen;
      ghost var was := buf[..buflen];
      forall i | 0 <= i < |bytes| {
        buf[buflen + i] := bytes[i];
      }
      assert buf[..buflen + |bytes|] == was + bytes;
      Fed := Fed + bytes;
      buflen := buflen + |bytes|;
      assert Fed[..done] == old(Fed)[..done];
      assert Fed[done..] == was + bytes;
    }

    /** One turn of the feeding loop: flush a full buffer, then fill it. */
    method Take(rest: Bytes) returns (take: nat)
      requires Valid() && rest != []
      modifies this`t0, this`t1, this`buflen, this`Fed, h, buf
      ensures Valid() && 0 < take <= |rest|
      ensures Fed == old(Fed) + rest[..take]
    {
      hide Chain, CounterLow, CounterHigh;
      if buflen == 64 {
        Flush();
      }
      var space := 64 - buflen;
      take := if space < |rest| then space else |rest|;
      Fill(rest[..take]);
    }

    /** Feed data; a full buffer is flushed only when more data follows it. */
    method Update(data: Bytes)
      requires Valid()
      modifies this`t0, this`t1, this`buflen, this`Fed, h, buf
      ensures Valid()
      ensures Fed == old(Fed) + data
    {
      hide Valid;
      var rest := data;
      while rest != []
        invariant Valid()
        invariant Fed + rest == old(Fed) + data
        decreases |rest|
      {
        ghost var fed := Fed;
        var take := Take(rest);
        assert fed + rest == fed + rest[..take] + rest[take..];
        rest := rest[take..];
      }
    }

    /** Pad, count the last bytes, compress with the final flag, serialize. */
    method Finalize() returns (out: Bytes)
      requires Valid()
      modifies this`t0, this`t1, h, buf
      ensures out == Digest(Fold(Start, old(Fed), 0), outlen)
    {
      hide CompressWith, CounterLow, CounterHigh, Chain, Fold, ToLE, Digest;
      ghost var done := |Fed| - buflen;
      ghost var rest := buf[..buflen];
      ghost var before := h[..];
      IncrementCounter(buflen as u32);
      assert t0 == CounterLow(done + buflen) && t1 == CounterHigh(done + buflen);
      PadBuffer();
      CompressBlock(buf[..], true);
      assert h[..] == Compress(before, PadBlock(rest), done + |rest|, true);
      FinalFold(Start, Fed, done, rest, before);
      out := SerializeHash();
    }

    /** Zero the unused end of the buffer. */
    method PadBuffer()
      requires Shape()
      modifies buf
      ensures buf[..] == PadBlock(old(buf[..buflen]))
    {
      ghost var rest := buf[..buflen];
      for i := buflen to 64
        invariant buf[..buflen] == rest
        invariant forall j :: buflen <= j < i ==> buf[j] == 0
      {
        buf[i] := 0;
      }
    }

    method SerializeHash() returns (out: Bytes)
      requires Shape()
      ensures out == Digest(h[..], outlen)
    {
      hide ToLE;
      var bytes := new u8[32](_ => 0);
      var i := 0;
      while i < 8
        invariant 0 <= i <= 8
        invariant forall j :: 0 <= j < 32 ==>
          bytes[j] == if j < 4 * i && j < outlen then ToLE(h[j / 4] as int, 4)[j % 4] else 0
      {
        var off := 4 * i;
        var left := if outlen > off then outlen - off else 0;
        var avail := if left < 4 then left else 4;
        if avail == 0 {
          break;
        }
        var word := ToLE(h[i] as int, 4);
        forall j | 0 <= j < avail {
          bytes[off + j] := word[j];
        }
        i := i + 1;
      }
      assert bytes[..] == Digest(h[..], outlen);
      out := bytes[..];
    }
  }

  /** What the last compression computes is the fold of everything fed. */
  lemma FinalFold(h: Words8, fed: Bytes, done: nat, rest: Bytes, chained: Words8)
    requires done <= |fed| && done % 64 == 0
    requires rest == fed[done..] && |rest| <= 64
    requires fed != [] ==> rest != []
    requires chained == Chain(h, fed[..done], 0)
    ensures Fold(h, fed, 0) == Compress(chained, PadBlock(rest), done + |rest|, true)
  {
    hide Compress;
    assert fed == fed[..done] + rest;
    FoldAfterChain(h, fed[..done], rest, 0);
  }

  lemma CounterCarry(t: nat, n: nat)
    requires n < 0x1_0000_0000
    ensures var lo := WrapAdd(CounterLow(t), n as u32);
            && lo == CounterLow(t + n)
            && CounterHigh(t + n) == if lo as int < n then WrapAdd(CounterHigh(t), 1) else CounterHigh(t)
  {
    var w := 0x1_0000_0000;
    var q, r := t / w, t % w;
    if r + n < w {
      DivModUnique(t + n, q, r + n, w);
    } else {
      DivModUnique(t + n, q + 1, r + n - w, w);
      if q % w == w - 1 {
        DivModUnique(q + 1, q / w + 1, 0, w);
      } else {
        DivModUnique(q + 1, q / w, q % w + 1, w);
      }
    }
  }

  // ---- Public functions ----------------------------------------------------

  method Hash(input: Bytes) returns (d: Bytes)
    ensures d == HashSpec(32, [], input)
  {
    hide Fold, Digest, InitialHash, State.Valid, KeyBlock;
    var s := new State(32, []);
    s.Update(input);
    assert s.Fed == KeyBlock([]) + input;
    d := s.Finalize();
  }

  method Keyed(key: Bytes, input: Bytes) returns (d: Bytes)
    requires |key| <= 32
    ensures d == HashSpec(32, key, input)
  {
    hide Fold, Digest, InitialHash, State.Valid, KeyBlock;
    var s := new State(32, key);
    s.Update(input);
    d := s.Finalize();
  }

  function Concat(parts: seq<Bytes>): Bytes {
    if parts == [] then [] else Concat(parts[..|parts| - 1]) + parts[|parts| - 1]
  }

  /** However the input is split over calls of Update, the digest is that of the whole. */
  method HashInPieces(outlen: nat, key: Bytes, parts: seq<Bytes>) returns (d: Bytes)
    requires 1 <= outlen <= 32 && |key| <= 32
    ensures d == HashSpec(outlen, key, Concat(parts))
  {
    hide Fold, Digest, InitialHash, State.Valid, KeyBlock;
    var s := new State(outlen, key);
    for i := 0 to |parts|
      invariant s.Valid() && fresh(s) && fresh(s.h) && fresh(s.buf)
      invariant s.Fed == KeyBlock(key) + Concat(parts[..i])
      invariant s.Start == InitialHash(outlen, |key|) && s.outlen == outlen
    {
      s.Update(parts[i]);
      assert parts[..i + 1][..i] == parts[..i];
    }
    assert parts[..|parts|] == parts;
    d := s.Finalize();
  }

  // ---- HMAC ----------------------------------------------------------------

  /** The key of the HMAC construction, brought to one block. */
  function HmacKey(key: Bytes): (k: Bytes)
    ensures |k| == 64
  {
    if |key| > 64 then HashSpec(32, [], key) + Zeros(32) else PadBlock(key)
  }

  function XorPad(k: Bytes, pad: u8): (r: Bytes)
    requires |k| == 64
    ensures |r| == 64
  {
    seq(64, i requires 0 <= i < 64 => OpByte(XorOp, k[i], pad))
  }

  /** H((k ^ opad) || H((k ^ ipad) || message)). */
  function HmacSpec(key: Bytes, message: Bytes): (d: Bytes)
    ensures |d| == 32
  {
    var k := HmacKey(key);
    HashSpec(32, [], XorPad(k, 0x5C) + HashSpec(32, [], XorPad(k, 0x36) + message))
  }

  /** The digest of two strings fed one after the other. */
  method HashTwo(a: Bytes, b: Bytes) returns (d: Bytes)
    ensures d == HashSpec(32, [], a + b)
  {
    hide Fold, Digest, InitialHash, State.Valid, KeyBlock;
    var s := new State(32, []);
    s.Update(a);
    s.Update(b);
    assert s.Fed == KeyBlock([]) + (a + b);
    d := s.Finalize();
  }

  method Hmac(key: Bytes, message: Bytes) returns (d: Bytes)
    ensures d == HmacSpec(key, message)
  {
    hide HashSpec, OpByte;
    var k: Bytes;
    if |key| > 64 {
      var h := Hash(key);
      k := h + Zeros(32);
    } else {
      k := key + Zeros(64 - |key|);
    }
    var ipad, opad := new u8[64](_ => 0), new u8[64](_ => 0);
    for i := 0 to 64
      invariant forall j :: 0 <= j < i ==> ipad[j] == OpByte(XorOp, k[j], 0x36)
      invariant forall j :: 0 <= j < i ==> opad[j] == OpByte(XorOp, k[j], 0x5C)
    {
      ipad[i] := OpByte(XorOp, k[i], 0x36);
      opad[i] := OpByte(XorOp, k[i], 0x5C);
    }
    assert ipad[..] == XorPad(k, 0x36) && opad[..] == XorPad(k, 0x5C);
    var inner := HashTwo(ipad[..], message);
    d := HashTwo(opad[..], inner);
  }
}
