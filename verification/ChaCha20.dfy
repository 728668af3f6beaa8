/** The ChaCha20 stream of sections 2.1 to 2.4 of RFC 8439, in place and as a function of position. */
module ChaCha20 {
  import opened Words
  import opened ByteStrings
  import opened Words32

  // ---- Specification -------------------------------------------------------

  /** The quarter round of section 2.1 on words a, b, c, d. */
  function Quarter(a: u32, b: u32, c: u32, d: u32): (u32, u32, u32, u32) {
    var a1 := WrapAdd(a, b);
    var d1 := RotateLeft(XorWord(d, a1), 0x1_0000, 0x1_0000);
    var c1 := WrapAdd(c, d1);
    var b1 := RotateLeft(XorWord(b, c1), 0x1000, 0x10_0000);
    var a2 := WrapAdd(a1, b1);
    var d2 := RotateLeft(XorWord(d1, a2), 0x100, 0x100_0000);
    var c2 := WrapAdd(c1, d2);
    var b2 := RotateLeft(XorWord(b1, c2), 0x80, 0x200_0000);
    (a2, b2, c2, d2)
  }

  function QuarterAt(s: Words16, a: nat, b: nat, c: nat, d: nat): Words16
    requires a < 16 && b < 16 && c < 16 && d < 16
  {
    var q := Quarter(s[a], s[b], s[c], s[d]);
    s[a := q.0][b := q.1][c := q.2][d := q.3]
  }

  function DoubleRound(s: Words16): Words16 {
    var c := QuarterAt(QuarterAt(QuarterAt(QuarterAt(s, 0, 4, 8, 12), 1, 5, 9, 13), 2, 6, 10, 14), 3, 7, 11, 15);
    QuarterAt(QuarterAt(QuarterAt(QuarterAt(c, 0, 5, 10, 15), 1, 6, 11, 12), 2, 7, 8, 13), 3, 4, 9, 14)
  }

  function Rounds(s: Words16, n: nat): Words16 {
    if n == 0 then s else DoubleRound(Rounds(s, n - 1))
  }

  /** The 64 bytes of a block: the words after 20 rounds added to the words before. */
  function BlockSpec(s: Words16): (b: Bytes)
    ensures |b| == 64
  {
    SerializeWords(s, Rounds(s, 10), 16)
  }

  function SerializeWords(s: Words16, w: Words16, n: nat): (b: Bytes)
    requires n <= 16
    ensures |b| == 4 * n
  {
    if n == 0 then [] else SerializeWords(s, w, n - 1) + ToLE(WrapAdd(w[n - 1], s[n - 1]) as int, 4)
  }

  /** The initial state of section 2.3: constants, key, counter, nonce. */
  function InitialState(key: Bytes, nonce: Bytes, counter: u32): Words16
    requires |key| == 32 && |nonce| == 12
  {
    [0x6170_7865, 0x3320_646e, 0x7962_2d32, 0x6b20_6574,
     WordAt(key, 0), WordAt(key, 1), WordAt(key, 2), WordAt(key, 3),
     WordAt(key, 4), WordAt(key, 5), WordAt(key, 6), WordAt(key, 7),
     counter, WordAt(nonce, 0), WordAt(nonce, 1), WordAt(nonce, 2)]
  }

  function KeyBlock(key: Bytes, nonce: Bytes, counter: u32): (b: Bytes)
    requires |key| == 32 && |nonce| == 12
    ensures |b| == 64
  {
    BlockSpec(InitialState(key, nonce, counter))
  }

  /** The counter of block k: the 32-bit word wraps. */
  function CounterAt(counter: u32, k: nat): u32 {
    ((counter as int + k) % 0x1_0000_0000) as u32
  }

  /** Keystream byte i: byte i mod 64 of the block numbered counter + i / 64, modulo 2^32. */
  function StreamByte(key: Bytes, nonce: Bytes, counter: u32, i: nat): u8
    requires |key| == 32 && |nonce| == 12
  {
    KeyBlock(key, nonce, CounterAt(counter, i / 64))[i % 64]
  }

  /** Encryption and decryption: every byte XOR its keystream byte. */
  function XorStream(key: Bytes, nonce: Bytes, counter: u32, data: Bytes): (r: Bytes)
    requires |key| == 32 && |nonce| == 12
    ensures |r| == |data|
  {
    seq(|data|, i requires 0 <= i < |data| => OpByte(XorOp, data[i], StreamByte(key, nonce, counter, i)))
  }

  /** The stream cipher undoes itself. */
  lemma XorStreamInvolution(key: Bytes, nonce: Bytes, counter: u32, data: Bytes)
    requires |key| == 32 && |nonce| == 12
    ensures XorStream(key, nonce, counter, XorStream(key, nonce, counter, data)) == data
  {
    hide StreamByte, OpByte;
    var once := XorStream(key, nonce, counter, data);
    forall i | 0 <= i < |data|
      ensures OpByte(XorOp, once[i], StreamByte(key, nonce, counter, i)) == data[i]
    {
      XorByteTwice(data[i], StreamByte(key, nonce, counter, i));
    }
  }

  lemma XorByteTwice(a: u8, b: u8)
    ensures OpByte(XorOp, OpByte(XorOp, a, b), b) == a
  {
    XorInvolution(a as int, b as int);
  }

  // ---- In place ------------------------------------------------------------

  method QuarterRound(s: array<u32>, a: nat, b: nat, c: nat, d: nat)
    requires s.Length == 16 && a < 16 && b < 16 && c < 16 && d < 16
    requires a != b && a != c && a != d && b != c && b != d && c != d
    modifies s
    ensures s[..] == QuarterAt(old(s[..]), a, b, c, d)
  {
    hide WrapAdd, XorWord, RotateLeft;
    s[a] := WrapAdd(s[a], s[b]);
    s[d] := XorWord(s[d], s[a]);
    s[d] := RotateLeft(s[d], 0x1_0000, 0x1_0000);
    s[c] := WrapAdd(s[c], s[d]);
    s[b] := XorWord(s[b], s[c]);
    s[b] := RotateLeft(s[b], 0x1000, 0x10_0000);
    s[a] := WrapAdd(s[a], s[b]);
    s[d] := XorWord(s[d], s[a]);
    s[d] := RotateLeft(s[d], 0x100, 0x100_0000);
    s[c] := WrapAdd(s[c], s[d]);
    s[b] := XorWord(s[b], s[c]);
    s[b] := RotateLeft(s[b], 0x80, 0x200_0000);
  }

  /** Column rounds, then diagonal rounds. */
  method DoubleRoundInPlace(work: array<u32>)
    requires work.Length == 16
    modifies work
    ensures work[..] == DoubleRound(old(work[..]))
  {
    hide QuarterAt;
    QuarterRound(work, 0, 4, 8, 12);
    QuarterRound(work, 1, 5, 9, 13);
    QuarterRound(work, 2, 6, 10, 14);
    QuarterRound(work, 3, 7, 11, 15);
    QuarterRound(work, 0, 5, 10, 15);
    QuarterRound(work, 1, 6, 11, 12);
    QuarterRound(work, 2, 7, 8, 13);
    QuarterRound(work, 3, 4, 9, 14);
  }

  method Block(state: array<u32>) returns (out: array<u8>)
    requires state.Length == 16
    ensures fresh(out) && out[..] == BlockSpec(state[..])
  {
    hide DoubleRound, SerializeWords;
    var work := new u32[16](i requires 0 <= i < 16 reads state => state[i]);
    assert work[..] == state[..];
    for n := 0 to 10
      invariant work[..] == Rounds(state[..], n)
    {
      DoubleRoundInPlace(work);
    }
    out := Serialize(state, work);
  }

  method Serialize(state: array<u32>, work: array<u32>) returns (out: array<u8>)
    requires state.Length == 16 && work.Length == 16
    ensures fresh(out) && out[..] == SerializeWords(state[..], work[..], 16)
  {
    hide ToLE, WrapAdd;
    out := new u8[64](_ => 0);
    for i := 0 to 16
      invariant out[..4 * i] == SerializeWords(state[..], work[..], i)
    {
      var bytes := ToLE(WrapAdd(work[i], state[i]) as int, 4);
      ghost var before := out[..4 * i];
      out[4 * i], out[4 * i + 1], out[4 * i + 2], out[4 * i + 3] := bytes[0], bytes[1], bytes[2], bytes[3];
      assert out[..4 * i] == before;
      assert out[..4 * (i + 1)] == before + bytes;
    }
    assert out[..64] == out[..];
  }

  /** The buffer with the keystream applied to its first n bytes. */
  ghost predicate Applied(now: Bytes, was: Bytes, key: Bytes, nonce: Bytes, counter: u32, n: nat)
    requires |key| == 32 && |nonce| == 12
  {
    && |now| == |was|
    && forall j :: 0 <= j < |was| ==>
      now[j] == if j < n then OpByte(XorOp, was[j], StreamByte(key, nonce, counter, j)) else was[j]
  }

  /** XOR one block into the next bytes of the buffer, at most 64 of them. */
  method XorBlock(data: array<u8>, pos: nat, block: array<u8>, ghost was: Bytes,
                  ghost key: Bytes, ghost nonce: Bytes, ghost counter: u32)
    requires |key| == 32 && |nonce| == 12
    requires data != block && block.Length == 64
    requires pos % 64 == 0 && pos < data.Length
    requires block[..] == KeyBlock(key, nonce, CounterAt(counter, pos / 64))
    requires Applied(data[..], was, key, nonce, counter, pos)
    modifies data
    ensures Applied(data[..], was, key, nonce, counter, pos + 64)
  {
    hide KeyBlock, OpByte;
    var len := if data.Length - pos < 64 then data.Length - pos else 64;
    for i := 0 to len
      invariant block[..] == KeyBlock(key, nonce, CounterAt(counter, pos / 64))
      invariant Applied(data[..], was, key, nonce, counter, pos + i)
    {
      assert (pos + i) / 64 == pos / 64 && (pos + i) % 64 == i;
      assert block[i] == block[..][i];
      assert data[pos + i] == data[..][pos + i];
      data[pos + i] := OpByte(XorOp, data[pos + i], block[i]);
    }
  }

  /** One turn of the loop: a block of keystream, and the next counter. */
  method XorRound(state: array<u32>, data: array<u8>, pos: nat, ghost was: Bytes,
                  ghost key: Bytes, ghost nonce: Bytes, ghost counter: u32)
    requires |key| == 32 && |nonce| == 12
    requires state.Length == 16 && pos % 64 == 0 && pos < data.Length
    requires state[..] == InitialState(key, nonce, CounterAt(counter, pos / 64))
    requires Applied(data[..], was, key, nonce, counter, pos)
    modifies state, data
    ensures state[..] == InitialState(key, nonce, CounterAt(counter, (pos + 64) / 64))
    ensures Applied(data[..], was, key, nonce, counter, pos + 64)
  {
    hide InitialState, Applied, CounterAt, BlockSpec, WrapAdd;
    var block := Block(state);
    XorBlock(data, pos, block, was, key, nonce, counter);
    NextCounter(key, nonce, counter, pos / 64);
    assert (pos + 64) / 64 == pos / 64 + 1;
    assert state[12] == state[..][12];
    ghost var words := state[..];
    state[12] := WrapAdd(state[12], 1);
    assert state[..] == words[12 := state[12]];
  }

  /** XOR the keystream into the buffer, 64 bytes at a time; the block counter wraps at 2^32. */
  method ChaCha20Xor(key: Bytes, nonce: Bytes, counter: u32, data: array<u8>)
    requires |key| == 32 && |nonce| == 12
    modifies data
    ensures data[..] == XorStream(key, nonce, counter, old(data[..]))
  {
    hide InitialState, Applied, CounterAt, XorStream;
    ghost var was := data[..];
    var state := NewState(key, nonce, counter);
    NothingApplied(was, key, nonce, counter);
    var pos := 0;
    while pos < data.Length
      invariant pos % 64 == 0
      invariant fresh(state) && state.Length == 16
      invariant state[..] == InitialState(key, nonce, CounterAt(counter, pos / 64))
      invariant Applied(data[..], was, key, nonce, counter, pos)
    {
      XorRound(state, data, pos, was, key, nonce, counter);
      pos := pos + 64;
    }
    AllApplied(data[..], was, key, nonce, counter, pos);
  }

  lemma NothingApplied(was: Bytes, key: Bytes, nonce: Bytes, counter: u32)
    requires |key| == 32 && |nonce| == 12
    ensures Applied(was, was, key, nonce, counter, 0) && CounterAt(counter, 0) == counter
  {
    hide StreamByte;
  }

  lemma AllApplied(now: Bytes, was: Bytes, key: Bytes, nonce: Bytes, counter: u32, n: nat)
    requires |key| == 32 && |nonce| == 12
    requires Applied(now, was, key, nonce, counter, n) && |now| <= n
    ensures now == XorStream(key, nonce, counter, was)
  {
    hide StreamByte, OpByte;
  }

  lemma NextCounter(key: Bytes, nonce: Bytes, counter: u32, k: nat)
    requires |key| == 32 && |nonce| == 12
    ensures var now, next := CounterAt(counter, k), CounterAt(counter, k + 1);
            && WrapAdd(now, 1) == next
            && InitialState(key, nonce, now)[12] == now
            && InitialState(key, nonce, now)[12 := next] == InitialState(key, nonce, next)
  {
    hide WordAt;
  }

  method NewState(key: Bytes, nonce: Bytes, counter: u32) returns (s: array<u32>)
    requires |key| == 32 && |nonce| == 12
    ensures fresh(s) && s[..] == InitialState(key, nonce, counter)
  {
    hide WordAt, InitialState;
    s := new u32[16](_ => 0);
    s[0], s[1], s[2], s[3] := 0x6170_7865, 0x3320_646e, 0x7962_2d32, 0x6b20_6574;
    for i := 0 to 8
      invariant s[0] == 0x6170_7865 && s[1] == 0x3320_646e && s[2] == 0x7962_2d32 && s[3] == 0x6b20_6574
      invariant forall j :: 0 <= j < i ==> s[4 + j] == WordAt(key, j)
    {
      s[4 + i] := WordAt(key, i);
    }
    s[12] := counter;
    s[13] := WordAt(nonce, 0);
    s[14] := WordAt(nonce, 1);
    s[15] := WordAt(nonce, 2);
    StateWords(s[..], key, nonce, counter);
  }

  lemma StateWords(s: Words16, key: Bytes, nonce: Bytes, counter: u32)
    requires |key| == 32 && |nonce| == 12
    requires s[0] == 0x6170_7865 && s[1] == 0x3320_646e && s[2] == 0x7962_2d32 && s[3] == 0x6b20_6574
    requires forall j :: 0 <= j < 8 ==> s[4 + j] == WordAt(key, j)
    requires s[12] == counter
    requires s[13] == WordAt(nonce, 0) && s[14] == WordAt(nonce, 1) && s[15] == WordAt(nonce, 2)
    ensures s == InitialState(key, nonce, counter)
  {
    hide WordAt;
    assert s[4 + 0] == WordAt(key, 0) && s[4 + 1] == WordAt(key, 1) && s[4 + 2] == WordAt(key, 2);
    assert s[4 + 3] == WordAt(key, 3) && s[4 + 4] == WordAt(key, 4) && s[4 + 5] == WordAt(key, 5);
    assert s[4 + 6] == WordAt(key, 6) && s[4 + 7] == WordAt(key, 7);
  }
}
