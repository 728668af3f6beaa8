/** ChaCha20-Poly1305, section 2.8 of RFC 8439: seal, open, and the text the tag covers. */
module Aead {
  import opened Words
  import opened ByteStrings
  import opened Options
  import opened ChaCha20
  import Poly1305

  // ---- Specification -------------------------------------------------------

  function Pad16Len(n: nat): (r: nat)
    ensures (n + r) % 16 == 0 && r < 16
  {
    var r := n % 16;
    if r == 0 then 0 else 16 - r
  }

  /** What the tag covers: both strings padded to 16 bytes, then both lengths. */
  function MacData(aad: Bytes, ct: Bytes): Bytes {
    aad + Zeros(Pad16Len(|aad|)) + ct + Zeros(Pad16Len(|ct|)) + ToLE(|aad|, 8) + ToLE(|ct|, 8)
  }

  /** The one-time key is the first half of block 0. */
  function Tag(key: Bytes, nonce: Bytes, aad: Bytes, ct: Bytes): (t: Bytes)
    requires |key| == 32 && |nonce| == 12
    ensures |t| == 16
  {
    ToLE(Poly1305.TagSpec(KeyBlock(key, nonce, 0)[..32], MacData(aad, ct)), 16)
  }

  function SealSpec(key: Bytes, nonce: Bytes, aad: Bytes, plaintext: Bytes): (c: Bytes)
    requires |key| == 32 && |nonce| == 12
    ensures |c| == |plaintext| + 16
  {
    var ct := XorStream(key, nonce, 1, plaintext);
    ct + Tag(key, nonce, aad, ct)
  }

  function OpenSpec(key: Bytes, nonce: Bytes, aad: Bytes, c: Bytes): Option<Bytes>
    requires |key| == 32 && |nonce| == 12
  {
    if |c| < 16 then None
    else
      var ct := c[..|c| - 16];
      if c[|c| - 16..] != Tag(key, nonce, aad, ct) then None
      else Some(XorStream(key, nonce, 1, ct))
  }

  // ---- What opening and sealing promise ------------------------------------

  /** Opening succeeds exactly on the sealed form of what it returns. */
  lemma OpenExactlySealed(key: Bytes, nonce: Bytes, aad: Bytes, c: Bytes, plaintext: Bytes)
    requires |key| == 32 && |nonce| == 12
    ensures OpenSpec(key, nonce, aad, c) == Some(plaintext)
       <==> c == SealSpec(key, nonce, aad, plaintext)
  {
    hide XorStream, Tag;
    if |c| >= 16 {
      var ct := c[..|c| - 16];
      assert c == ct + c[|c| - 16..];
      XorStreamInvolution(key, nonce, 1, ct);
    }
    var sealed := SealSpec(key, nonce, aad, plaintext);
    var ct' := XorStream(key, nonce, 1, plaintext);
    XorStreamInvolution(key, nonce, 1, plaintext);
    assert sealed[..|sealed| - 16] == ct' && sealed[|sealed| - 16..] == Tag(key, nonce, aad, ct');
  }

  /** Sealing under one key and nonce is injective in the plaintext. */
  lemma SealInjective(key: Bytes, nonce: Bytes, aad: Bytes, p: Bytes, q: Bytes)
    requires |key| == 32 && |nonce| == 12
    requires SealSpec(key, nonce, aad, p) == SealSpec(key, nonce, aad, q)
    ensures p == q
  {
    hide SealSpec, OpenSpec;
    OpenExactlySealed(key, nonce, aad, SealSpec(key, nonce, aad, p), p);
    OpenExactlySealed(key, nonce, aad, SealSpec(key, nonce, aad, q), q);
  }

  /** The covered text determines both strings: no two (aad, ciphertext) pairs share it. */
  lemma MacDataInjective(a: Bytes, c: Bytes, a': Bytes, c': Bytes)
    requires |a| < 0x1_0000_0000_0000_0000 && |c| < 0x1_0000_0000_0000_0000
    requires |a'| < 0x1_0000_0000_0000_0000 && |c'| < 0x1_0000_0000_0000_0000
    requires MacData(a, c) == MacData(a', c')
    ensures a == a' && c == c'
  {
    hide ToLE, LE, Pow2;
    var m, m' := MacData(a, c), MacData(a', c');
    MacTail(a, c);
    MacTail(a', c');
    LengthField(|a|);
    LengthField(|a'|);
    LengthField(|c|);
    LengthField(|c'|);
    var pad := |a| + Pad16Len(|a|);
    assert a == m[..|a|] && a' == m'[..|a|];
    assert c == m[pad..pad + |c|] && c' == m'[pad..pad + |c|];
  }

  lemma MacTail(a: Bytes, c: Bytes)
    ensures var m := MacData(a, c);
            && |m| >= 16
            && m[|m| - 16..|m| - 8] == ToLE(|a|, 8)
            && m[|m| - 8..] == ToLE(|c|, 8)
  {
    hide ToLE;
  }

  lemma LengthField(n: nat)
    requires n < 0x1_0000_0000_0000_0000
    ensures LE(ToLE(n, 8)) == n
  {
    hide ToLE, LE, Pow2;
    LEToLE(n, 8);
    Pow2SixtyFour();
    DivModUnique(n, 0, n, 0x1_0000_0000_0000_0000);
  }

  // ---- The code ------------------------------------------------------------

  /** Fold of the byte differences with OR: zero exactly when the strings agree. */
  method Difference(a: Bytes, b: Bytes) returns (diff: u8)
    requires |a| == |b|
    ensures diff == 0 <==> a == b
  {
    hide OpByte;
    diff := 0;
    for i := 0 to |a|
      invariant diff == 0 <==> a[..i] == b[..i]
    {
      DifferenceStep(diff, a[i], b[i]);
      assert a[..i + 1] == a[..i] + [a[i]] && b[..i + 1] == b[..i] + [b[i]];
      diff := OpByte(OrOp, diff, OpByte(XorOp, a[i], b[i]));
    }
    assert a[..|a|] == a && b[..|b|] == b;
  }

  lemma DifferenceStep(acc: u8, x: u8, y: u8)
    ensures OpByte(OrOp, acc, OpByte(XorOp, x, y)) == 0 <==> acc == 0 && x == y
  {
    XorZero(x as int, y as int);
    OrZero(acc as int, Xor(x as int, y as int));
  }

  lemma {:induction false} XorZero(a: nat, b: nat)
    ensures Xor(a, b) == 0 <==> a == b
    decreases a + b
  {
    if a != 0 || b != 0 { XorZero(a / 2, b / 2); }
  }

  lemma {:induction false} OrZero(a: nat, b: nat)
    ensures Or(a, b) == 0 <==> a == 0 && b == 0
    decreases a + b
  {
    if a != 0 || b != 0 { OrZero(a / 2, b / 2); }
  }

  method ComputeTag(key: Bytes, nonce: Bytes, aad: Bytes, ct: Bytes) returns (tag: Bytes)
    requires |key| == 32 && |nonce| == 12
    ensures tag == Tag(key, nonce, aad, ct)
  {
    hide BlockSpec, MacData, Poly1305.TagSpec, ToLE;
    var state := NewState(key, nonce, 0);
    var block0 := Block(state);
    tag := Poly1305.Poly1305Mac(block0[..32], MacData(aad, ct));
  }

  method ToArray(s: Bytes) returns (a: array<u8>)
    ensures fresh(a) && a[..] == s
  {
    a := new u8[|s|](i requires 0 <= i < |s| => s[i]);
  }

  /** Encrypt with counter 1, append the tag. */
  method Seal(key: Bytes, nonce: Bytes, aad: Bytes, plaintext: Bytes) returns (c: Bytes)
    requires |key| == 32 && |nonce| == 12
    ensures c == SealSpec(key, nonce, aad, plaintext)
  {
    hide XorStream, Tag;
    var ct := ToArray(plaintext);
    ChaCha20Xor(key, nonce, 1, ct);
    var tag := ComputeTag(key, nonce, aad, ct[..]);
    c := ct[..] + tag;
  }

  /** Check the tag over the ciphertext, then decrypt. */
  method Open(key: Bytes, nonce: Bytes, aad: Bytes, c: Bytes) returns (r: Option<Bytes>)
    requires |key| == 32 && |nonce| == 12
    ensures r == OpenSpec(key, nonce, aad, c)
  {
    hide XorStream, Tag;
    if |c| < 16 {
      return None;
    }
    var ct, receivedTag := c[..|c| - 16], c[|c| - 16..];
    var expectedTag := ComputeTag(key, nonce, aad, ct);
    var diff := Difference(expectedTag, receivedTag);
    if diff != 0 {
      return None;
    }
    var plaintext := ToArray(ct);
    ChaCha20Xor(key, nonce, 1, plaintext);
    r := Some(plaintext[..]);
  }
}
