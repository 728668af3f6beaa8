/** Standard Base64 with padding (section 4 of RFC 4648): the encoder, and a decoder that refuses
    misplaced padding but accepts it at the end of any quad. Text is its ASCII bytes. */
module Base64 {
  import opened Words
  import opened Options

  const PAD: u8 := 61

  function Alphabet(v: nat): (c: u8)
    requires v < 64
    ensures c != PAD
  {
    if v < 26 then (65 + v) as u8
    else if v < 52 then (97 + v - 26) as u8
    else if v < 62 then (48 + v - 52) as u8
    else if v == 62 then 43
    else 47
  }

  function Sextet(c: u8): (r: Option<nat>)
    ensures r.Some? ==> r.value < 64 && Alphabet(r.value) == c
  {
    if 65 <= c <= 90 then Some(c as nat - 65)
    else if 97 <= c <= 122 then Some(c as nat - 97 + 26)
    else if 48 <= c <= 57 then Some(c as nat - 48 + 52)
    else if c == 43 then Some(62)
    else if c == 47 then Some(63)
    else None
  }

  lemma SextetOfAlphabet(v: nat)
    requires v < 64
    ensures Sextet(Alphabet(v)) == Some(v)
  {
  }

  // ---- Encoding ------------------------------------------------------------

  /** The 24-bit group of one to three bytes, the missing ones zero. */
  function Group(chunk: Bytes): (n: nat)
    requires 1 <= |chunk| <= 3
    ensures n < 0x100_0000
  {
    65536 * chunk[0] as nat
    + (if |chunk| > 1 then 256 * chunk[1] as nat else 0)
    + (if |chunk| > 2 then chunk[2] as nat else 0)
  }

  function FourChars(n: nat, len: nat): (q: Bytes)
    ensures |q| == 4
  {
    [Alphabet((n / 262144) % 64),
     Alphabet((n / 4096) % 64),
     if len > 1 then Alphabet((n / 64) % 64) else PAD,
     if len > 2 then Alphabet(n % 64) else PAD]
  }

  function EncodeChunk(chunk: Bytes): (q: Bytes)
    requires 1 <= |chunk| <= 3
    ensures |q| == 4
  {
    FourChars(Group(chunk), |chunk|)
  }

  function EncodeSpec(input: Bytes): Bytes {
    if input == [] then []
    else if |input| <= 3 then EncodeChunk(input)
    else EncodeChunk(input[..3]) + EncodeSpec(input[3..])
  }

  lemma GroupByOr(b0: nat, b1: nat, b2: nat)
    requires b0 < 256 && b1 < 256 && b2 < 256
    ensures Or(Or(65536 * b0, 256 * b1), b2) == 65536 * b0 + 256 * b1 + b2
  {
    hide Bitwise, Pow2;
    Pow2Eight();
    Pow2Sixteen();
    OrDisjoint(256 * b1, b0, 16);
    OrDisjoint(b2, 256 * b0 + b1, 8);
  }

  lemma EncodeNothing()
    ensures EncodeSpec([]) == []
  {
  }

  lemma NextChunk(input: Bytes, chunk: Bytes)
    requires input != [] && chunk == if |input| > 3 then input[..3] else input
    ensures EncodeSpec(input) == EncodeChunk(chunk) + EncodeSpec(input[|chunk|..])
  {
    hide EncodeChunk;
  }

  /** One round of the loop. */
  method EncodeGroup(chunk: Bytes) returns (q: Bytes)
    requires 1 <= |chunk| <= 3
    ensures q == EncodeChunk(chunk)
  {
    hide Or, Bitwise, Alphabet;
    var b0 := chunk[0] as nat;
    var b1 := if |chunk| > 1 then chunk[1] as nat else 0;
    var b2 := if |chunk| > 2 then chunk[2] as nat else 0;
    GroupByOr(b0, b1, b2);
    var n := Or(Or(65536 * b0, 256 * b1), b2);
    q := [Alphabet((n / 262144) % 64)];
    q := q + [Alphabet((n / 4096) % 64)];
    q := q + [if |chunk| > 1 then Alphabet((n / 64) % 64) else PAD];
    q := q + [if |chunk| > 2 then Alphabet(n % 64) else PAD];
  }

  method Encode(input: Bytes) returns (out: Bytes)
    ensures out == EncodeSpec(input)
  {
    hide EncodeSpec, EncodeChunk;
    EncodeNothing();
    out := [];
    var i := 0;
    while i < |input|
      invariant i <= |input|
      invariant out + EncodeSpec(input[i..]) == EncodeSpec(input)
    {
      var chunk := if |input| - i > 3 then input[i..i + 3] else input[i..];
      assert chunk == (if |input[i..]| > 3 then input[i..][..3] else input[i..]);
      assert input[i..][|chunk|..] == input[i + |chunk|..];
      NextChunk(input[i..], chunk);
      var q := EncodeGroup(chunk);
      assert out + (q + EncodeSpec(input[i + |chunk|..])) == (out + q) + EncodeSpec(input[i + |chunk|..]);
      out := out + q;
      i := i + |chunk|;
    }
    assert input[i..] == [];
  }

  // ---- Decoding ------------------------------------------------------------

  predicate InAlphabet(c: u8) {
    Sextet(c).Some?
  }

  function ValueOf(c: u8): (v: nat)
    ensures v < 64
  {
    if InAlphabet(c) then Sextet(c).value else 0
  }

  /** A quad whose last `pads` characters, and no others, are padding. */
  predicate EndsWithPads(q: Bytes, pads: nat)
    requires |q| == 4 && pads <= 2
  {
    (forall i :: 0 <= i < 4 - pads ==> InAlphabet(q[i])) && (forall i :: 4 - pads <= i < 4 ==> q[i] == PAD)
  }

  predicate QuadOk(q: Bytes)
    requires |q| == 4
  {
    EndsWithPads(q, 0) || EndsWithPads(q, 1) || EndsWithPads(q, 2)
  }

  function Pads(q: Bytes): (pads: nat)
    requires |q| == 4
    ensures pads <= 2
  {
    if q[2] == PAD then 2 else if q[3] == PAD then 1 else 0
  }

  function QuadValue(q: Bytes): (n: nat)
    requires |q| == 4
    ensures n < 0x100_0000
  {
    262144 * ValueOf(q[0]) + 4096 * ValueOf(q[1]) + 64 * ValueOf(q[2]) + ValueOf(q[3])
  }

  /** The bytes of a well-formed quad: three less its padding. */
  function QuadBytes(q: Bytes): (b: Bytes)
    requires |q| == 4
    ensures |b| == 3 - Pads(q)
  {
    var n := QuadValue(q);
    [(n / 65536) as u8, ((n / 256) % 256) as u8, (n % 256) as u8][..3 - Pads(q)]
  }

  function DecodeQuads(t: Bytes): Option<Bytes> {
    if t == [] then Some([])
    else if |t| < 4 || !QuadOk(t[..4]) then None
    else
      Prepend(QuadBytes(t[..4]), DecodeQuads(t[4..]))
  }

  function Prepend(b: Bytes, r: Option<Bytes>): Option<Bytes> {
    if r.Some? then Some(b + r.value) else None
  }

  lemma PrependTwice(a: Bytes, b: Bytes, r: Option<Bytes>)
    ensures Prepend(a, Prepend(b, r)) == Prepend(a + b, r)
    ensures Prepend([], r) == r && Prepend(a, Some([])) == Some(a)
  {
    assert a + [] == a;
    if r.Some? {
      assert [] + r.value == r.value;
      assert a + (b + r.value) == (a + b) + r.value;
    }
  }

  function DecodeSpec(t: Bytes): Option<Bytes> {
    if t == [] || |t| % 4 != 0 then None else DecodeQuads(t)
  }

  datatype Scanned = Scanned(n: nat, pads: nat)

  /** The inner loop: one character at a time, the running group and the padding seen. */
  function Scan(q: Bytes, i: nat, n: nat, pads: nat): Option<Scanned>
    requires |q| == 4 && i <= 4
    decreases 4 - i
  {
    if i == 4 then Some(Scanned(n, pads))
    else if q[i] == PAD then if i < 2 then None else Scan(q, i + 1, 64 * n, pads + 1)
    else if !InAlphabet(q[i]) || pads > 0 then None
    else Scan(q, i + 1, 64 * n + ValueOf(q[i]), pads)
  }

  lemma ScanQuad(q: Bytes)
    requires |q| == 4
    ensures Scan(q, 0, 0, 0) == if QuadOk(q) then Some(Scanned(QuadValue(q), Pads(q))) else None
  {
    hide Sextet, Alphabet, Scan, ValueOf;
    PadIsNotInAlphabet();
    ScanUnfold(q, 0, 0, 0);
    if InAlphabet(q[0]) {
      ScanUnfold(q, 1, ValueOf(q[0]), 0);
      if InAlphabet(q[1]) {
        ScanTail(q, 64 * ValueOf(q[0]) + ValueOf(q[1]));
      }
    }
  }

  lemma PadIsNotInAlphabet()
    ensures !InAlphabet(PAD)
  {
  }

  lemma ScanTail(q: Bytes, n: nat)
    requires |q| == 4 && InAlphabet(q[0]) && InAlphabet(q[1]) && n == 64 * ValueOf(q[0]) + ValueOf(q[1])
    ensures Scan(q, 2, n, 0) == if QuadOk(q) then Some(Scanned(QuadValue(q), Pads(q))) else None
  {
    hide Sextet, Alphabet, Scan;
    PadIsNotInAlphabet();
    ScanUnfold(q, 2, n, 0);
    var c := if q[2] == PAD then 64 * n else 64 * n + ValueOf(q[2]);
    var pads := if q[2] == PAD then 1 else 0;
    ScanUnfold(q, 3, c, pads);
    ScanUnfold(q, 4, 64 * c, pads + 1);
    ScanUnfold(q, 4, 64 * c + ValueOf(q[3]), pads);
  }

  method DecodeQuad(q: Bytes) returns (r: Option<Bytes>)
    requires |q| == 4
    ensures r == if QuadOk(q) then Some(QuadBytes(q)) else None
  {
    hide Bitwise, Pow2, Sextet, Alphabet, Scan, QuadOk, QuadValue, Pads;
    ScanQuad(q);
    var n: nat, pads: nat := 0, 0;
    Pow2Six(0);
    for i := 0 to 4
      invariant n < Pow2(6 * i) && n < 0x100_0000
      invariant Scan(q, 0, 0, 0) == Scan(q, i, n, pads)
    {
      ScanUnfold(q, i, n, pads);
      Pow2Six(i);
      n := 64 * n;
      if q[i] == PAD {
        if i < 2 {
          return None;
        }
        pads := pads + 1;
      } else {
        var v := Sextet(q[i]);
        if v.None? || pads > 0 {
          return None;
        }
        OrDisjoint(v.value, n / 64, 6);
        n := Or(n, v.value);
      }
    }
    ScanUnfold(q, 4, n, pads);
    var out := [(n / 65536) as u8];
    if pads < 2 {
      out := out + [((n / 256) % 256) as u8];
    }
    if pads < 1 {
      out := out + [(n % 256) as u8];
    }
    assert out == [(n / 65536) as u8, ((n / 256) % 256) as u8, (n % 256) as u8][..3 - pads];
    r := Some(out);
  }

  lemma ScanUnfold(q: Bytes, i: nat, n: nat, pads: nat)
    requires |q| == 4 && i <= 4
    ensures i == 4 ==> Scan(q, i, n, pads) == Some(Scanned(n, pads))
    ensures i < 4 && q[i] == PAD ==> Scan(q, i, n, pads) == if i < 2 then None else Scan(q, i + 1, 64 * n, pads + 1)
    ensures i < 4 && q[i] != PAD ==>
      Scan(q, i, n, pads) == if Sextet(q[i]).None? || pads > 0 then None
                             else Scan(q, i + 1, 64 * n + ValueOf(q[i]), pads)
  {
    hide Sextet;
  }

  lemma Pow2Six(i: nat)
    requires i < 4
    ensures Pow2(0) == 1 && Pow2(6) == 64 && Pow2(6 * (i + 1)) == 64 * Pow2(6 * i) && Pow2(6 * (i + 1)) <= 0x100_0000
  {
    assert Pow2(6) == 64;
    Pow2Add(6, 6 * i);
    assert 6 * (i + 1) == 6 + 6 * i;
    Pow2Add(6, 6);
    Pow2Add(12, 6);
    Pow2Add(18, 6);
  }

  method Decode(input: Bytes) returns (r: Option<Bytes>)
    ensures r == DecodeSpec(input)
  {
    hide QuadOk, QuadBytes, Pads;
    if input == [] || |input| % 4 != 0 {
      return None;
    }
    var out: Bytes := [];
    var i := 0;
    assert input[0..] == input;
    PrependTwice([], [], DecodeQuads(input));
    while i < |input|
      invariant i <= |input| && (|input| - i) % 4 == 0
      invariant DecodeQuads(input) == Prepend(out, DecodeQuads(input[i..]))
    {
      var quad := input[i..i + 4];
      assert quad == input[i..][..4] && input[i..][4..] == input[i + 4..];
      var b := DecodeQuad(quad);
      if b.None? {
        return None;
      }
      PrependTwice(out, b.value, DecodeQuads(input[i + 4..]));
      out := out + b.value;
      i := i + 4;
    }
    assert input[i..] == [];
    PrependTwice(out, [], None);
    r := Some(out);
  }

  /** Exactly n bytes, or nothing. */
  method DecodeArray(input: Bytes, n: nat) returns (r: Option<Bytes>)
    ensures r == if DecodeSpec(input).Some? && |DecodeSpec(input).value| == n then DecodeSpec(input) else None
  {
    r := Decode(input);
    if r.Some? && |r.value| != n {
      r := None;
    }
  }

  // ---- What is accepted ----------------------------------------------------

  /** Quad k of a text. */
  function QuadAt(t: Bytes, k: nat): (q: Bytes)
    requires 4 * k + 4 <= |t|
    ensures |q| == 4
  {
    t[4 * k..4 * k + 4]
  }

  lemma {:induction false} QuadsDecide(t: Bytes)
    requires |t| % 4 == 0
    ensures DecodeQuads(t).Some? <==> forall k :: 0 <= k < |t| / 4 ==> QuadOk(QuadAt(t, k))
  {
    hide QuadOk, QuadBytes;
    if t != [] {
      QuadsDecide(t[4..]);
      assert QuadAt(t, 0) == t[..4];
      assert forall k :: 1 <= k < |t| / 4 ==> QuadAt(t, k) == QuadAt(t[4..], k - 1);
      assert forall k :: 0 <= k < |t[4..]| / 4 ==> QuadAt(t[4..], k) == QuadAt(t, k + 1);
    }
  }

  /** Decoding succeeds exactly on non-empty texts of whole quads over the alphabet, each padded at
      its end by at most two. */
  lemma DecodesExactly(t: Bytes)
    ensures DecodeSpec(t).Some? <==>
      (t != [] && |t| % 4 == 0 && forall k :: 0 <= k < |t| / 4 ==> QuadOk(QuadAt(t, k)))
  {
    if |t| % 4 == 0 {
      QuadsDecide(t);
    }
  }

  // ---- Round trips ---------------------------------------------------------

  lemma SextetsOfGroup(n: nat)
    requires n < 0x100_0000
    ensures n == 262144 * ((n / 262144) % 64) + 4096 * ((n / 4096) % 64) + 64 * ((n / 64) % 64) + n % 64
  {
    var a, b, c := n / 64, n / 4096, n / 262144;
    assert b == a / 64 && c == b / 64;
  }

  lemma BytesOfGroup(b0: nat, b1: nat, b2: nat)
    requires b0 < 256 && b1 < 256 && b2 < 256
    ensures var n := 65536 * b0 + 256 * b1 + b2;
            && n / 65536 == b0 && (n / 256) % 256 == b1 && n % 256 == b2
            && (b2 == 0 ==> n % 64 == 0) && (b1 == 0 && b2 == 0 ==> (n / 64) % 64 == 0)
  {
    var n := 65536 * b0 + 256 * b1 + b2;
    DivModUnique(n, b0, 256 * b1 + b2, 65536);
    DivModUnique(n, 256 * b0 + b1, b2, 256);
    DivModUnique(256 * b0 + b1, b0, b1, 256);
    if b2 == 0 {
      DivModUnique(n, 1024 * b0 + 4 * b1, 0, 64);
      if b1 == 0 {
        DivModUnique(1024 * b0, 16 * b0, 0, 64);
      }
    }
  }

  lemma ChunkRoundTrip(chunk: Bytes)
    requires 1 <= |chunk| <= 3
    ensures QuadOk(EncodeChunk(chunk)) && QuadBytes(EncodeChunk(chunk)) == chunk
    ensures Pads(EncodeChunk(chunk)) == 3 - |chunk|
  {
    hide Alphabet, Sextet;
    PadIsNotInAlphabet();
    var n := Group(chunk);
    SextetsOfGroup(n);
    var b0 := chunk[0] as nat;
    var b1 := if |chunk| > 1 then chunk[1] as nat else 0;
    var b2 := if |chunk| > 2 then chunk[2] as nat else 0;
    assert n == 65536 * b0 + 256 * b1 + b2;
    BytesOfGroup(b0, b1, b2);
    SextetOfAlphabet((n / 262144) % 64);
    SextetOfAlphabet((n / 4096) % 64);
    SextetOfAlphabet((n / 64) % 64);
    SextetOfAlphabet(n % 64);
    var q := EncodeChunk(chunk);
    assert EndsWithPads(q, 3 - |chunk|);
    assert QuadValue(q) == n;
  }

  lemma {:induction false} EncodedLength(input: Bytes)
    ensures |EncodeSpec(input)| == 4 * ((|input| + 2) / 3)
  {
    hide EncodeChunk;
    if |input| > 3 {
      EncodedLength(input[3..]);
    }
  }

  lemma {:induction false} DecodeUndoesEncode(input: Bytes)
    requires input != []
    ensures DecodeSpec(EncodeSpec(input)) == Some(input)
  {
    hide QuadOk, QuadBytes, EncodeChunk, Pads;
    EncodedLength(input);
    if |input| <= 3 {
      ChunkRoundTrip(input);
      assert EncodeSpec(input)[..4] == EncodeSpec(input) && EncodeSpec(input)[4..] == [];
      assert DecodeQuads([]) == Some([]);
      assert QuadBytes(EncodeChunk(input)) + [] == input;
    } else {
      ChunkRoundTrip(input[..3]);
      DecodeUndoesEncode(input[3..]);
      var t := EncodeSpec(input);
      assert t[..4] == EncodeChunk(input[..3]) && t[4..] == EncodeSpec(input[3..]);
      assert input == input[..3] + input[3..];
    }
  }

  /** The text that encoding would write: padding in the last quad only, and no stray bits before it. */
  predicate Canonical(t: Bytes)
    requires |t| % 4 == 0
  {
    if t == [] then true
    else if |t| == 4 then QuadValue(t) % (if Pads(t) == 0 then 1 else if Pads(t) == 1 then 256 else 65536) == 0
    else Pads(t[..4]) == 0 && Canonical(t[4..])
  }

  /** A well-formed quad is what its bytes encode to exactly when it has no stray bits. */
  lemma QuadReencodes(q: Bytes)
    requires |q| == 4 && QuadOk(q)
    ensures |QuadBytes(q)| >= 1
    ensures EncodeChunk(QuadBytes(q)) == q <==> Canonical(q)
  {
    hide Alphabet, Sextet, ValueOf, QuadValue, FourChars, QuadOk, Canonical;
    var n, pads := QuadValue(q), Pads(q);
    PadsOfQuad(q);
    var b := QuadBytes(q);
    var m := Group(b);
    GroupOfBytes(q);
    CharsAgree(q, m, pads);
    SextetsOfGroup(m);
    SextetsOfValue(ValueOf(q[0]), ValueOf(q[1]), ValueOf(q[2]), ValueOf(q[3]));
    CanonicalQuad(q);
    LowZeros(n / (if pads == 0 then 1 else if pads == 1 then 256 else 65536), pads);
  }

  lemma PadsOfQuad(q: Bytes)
    requires |q| == 4 && QuadOk(q)
    ensures EndsWithPads(q, Pads(q))
    ensures QuadValue(q) == 262144 * ValueOf(q[0]) + 4096 * ValueOf(q[1]) + 64 * ValueOf(q[2]) + ValueOf(q[3])
    ensures Pads(q) >= 1 ==> ValueOf(q[3]) == 0
    ensures Pads(q) >= 2 ==> ValueOf(q[2]) == 0
  {
    hide Alphabet, Sextet;
    PadIsNotInAlphabet();
  }

  lemma CanonicalQuad(q: Bytes)
    requires |q| == 4
    ensures Canonical(q) <==> QuadValue(q) % (if Pads(q) == 0 then 1 else if Pads(q) == 1 then 256 else 65536) == 0
  {
    hide QuadValue, Pads;
  }

  /** The group of a quad's bytes is its value without the stray bits. */
  lemma GroupOfBytes(q: Bytes)
    requires |q| == 4
    ensures var n, unit := QuadValue(q), if Pads(q) == 0 then 1 else if Pads(q) == 1 then 256 else 65536;
            |QuadBytes(q)| >= 1 && Group(QuadBytes(q)) == unit * (n / unit)
  {
    hide QuadValue, Pads;
    BytesOfValue(QuadValue(q));
  }

  lemma LowZeros(k: nat, pads: nat)
    requires pads <= 2
    ensures var m := (if pads == 0 then 1 else if pads == 1 then 256 else 65536) * k;
            (pads >= 1 ==> m % 64 == 0) && (pads == 2 ==> (m / 64) % 64 == 0)
  {
    if pads == 1 {
      DivModUnique(256 * k, 4 * k, 0, 64);
    } else if pads == 2 {
      DivModUnique(65536 * k, 1024 * k, 0, 64);
      DivModUnique(1024 * k, 16 * k, 0, 64);
    }
  }

  lemma CharsAgree(q: Bytes, m: nat, pads: nat)
    requires |q| == 4 && pads <= 2 && EndsWithPads(q, pads)
    ensures FourChars(m, 3 - pads) == q <==>
      ((m / 262144) % 64 == ValueOf(q[0]) && (m / 4096) % 64 == ValueOf(q[1])
       && (pads < 2 ==> (m / 64) % 64 == ValueOf(q[2])) && (pads < 1 ==> m % 64 == ValueOf(q[3])))
  {
    hide Alphabet, Sextet;
    SextetOfAlphabet((m / 262144) % 64);
    SextetOfAlphabet((m / 4096) % 64);
    SextetOfAlphabet((m / 64) % 64);
    SextetOfAlphabet(m % 64);
  }

  lemma SextetsOfValue(v0: nat, v1: nat, v2: nat, v3: nat)
    requires v0 < 64 && v1 < 64 && v2 < 64 && v3 < 64
    ensures var n := 262144 * v0 + 4096 * v1 + 64 * v2 + v3;
            (n / 262144) % 64 == v0 && (n / 4096) % 64 == v1 && (n / 64) % 64 == v2 && n % 64 == v3
  {
    var n := 262144 * v0 + 4096 * v1 + 64 * v2 + v3;
    DivModUnique(n, 4096 * v0 + 64 * v1 + v2, v3, 64);
    DivModUnique(n, 64 * v0 + v1, 64 * v2 + v3, 4096);
    DivModUnique(n, v0, 4096 * v1 + 64 * v2 + v3, 262144);
    DivModUnique(4096 * v0 + 64 * v1 + v2, 64 * v0 + v1, v2, 64);
    DivModUnique(64 * v0 + v1, v0, v1, 64);
  }

  lemma BytesOfValue(n: nat)
    requires n < 0x100_0000
    ensures 65536 * (n / 65536) + 256 * ((n / 256) % 256) + n % 256 == n
    ensures 65536 * (n / 65536) + 256 * ((n / 256) % 256) == n - n % 256
    ensures 65536 * (n / 65536) == n - n % 65536
  {
  }

  lemma {:induction false} PadsOnlyInLastQuad(input: Bytes, i: nat)
    requires i < |EncodeSpec(input)| - 4
    ensures EncodeSpec(input)[i] != PAD
  {
    hide Alphabet, Group;
    EncodedLength(input);
    if |input| > 3 && i >= 4 {
      PadsOnlyInLastQuad(input[3..], i - 4);
    }
  }

  /** Encoding undoes a successful decoding exactly on canonical text. */
  lemma {:induction false} EncodeUndoesDecode(t: Bytes)
    requires DecodeSpec(t).Some?
    ensures EncodeSpec(DecodeSpec(t).value) == t <==> Canonical(t)
    decreases |t|
  {
    hide Alphabet, QuadOk, QuadBytes, EncodeChunk, QuadValue;
    var q := t[..4];
    QuadReencodes(q);
    var b := QuadBytes(q);
    if |t| == 4 {
      assert t == q && t[4..] == [];
      assert DecodeSpec(t).value == b;
    } else {
      var rest := DecodeQuads(t[4..]).value;
      assert DecodeSpec(t[4..]) == Some(rest);
      EncodeUndoesDecode(t[4..]);
      if Pads(q) == 0 {
        QuadReencodesWhole(q);
        RestIsNotEmpty(t[4..]);
        assert (b + rest)[..3] == b && (b + rest)[3..] == rest;
        assert EncodeSpec(b + rest) == q + EncodeSpec(rest);
        assert t == q + t[4..];
      } else {
        var input := b + rest;
        if EncodeSpec(input) == t {
          PadsOnlyInLastQuad(input, if q[2] == PAD then 2 else 3);
        }
      }
    }
  }

  lemma QuadReencodesWhole(q: Bytes)
    requires |q| == 4 && QuadOk(q) && Pads(q) == 0
    ensures EncodeChunk(QuadBytes(q)) == q && |QuadBytes(q)| == 3
  {
    hide Alphabet, QuadOk, QuadBytes, EncodeChunk, QuadValue;
    QuadReencodes(q);
  }

  lemma RestIsNotEmpty(t: Bytes)
    requires DecodeSpec(t).Some?
    ensures DecodeSpec(t).value != []
  {
    hide QuadOk, QuadBytes;
  }
}
