/** The Noise_IK handshake of section 7.5 of the Noise Protocol Framework, on the real primitives. */
module Noise {
  import opened Words
  import opened ByteStrings
  import opened Aead
  import opened Options
  import Blake2s
  import X25519
  import Session

  type Key = s: Bytes | |s| == 32 witness Zeros(32)

  datatype Keypair = Keypair(secret: Key, public: Key)

  /** What the initiator carries from message 1 to message 2. */
  datatype Initiator = Initiator(ck: Key, h: Key, staticKp: Keypair, ephemeralSecret: Key)

  // "Noise_IK_25519_ChaChaPoly_BLAKE2s" and "AkurAI VPN v1 2026" in ASCII.
  const CONSTRUCTION: Bytes :=
    [78, 111, 105, 115, 101, 95, 73, 75, 95, 50, 53, 53, 49, 57, 95, 67, 104, 97, 67, 104, 97, 80,
     111, 108, 121, 95, 66, 76, 65, 75, 69, 50, 115]
  const IDENTIFIER: Bytes :=
    [65, 107, 117, 114, 65, 73, 32, 86, 80, 78, 32, 118, 49, 32, 50, 48, 50, 54]

  // ---- Primitives ----------------------------------------------------------

  /** X25519 on byte strings; the method X25519.X25519 computes it. */
  function SharedSecret(secret: Key, peer: Key): Key {
    hide ToLE, LE;
    ToLE(X25519.X25519Spec(LE(secret), LE(peer)), 32)
  }

  /** The public key: the secret times the base point 9. */
  function PublicKey(secret: Key): Key {
    hide SharedSecret;
    SharedSecret(secret, [9] + Zeros(31))
  }

  function MixHash(h: Key, data: Bytes): Key {
    hide Blake2s.HashSpec;
    Blake2s.HashSpec(32, [], h + data)
  }

  /** The Noise HKDF of section 4.3: first output. */
  function Kdf1(ck: Key, x: Bytes): Key {
    hide Blake2s.HmacSpec;
    Blake2s.HmacSpec(Blake2s.HmacSpec(ck, x), [1])
  }

  /** First and second output. */
  function Kdf2(ck: Key, x: Bytes): (Key, Key) {
    hide Blake2s.HmacSpec;
    var temp := Blake2s.HmacSpec(ck, x);
    var out1 := Blake2s.HmacSpec(temp, [1]);
    (out1, Blake2s.HmacSpec(temp, out1 + [2]))
  }

  const ZERO_NONCE: Bytes := Zeros(12)

  function Seal0(k: Key, h: Key, plaintext: Bytes): (c: Bytes)
    ensures |c| == |plaintext| + 16
  {
    hide SealSpec;
    SealSpec(k, ZERO_NONCE, h, plaintext)
  }

  function Open0(k: Key, h: Key, c: Bytes): Option<Bytes> {
    hide OpenSpec;
    OpenSpec(k, ZERO_NONCE, h, c)
  }

  lemma Open0Exactly(k: Key, h: Key, c: Bytes, p: Bytes)
    ensures Open0(k, h, c) == Some(p) <==> c == Seal0(k, h, p)
  {
    hide OpenSpec, SealSpec;
    OpenExactlySealed(k, ZERO_NONCE, h, c, p);
  }

  // ---- The handshake -------------------------------------------------------

  /** The chaining key and transcript hash both ends start from. */
  function Prelude(responderPub: Key): (Key, Key) {
    hide Blake2s.HashSpec, MixHash;
    var ck := Blake2s.HashSpec(32, [], CONSTRUCTION);
    var h := Blake2s.HashSpec(32, [], ck + IDENTIFIER);
    (ck, MixHash(h, responderPub))
  }

  /** Message 1: e, es, s, ss. */
  function Initiate(staticKp: Keypair, responderPub: Key, ephemeralSecret: Key): (r: (Initiator, Bytes))
    ensures |r.1| == 96
  {
    hide Prelude, PublicKey, SharedSecret, Kdf1, Kdf2, MixHash, Seal0;
    var (ck0, h0) := Prelude(responderPub);
    var ePub := PublicKey(ephemeralSecret);
    var ck1 := Kdf1(ck0, ePub);
    var h1 := MixHash(h0, ePub);
    var es := SharedSecret(ephemeralSecret, responderPub);
    var (ck2, k1) := Kdf2(ck1, es);
    var encStatic := Seal0(k1, h1, staticKp.public);
    var h2 := MixHash(h1, encStatic);
    var ss := SharedSecret(staticKp.secret, responderPub);
    var (ck3, k2) := Kdf2(ck2, ss);
    var encEmpty := Seal0(k2, h2, []);
    var h3 := MixHash(h2, encEmpty);
    (Initiator(ck3, h3, staticKp, ephemeralSecret), ePub + encStatic + encEmpty)
  }

  datatype Response = Response(keys: Session.TransportKeys, msg2: Bytes, initiatorPub: Key)

  /** Consume message 1, answer with message 2: e, ee, se. */
  function Respond(staticKp: Keypair, ephemeralSecret: Key, msg1: Bytes): Option<Response> {
    hide Prelude, PublicKey, SharedSecret, Kdf1, Kdf2, MixHash, Seal0, Open0;
    if |msg1| != 96 then None
    else
      var ePub, encStatic, encEmpty := msg1[0..32], msg1[32..80], msg1[80..96];
      var (ck0, h0) := Prelude(staticKp.public);
      var ck1 := Kdf1(ck0, ePub);
      var h1 := MixHash(h0, ePub);
      var es := SharedSecret(staticKp.secret, ePub);
      var (ck2, k1) := Kdf2(ck1, es);
      var initStatic := Open0(k1, h1, encStatic);
      if initStatic == None || |initStatic.value| != 32 then None
      else
        var initPub := initStatic.value;
        var h2 := MixHash(h1, encStatic);
        var ss := SharedSecret(staticKp.secret, initPub);
        var (ck3, k2) := Kdf2(ck2, ss);
        var empty := Open0(k2, h2, encEmpty);
        if empty == None || empty.value != [] then None
        else
          var h3 := MixHash(h2, encEmpty);
          var erPub := PublicKey(ephemeralSecret);
          var ck4 := Kdf1(ck3, erPub);
          var h4 := MixHash(h3, erPub);
          var ck5 := Kdf1(ck4, SharedSecret(ephemeralSecret, ePub));
          var ck6 := Kdf1(ck5, SharedSecret(ephemeralSecret, initPub));
          var (ck7, k3) := Kdf2(ck6, []);
          var encEmpty2 := Seal0(k3, h4, []);
          var (t1, t2) := Kdf2(ck7, []);
          Some(Response(Session.TransportKeys(t2, t1), erPub + encEmpty2, initPub))
  }

  /** Consume message 2 and split the keys. */
  function Finalize(state: Initiator, msg2: Bytes): Option<Session.TransportKeys> {
    hide SharedSecret, Kdf1, Kdf2, MixHash, Open0;
    if |msg2| != 48 then None
    else
      var erPub, encEmpty2 := msg2[0..32], msg2[32..48];
      var ck4 := Kdf1(state.ck, erPub);
      var h4 := MixHash(state.h, erPub);
      var ck5 := Kdf1(ck4, SharedSecret(state.ephemeralSecret, erPub));
      var ck6 := Kdf1(ck5, SharedSecret(state.staticKp.secret, erPub));
      var (ck7, k3) := Kdf2(ck6, []);
      var empty := Open0(k3, h4, encEmpty2);
      if empty == None || empty.value != [] then None
      else
        var (t1, t2) := Kdf2(ck7, []);
        Some(Session.TransportKeys(t1, t2))
  }

  // ---- Properties ----------------------------------------------------------

  /** Diffie-Hellman agreement of two secrets; it rests on the curve's group law. */
  ghost predicate Agree(a: Key, b: Key) {
    SharedSecret(a, PublicKey(b)) == SharedSecret(b, PublicKey(a))
  }

  ghost predicate Derived(kp: Keypair) { kp.public == PublicKey(kp.secret) }

  /** Both transport keys the other way round. */
  ghost predicate Mirrored(a: Session.TransportKeys, b: Session.TransportKeys) {
    a.send == b.recv && a.recv == b.send
  }

  /** Message 1 as the responder's own secret determines it from the two public keys inside. */
  function ExpectedMsg1(staticKp: Keypair, ePub: Key, initPub: Key): Bytes
  {
    hide Prelude, SharedSecret, Kdf1, Kdf2, MixHash, Seal0;
    var (ck0, h0) := Prelude(staticKp.public);
    var ck1 := Kdf1(ck0, ePub);
    var h1 := MixHash(h0, ePub);
    var (ck2, k1) := Kdf2(ck1, SharedSecret(staticKp.secret, ePub));
    var encStatic := Seal0(k1, h1, initPub);
    var h2 := MixHash(h1, encStatic);
    var (ck3, k2) := Kdf2(ck2, SharedSecret(staticKp.secret, initPub));
    ePub + encStatic + Seal0(k2, h2, [])
  }

  ghost predicate IsExpectedMsg1(staticKp: Keypair, msg1: Bytes, initPub: Key) {
    hide ExpectedMsg1;
    |msg1| == 96 && msg1 == ExpectedMsg1(staticKp, msg1[0..32], initPub)
  }

  /** The responder accepted and names this initiator. */
  ghost predicate Recognized(r: Option<Response>, initPub: Key) {
    r.Some? && r.value.initiatorPub == initPub
  }

  /** The responder accepts exactly the message 1 of some ephemeral and static public key under its
      own static secret, and reports that static key. */
  lemma RespondAcceptsExactly(staticKp: Keypair, eph: Key, msg1: Bytes, initPub: Key)
    ensures Recognized(Respond(staticKp, eph, msg1), initPub) <==> IsExpectedMsg1(staticKp, msg1, initPub)
  {
    hide Prelude, PublicKey, SharedSecret, Kdf1, Kdf2, MixHash, Seal0, Open0;
    if |msg1| == 96 {
      var ePub, encStatic, encEmpty := msg1[0..32], msg1[32..80], msg1[80..96];
      assert msg1 == ePub + encStatic + encEmpty;
      var (ck0, h0) := Prelude(staticKp.public);
      var ck1 := Kdf1(ck0, ePub);
      var h1 := MixHash(h0, ePub);
      var (ck2, k1) := Kdf2(ck1, SharedSecret(staticKp.secret, ePub));
      Open0Exactly(k1, h1, encStatic, initPub);
      var h2 := MixHash(h1, encStatic);
      var (ck3, k2) := Kdf2(ck2, SharedSecret(staticKp.secret, initPub));
      Open0Exactly(k2, h2, encEmpty, []);
      var m := ExpectedMsg1(staticKp, ePub, initPub);
      var encStatic' := Seal0(k1, h1, initPub);
      assert m[32..80] == encStatic';
      assert m[80..96] == Seal0(k2, MixHash(h1, encStatic'), []);
    }
  }

  lemma ExpectedMsg1Starts(staticKp: Keypair, ePub: Key, initPub: Key)
    ensures |ExpectedMsg1(staticKp, ePub, initPub)| == 96
    ensures ExpectedMsg1(staticKp, ePub, initPub)[0..32] == ePub
  {
    hide Prelude, SharedSecret, Kdf1, Kdf2, MixHash, Seal0;
  }

  /** An initiator's message 1 is the expected one whenever both ends agree on es and ss. */
  lemma InitiateIsExpected(initKp: Keypair, respKp: Keypair, eph: Key)
    requires Derived(initKp) && Derived(respKp)
    requires Agree(eph, respKp.secret) && Agree(initKp.secret, respKp.secret)
    ensures Initiate(initKp, respKp.public, eph).1
         == ExpectedMsg1(respKp, PublicKey(eph), initKp.public)
  {
    hide Prelude, PublicKey, SharedSecret, Kdf1, Kdf2, MixHash, Seal0;
  }

  /** The whole handshake: the responder accepts message 1 and learns the initiator's static key,
      the initiator accepts message 2, and the transport keys mirror. */
  lemma HandshakeCompletes(initKp: Keypair, respKp: Keypair, initEph: Key, respEph: Key)
    requires Derived(initKp) && Derived(respKp)
    requires Agree(initEph, respKp.secret) && Agree(initKp.secret, respKp.secret)
    requires Agree(initEph, respEph) && Agree(initKp.secret, respEph)
    ensures var (state, msg1) := Initiate(initKp, respKp.public, initEph);
            var r := Respond(respKp, respEph, msg1);
            && r.Some?
            && r.value.initiatorPub == initKp.public
            && |r.value.msg2| == 48
            && Finalize(state, r.value.msg2).Some?
            && Mirrored(Finalize(state, r.value.msg2).value, r.value.keys)
  {
    hide Prelude, PublicKey, SharedSecret, Kdf1, Kdf2, MixHash, Seal0, Open0, ExpectedMsg1;
    var (state, msg1) := Initiate(initKp, respKp.public, initEph);
    InitiateIsExpected(initKp, respKp, initEph);
    ExpectedMsg1Starts(respKp, PublicKey(initEph), initKp.public);
    RespondAcceptsExactly(respKp, respEph, msg1, initKp.public);
    AnswerMirrors(initKp, respKp, initEph, respEph);
  }

  /** A recognized initiator gets an answer that it accepts, with mirrored keys. */
  lemma AnswerMirrors(initKp: Keypair, respKp: Keypair, initEph: Key, respEph: Key)
    requires Derived(initKp) && Derived(respKp)
    requires Agree(initEph, respKp.secret) && Agree(initKp.secret, respKp.secret)
    requires Agree(initEph, respEph) && Agree(initKp.secret, respEph)
    ensures var (state, msg1) := Initiate(initKp, respKp.public, initEph);
            var r := Respond(respKp, respEph, msg1);
            Recognized(r, initKp.public) ==>
              && |r.value.msg2| == 48
              && Finalize(state, r.value.msg2).Some?
              && Mirrored(Finalize(state, r.value.msg2).value, r.value.keys)
  {
    hide Prelude, PublicKey, SharedSecret, Kdf1, Kdf2, MixHash, Seal0, Open0;
    var (state, msg1) := Initiate(initKp, respKp.public, initEph);
    var ePub := PublicKey(initEph);
    var (ck0, h0) := Prelude(respKp.public);
    var ck1 := Kdf1(ck0, ePub);
    var h1 := MixHash(h0, ePub);
    var (ck2, k1) := Kdf2(ck1, SharedSecret(initEph, respKp.public));
    var encStatic := Seal0(k1, h1, initKp.public);
    var h2 := MixHash(h1, encStatic);
    var (ck3, k2) := Kdf2(ck2, SharedSecret(initKp.secret, respKp.public));
    var encEmpty := Seal0(k2, h2, []);
    assert msg1 == ePub + encStatic + encEmpty;
    assert msg1[0..32] == ePub && msg1[32..80] == encStatic && msg1[80..96] == encEmpty;
    assert state.ck == ck3 && state.h == MixHash(h2, encEmpty);
    var erPub := PublicKey(respEph);
    var ck4 := Kdf1(state.ck, erPub);
    var h4 := MixHash(state.h, erPub);
    var ck5 := Kdf1(ck4, SharedSecret(initEph, erPub));
    var ck6 := Kdf1(ck5, SharedSecret(initKp.secret, erPub));
    var (ck7, k3) := Kdf2(ck6, []);
    var encEmpty2 := Seal0(k3, h4, []);
    Open0Exactly(k3, h4, encEmpty2, []);
    var msg2: Bytes := erPub + encEmpty2;
    assert msg2[0..32] == erPub && msg2[32..48] == encEmpty2;
  }

  ghost predicate IsExpectedMsg2(state: Initiator, msg2: Bytes) {
    hide ExpectedMsg2;
    |msg2| == 48 && msg2 == ExpectedMsg2(state, msg2[0..32])
  }

  /** The initiator accepts exactly one message 2 for each responder ephemeral public key. */
  lemma FinalizeAcceptsExactly(state: Initiator, msg2: Bytes)
    ensures Finalize(state, msg2).Some? <==> IsExpectedMsg2(state, msg2)
  {
    hide PublicKey, SharedSecret, Kdf1, Kdf2, MixHash, Seal0, Open0;
    if |msg2| == 48 {
      var erPub: Key := msg2[0..32];
      var encEmpty2 := msg2[32..48];
      assert msg2 == erPub + encEmpty2;
      var ck4 := Kdf1(state.ck, erPub);
      var h4 := MixHash(state.h, erPub);
      var ck5 := Kdf1(ck4, SharedSecret(state.ephemeralSecret, erPub));
      var ck6 := Kdf1(ck5, SharedSecret(state.staticKp.secret, erPub));
      var (ck7, k3) := Kdf2(ck6, []);
      Open0Exactly(k3, h4, encEmpty2, []);
      assert ExpectedMsg2(state, erPub)[32..48] == Seal0(k3, h4, []);
    }
  }

  /** Message 2 as the initiator's state determines it. */
  function ExpectedMsg2(state: Initiator, erPub: Key): Bytes
  {
    hide SharedSecret, Kdf1, Kdf2, MixHash, Seal0;
    var ck4 := Kdf1(state.ck, erPub);
    var h4 := MixHash(state.h, erPub);
    var ck5 := Kdf1(ck4, SharedSecret(state.ephemeralSecret, erPub));
    var ck6 := Kdf1(ck5, SharedSecret(state.staticKp.secret, erPub));
    var (ck7, k3) := Kdf2(ck6, []);
    erPub + Seal0(k3, h4, [])
  }

  // ---- The two transcripts -------------------------------------------------

  /** Key and transcript hash of one AEAD call of the handshake. */
  datatype AeadUse = AeadUse(key: Key, hash: Key)
  datatype AeadUses = AeadUses(identity: AeadUse, empty: AeadUse, answer: AeadUse)

  predicate OpensTo(u: AeadUse, c: Bytes, plaintext: Bytes) {
    Open0(u.key, u.hash, c) == Some(plaintext)
  }

  /** The initiator's three calls: static key, empty payload, answer. */
  function InitiatorUses(staticKp: Keypair, responderPub: Key, eph: Key, erPub: Key): AeadUses {
    hide Prelude, PublicKey, SharedSecret, Kdf1, Kdf2, MixHash, Seal0;
    var (ck0, h0) := Prelude(responderPub);
    var h1 := MixHash(h0, PublicKey(eph));
    var (ck2, k1) := Kdf2(Kdf1(ck0, PublicKey(eph)), SharedSecret(eph, responderPub));
    var h2 := MixHash(h1, Seal0(k1, h1, staticKp.public));
    var (ck3, k2) := Kdf2(ck2, SharedSecret(staticKp.secret, responderPub));
    var h3 := MixHash(h2, Seal0(k2, h2, []));
    var ck5 := Kdf1(Kdf1(ck3, erPub), SharedSecret(eph, erPub));
    var (ck7, k3) := Kdf2(Kdf1(ck5, SharedSecret(staticKp.secret, erPub)), []);
    AeadUses(AeadUse(k1, h1), AeadUse(k2, h2), AeadUse(k3, MixHash(h3, erPub)))
  }

  /** The responder's three calls on a message 1 that names initPub. */
  function ResponderUses(staticKp: Keypair, eph: Key, msg1: Bytes, initPub: Key): AeadUses
    requires |msg1| == 96
  {
    hide Prelude, PublicKey, SharedSecret, Kdf1, Kdf2, MixHash;
    var ePub: Key := msg1[0..32];
    var (ck0, h0) := Prelude(staticKp.public);
    var h1 := MixHash(h0, ePub);
    var (ck2, k1) := Kdf2(Kdf1(ck0, ePub), SharedSecret(staticKp.secret, ePub));
    var h2 := MixHash(h1, msg1[32..80]);
    var (ck3, k2) := Kdf2(ck2, SharedSecret(staticKp.secret, initPub));
    var h3 := MixHash(h2, msg1[80..96]);
    var erPub := PublicKey(eph);
    var ck5 := Kdf1(Kdf1(ck3, erPub), SharedSecret(eph, ePub));
    var (ck7, k3) := Kdf2(Kdf1(ck5, SharedSecret(eph, initPub)), []);
    AeadUses(AeadUse(k1, h1), AeadUse(k2, h2), AeadUse(k3, MixHash(h3, erPub)))
  }

  function SealAt(u: AeadUse, plaintext: Bytes): Bytes {
    Seal0(u.key, u.hash, plaintext)
  }

  /** The initiator's calls: two seal message 1, the third decides on message 2. */
  ghost predicate InitiatorMakes(uses: AeadUses, ePub: Key, initPub: Key, sent: (Initiator, Bytes), erPub: Key,
                                 answer: Bytes) {
    hide Finalize, OpensTo, SealAt;
    && sent.1 == ePub + SealAt(uses.identity, initPub) + SealAt(uses.empty, [])
    && (Finalize(sent.0, erPub + answer).Some? <==> OpensTo(uses.answer, answer, []))
  }

  lemma InitiatorCalls(staticKp: Keypair, responderPub: Key, eph: Key, erPub: Key, answer: Bytes)
    requires |answer| == 16
    ensures InitiatorMakes(InitiatorUses(staticKp, responderPub, eph, erPub), PublicKey(eph), staticKp.public,
                           Initiate(staticKp, responderPub, eph), erPub, answer)
  {
    hide Prelude, PublicKey, SharedSecret, Kdf1, Kdf2, MixHash, Seal0, Open0;
    var msg2: Bytes := erPub + answer;
    assert msg2[0..32] == erPub && msg2[32..48] == answer;
  }

  /** The responder's calls: two open message 1, the third seals message 2. */
  ghost predicate ResponderMakes(uses: AeadUses, erPub: Key, initPub: Key, msg1: Bytes, r: Option<Response>)
    requires |msg1| == 96
  {
    hide OpensTo, SealAt;
    && (Recognized(r, initPub) <==>
         (OpensTo(uses.identity, msg1[32..80], initPub) && OpensTo(uses.empty, msg1[80..96], [])))
    && (Recognized(r, initPub) ==> r.value.msg2 == erPub + SealAt(uses.answer, []))
  }

  lemma ResponderCalls(staticKp: Keypair, eph: Key, msg1: Bytes, initPub: Key)
    requires |msg1| == 96
    ensures ResponderMakes(ResponderUses(staticKp, eph, msg1, initPub), PublicKey(eph), initPub, msg1,
                           Respond(staticKp, eph, msg1))
  {
    hide Prelude, PublicKey, SharedSecret, Kdf1, Kdf2, MixHash, Seal0, Open0;
  }

  /** Both ends enter every AEAD call of the handshake with the same key and the same transcript hash. */
  lemma TranscriptsAgree(initKp: Keypair, respKp: Keypair, initEph: Key, respEph: Key)
    requires Derived(initKp) && Derived(respKp)
    requires Agree(initEph, respKp.secret) && Agree(initKp.secret, respKp.secret)
    requires Agree(initEph, respEph) && Agree(initKp.secret, respEph)
    ensures InitiatorUses(initKp, respKp.public, initEph, PublicKey(respEph))
         == ResponderUses(respKp, respEph, Initiate(initKp, respKp.public, initEph).1, initKp.public)
  {
    hide Prelude, PublicKey, SharedSecret, Kdf1, Kdf2, MixHash, Seal0;
    var msg1 := Initiate(initKp, respKp.public, initEph).1;
    var ePub := PublicKey(initEph);
    var (ck0, h0) := Prelude(respKp.public);
    var h1 := MixHash(h0, ePub);
    var (ck2, k1) := Kdf2(Kdf1(ck0, ePub), SharedSecret(initEph, respKp.public));
    var encStatic := Seal0(k1, h1, initKp.public);
    var h2 := MixHash(h1, encStatic);
    var (ck3, k2) := Kdf2(ck2, SharedSecret(initKp.secret, respKp.public));
    assert msg1 == ePub + encStatic + Seal0(k2, h2, []);
    assert msg1[0..32] == ePub && msg1[32..80] == encStatic && msg1[80..96] == Seal0(k2, h2, []);
  }
}
