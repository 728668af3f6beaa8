/** The per-peer state of a node and the lock-holding blocks of its two pumps, each one atomic step.
    Cryptography is symbolic: a handshake message opens only for its addressee, a reply only for the
    handshake it answers, a packet only under the session that sealed it. */
module Tunnel {
  import opened Words
  import opened Options
  import Session

  type Ip = nat
  type Key = nat
  type Eph = nat
  type Peers = map<Ip, Key>

  // ---- Symbolic messages ---------------------------------------------------

  /** Message 1: ephemeral, initiator's static key, and the static key it was encrypted to. */
  datatype Init = Init(eph: Eph, initiator: Key, responder: Key)

  /** A completed handshake: message 1 and the responder's ephemeral. */
  datatype SessionId = SessionId(init: Init, respEph: Eph)

  datatype Role = Initiates | Responds {
    function Other(): Role {
      if Initiates? then Responds else Initiates
    }
  }

  /** The static key of one end of a session. */
  function Party(id: SessionId, role: Role): Key {
    if role.Initiates? then id.init.initiator else id.init.responder
  }

  datatype Payload =
    | Hello(init: Init)
    | Reply(id: SessionId)
    | Sealed(id: SessionId, sender: Role, counter: u64, plaintext: Bytes)
    | Junk

  datatype FrameKind = HandshakeInit | HandshakeResp | Data | Other

  datatype Frame = Frame(kind: FrameKind, src: Ip, payload: Payload)

  const MAX_PAYLOAD: int := 2048

  /** Frame::new: a sealed packet is its plaintext, an 8-byte counter and a 16-byte tag. */
  function NewFrame(kind: FrameKind, src: Ip, payload: Payload): seq<Frame> {
    if payload.Sealed? && |payload.plaintext| + 24 > MAX_PAYLOAD then [] else [Frame(kind, src, payload)]
  }

  // ---- Per-peer state ------------------------------------------------------

  /** A live session: its identity, our end of it, the next counter and the accepted counters. */
  datatype Live = Live(id: SessionId, role: Role, next: u64, accepted: set<u64>)

  function NewLive(id: SessionId, role: Role): Live { Live(id, role, 0, {}) }

  datatype PeerState = PeerState(session: Option<Live>, pending: Option<Init>)

  const EMPTY := PeerState(None, None)

  type Table = map<Ip, PeerState>

  /** `entry(ip).or_default()`. */
  function Entry(t: Table, ip: Ip): PeerState {
    if ip in t then t[ip] else EMPTY
  }

  /** A live session excludes a pending handshake. */
  ghost predicate Exclusive(t: Table) {
    forall ip :: ip in t ==> t[ip].session == None || t[ip].pending == None
  }

  // ---- The handshake and packet functions on symbols -----------------------

  /** noise::respond and the key check of accept_handshake. */
  function AcceptHandshake(key: Key, peers: Peers, src: Ip, payload: Payload, eph: Eph): Option<SessionId> {
    if !payload.Hello? || payload.init.responder != key then None
    else if src !in peers || peers[src] != payload.init.initiator then None
    else Some(SessionId(payload.init, eph))
  }

  /** noise::finalize on the pending state. */
  function FinishHandshake(pending: Init, payload: Payload): Option<SessionId> {
    if payload.Reply? && payload.id.init == pending then Some(payload.id) else None
  }

  /** Session::decrypt: the packet of the other end, with a counter that may still be accepted. */
  predicate Opens(s: Live, payload: Payload) {
    && payload.Sealed? && payload.id == s.id && payload.sender == s.role.Other()
    && Session.Acceptable(s.accepted, payload.counter)
  }

  // ---- The atomic steps, as functions of the table -------------------------

  datatype Effect = Effect(table: Table, frames: seq<Frame>)

  function Handshake(t: Table, ip: Ip, src: Ip, init: Init): Effect {
    Effect(t[ip := PeerState(None, Some(init))], NewFrame(HandshakeInit, src, Hello(init)))
  }

  /** TUN to UDP: encrypt under the live session, or open a handshake when none is in flight or the
      one in flight is due for a retry. Without entropy nothing is started. */
  function TunStep(t: Table, me: Key, myIp: Ip, ip: Ip, peerKey: Key, pkt: Bytes, due: bool,
                   eph: Option<Eph>): Effect
    requires Entry(t, ip).session.Some? ==> Entry(t, ip).session.value.next < 0xFFFF_FFFF_FFFF_FFFF
  {
    var st := Entry(t, ip);
    match st.session
    case Some(s) =>
      var sealed := Sealed(s.id, s.role, s.next, pkt);
      Effect(t[ip := st.(session := Some(s.(next := s.next + 1)))], NewFrame(Data, myIp, sealed))
    case None =>
      if (st.pending == None || due) && eph.Some? then Handshake(t, ip, myIp, Init(eph.value, me, peerKey))
      else Effect(t[ip := st], [])
  }

  /** An arriving message 1 that passes the key check replaces whatever was held for the peer. */
  function InitStep(t: Table, me: Key, myIp: Ip, peers: Peers, src: Ip, payload: Payload,
                    eph: Option<Eph>): Effect {
    if eph == None then Effect(t, [])
    else
      match AcceptHandshake(me, peers, src, payload, eph.value)
      case None => Effect(t, [])
      case Some(id) =>
        Effect(t[src := PeerState(Some(NewLive(id, Responds)), None)], NewFrame(HandshakeResp, myIp, Reply(id)))
  }

  /** An arriving message 2 consumes the pending handshake whether or not it is a good answer. */
  function RespStep(t: Table, src: Ip, payload: Payload): Effect {
    var st := Entry(t, src);
    match st.pending
    case None => Effect(t[src := st], [])
    case Some(init) =>
      match FinishHandshake(init, payload)
      case None => Effect(t[src := st.(pending := None)], [])
      case Some(id) => Effect(t[src := PeerState(Some(NewLive(id, Initiates)), None)], [])
  }

  /** First scope of a Data frame: the packet to write, if it opens. */
  function DataStep(t: Table, src: Ip, payload: Payload): (Table, Option<Bytes>) {
    if src in t && t[src].session.Some? && Opens(t[src].session.value, payload) then
      var s := t[src].session.value;
      (t[src := t[src].(session := Some(s.(accepted := s.accepted + {payload.counter})))],
       Some(payload.plaintext))
    else (t, None)
  }

  /** Second scope of a Data frame that did not open: drop the session and start a handshake, unless
      one is in flight and not yet due. */
  function RecoverStep(t: Table, me: Key, myIp: Ip, peers: Peers, src: Ip, due: bool,
                       eph: Option<Eph>): Effect {
    if src !in peers || eph == None then Effect(t, [])
    else
      var st := Entry(t, src);
      if st.pending == None || due then Handshake(t, src, myIp, Init(eph.value, me, peers[src]))
      else Effect(t[src := st], [])
  }

  // ---- What every step keeps -----------------------------------------------

  /** In every per-peer state any sequence of steps reaches, a session excludes a pending handshake. */
  lemma StepsKeepExclusive(t: Table, me: Key, myIp: Ip, peers: Peers, ip: Ip, peerKey: Key,
                           pkt: Bytes, payload: Payload, due: bool, eph: Option<Eph>)
    requires Exclusive(t)
    ensures (Entry(t, ip).session.Some? ==> Entry(t, ip).session.value.next < 0xFFFF_FFFF_FFFF_FFFF)
        ==> Exclusive(TunStep(t, me, myIp, ip, peerKey, pkt, due, eph).table)
    ensures Exclusive(InitStep(t, me, myIp, peers, ip, payload, eph).table)
    ensures Exclusive(RespStep(t, ip, payload).table)
    ensures Exclusive(DataStep(t, ip, payload).0)
    ensures Exclusive(RecoverStep(t, me, myIp, peers, ip, due, eph).table)
  {
  }

  /** A TUN read: destination peer, its key, the packet, whether a retry is due, and entropy. */
  datatype TunRead = TunRead(ip: Ip, peerKey: Key, pkt: Bytes, due: bool, eph: Option<Eph>)

  predicate CanRead(t: Table, r: TunRead) {
    Entry(t, r.ip).session.Some? ==> Entry(t, r.ip).session.value.next < 0xFFFF_FFFF_FFFF_FFFF
  }

  function AfterRead(t: Table, me: Key, myIp: Ip, r: TunRead): Table
    requires CanRead(t, r)
  {
    TunStep(t, me, myIp, r.ip, r.peerKey, r.pkt, r.due, r.eph).table
  }

  /** A table some TUN reads lead to. */
  ghost predicate ReadsLeadTo(t: Table, me: Key, myIp: Ip, readings: seq<TunRead>, end: Table)
    decreases |readings|
  {
    if readings == [] then end == t
    else CanRead(t, readings[0]) && ReadsLeadTo(AfterRead(t, me, myIp, readings[0]), me, myIp, readings[1..], end)
  }

  /** TUN reads keep a live session live and start no handshake beside it. */
  lemma {:induction false} ReadsKeepLive(t: Table, me: Key, myIp: Ip, readings: seq<TunRead>, end: Table, ip: Ip)
    requires ReadsLeadTo(t, me, myIp, readings, end)
    requires Entry(t, ip).session.Some? && Entry(t, ip).pending == None
    ensures Entry(end, ip).session.Some? && Entry(end, ip).pending == None
    ensures Entry(end, ip).session.value.id == Entry(t, ip).session.value.id
    decreases |readings|
  {
    if readings != [] {
      ReadsKeepLive(AfterRead(t, me, myIp, readings[0]), me, myIp, readings[1..], end, ip);
    }
  }

  /** Both ends hold the same session from opposite ends. */
  ghost predicate Mirror(a: Option<Live>, b: Option<Live>) {
    a.Some? && b.Some? && a.value.id == b.value.id && a.value.role == b.value.role.Other()
  }

  /** The handshake frame of b arrives at a, and the answer of a arrives at b: both then hold the two
      ends of one session. */
  ghost predicate DeliveryMirrors(sent: Effect, ipB: Ip, ta: Table, a: Key, ipA: Ip, peersA: Peers, ephA: Eph) {
    && |sent.frames| == 1
    && var hello := sent.frames[0];
    && hello.kind == HandshakeInit && hello.src == ipB
    && var accept := InitStep(ta, a, ipA, peersA, hello.src, hello.payload, Some(ephA));
    && |accept.frames| == 1
    && var reply := accept.frames[0];
    && reply.kind == HandshakeResp && reply.src == ipA
    && var finish := RespStep(sent.table, reply.src, reply.payload);
    Mirror(Entry(accept.table, ipB).session, Entry(finish.table, ipA).session)
  }

  /** When the second scope of a Data frame starts a handshake. */
  predicate Recovers(tb: Table, ipA: Ip, peersB: Peers, due: bool, eph: Option<Eph>) {
    ipA in peersB && eph.Some? && (Entry(tb, ipA).pending == None || due)
  }

  /** Each end's peer table gives the other's key for its address. */
  predicate Acquainted(a: Key, ipA: Ip, b: Key, ipB: Ip, peersA: Peers, peersB: Peers) {
    ipA in peersB && peersB[ipA] == a && ipB in peersA && peersA[ipB] == b
  }

  /** Recovery: after a frame from a that does not open, b sends one handshake frame exactly when it
      knows the peer, has entropy, and has no handshake in flight that is not yet due; otherwise its
      entry for the peer is as it was. Delivering the frame and its answer leaves mirrored sessions,
      whatever either end held, exactly when moreover each end lists the other under its key. */
  lemma RecoveryMirrorsExactly(ta: Table, tb: Table, a: Key, ipA: Ip, b: Key, ipB: Ip,
                               peersA: Peers, peersB: Peers, due: bool, ephB: Option<Eph>, ephA: Eph)
    ensures var recover := RecoverStep(tb, b, ipB, peersB, ipA, due, ephB);
            && (|recover.frames| == 1 <==> Recovers(tb, ipA, peersB, due, ephB))
            && (DeliveryMirrors(recover, ipB, ta, a, ipA, peersA, ephA)
                <==> Recovers(tb, ipA, peersB, due, ephB) && Acquainted(a, ipA, b, ipB, peersA, peersB))
            && (!Recovers(tb, ipA, peersB, due, ephB) ==>
                  recover.frames == [] && Entry(recover.table, ipA) == Entry(tb, ipA))
  {
  }

  /** The node that lost its sessions in a restart: its table is empty, nothing opens, and recovery
      starts at once. */
  lemma RestartedNodeRecovers(ta: Table, a: Key, ipA: Ip, b: Key, ipB: Ip, peersA: Peers, peersB: Peers,
                              payload: Payload, due: bool, ephB: Eph, ephA: Eph)
    requires Acquainted(a, ipA, b, ipB, peersA, peersB)
    ensures DataStep(map[], ipA, payload) == (map[], None)
    ensures DeliveryMirrors(RecoverStep(map[], b, ipB, peersB, ipA, due, Some(ephB)), ipB, ta, a, ipA, peersA, ephA)
  {
    RecoveryMirrorsExactly(ta, map[], a, ipA, b, ipB, peersA, peersB, due, Some(ephB), ephA);
  }

  /** From any mismatched pair: b holds a session under which one frame from a does not open, and any
      TUN reads happen at b between its two lock scopes. Recovery starts, and its delivery mirrors. */
  lemma OneBadFrameRestoresMirror(ta: Table, tb: Table, a: Key, ipA: Ip, b: Key, ipB: Ip,
                                  peersA: Peers, peersB: Peers, payload: Payload,
                                  readings: seq<TunRead>, tb1: Table, due: bool, ephB: Eph, ephA: Eph)
    requires Exclusive(tb) && Entry(tb, ipA).session.Some?
    requires DataStep(tb, ipA, payload) == (tb, None)
    requires ReadsLeadTo(tb, b, ipB, readings, tb1)
    requires Acquainted(a, ipA, b, ipB, peersA, peersB)
    ensures DeliveryMirrors(RecoverStep(tb1, b, ipB, peersB, ipA, due, Some(ephB)), ipB, ta, a, ipA, peersA, ephA)
  {
    ReadsKeepLive(tb, b, ipB, readings, tb1, ipA);
    RecoveryMirrorsExactly(ta, tb1, a, ipA, b, ipB, peersA, peersB, due, Some(ephB), ephA);
  }

  /** What a is left with when b answers its message 1. */
  function Answered(ta: Table, ipB: Ip, initA: Init, ephB: Eph): Table {
    RespStep(ta, ipB, Reply(SessionId(initA, ephB))).table
  }

  /** An answer mirrors exactly when the handshake it answers is still the one in flight: b accepted
      message 1, and the session this makes is not the one a already holds. */
  lemma AnswerMirrorsExactly(ta: Table, tb: Table, a: Key, ipA: Ip, b: Key, ipB: Ip, peersB: Peers,
                             initA: Init, ephB: Eph)
    requires ipA in peersB && peersB[ipA] == a && initA.initiator == a && initA.responder == b
    requires Entry(ta, ipB).session.Some? ==> Entry(ta, ipB).session.value.id != SessionId(initA, ephB)
    ensures var accept := InitStep(tb, b, ipB, peersB, ipA, Hello(initA), Some(ephB));
            && accept.frames == [Frame(HandshakeResp, ipB, Reply(SessionId(initA, ephB)))]
            && (Mirror(Entry(Answered(ta, ipB, initA, ephB), ipB).session, Entry(accept.table, ipA).session)
                <==> Entry(ta, ipB).pending == Some(initA))
  {
  }

  /** A handshake in flight that is not due: recovery starts nothing and does not disturb it, and its
      answer still mirrors. */
  lemma InFlightStillMirrors(ta: Table, tb: Table, a: Key, ipA: Ip, b: Key, ipB: Ip, peersA: Peers, peersB: Peers,
                             initB: Init, ephB: Option<Eph>, ephA: Eph)
    requires Exclusive(tb) && Entry(tb, ipA).pending == Some(initB)
    requires ipB in peersA && peersA[ipB] == b && initB.initiator == b && initB.responder == a
    ensures var recover := RecoverStep(tb, b, ipB, peersB, ipA, false, ephB);
            var accept := InitStep(ta, a, ipA, peersA, ipB, Hello(initB), Some(ephA));
            && recover.frames == []
            && Mirror(Entry(Answered(recover.table, ipA, initB, ephA), ipA).session, Entry(accept.table, ipB).session)
  {
    var recover := RecoverStep(tb, b, ipB, peersB, ipA, false, ephB);
    AnswerMirrorsExactly(recover.table, ta, b, ipB, a, ipA, peersA, initB, ephA);
  }

  /** Both tables after two handshakes crossed: each end accepted the other's message 1, then received
      the answer to its own. */
  function Crossed(ta: Table, tb: Table, a: Key, ipA: Ip, b: Key, ipB: Ip, peersA: Peers, peersB: Peers,
                   initA: Init, initB: Init, ephA: Eph, ephB: Eph): (Table, Table)
  {
    var atA := InitStep(ta, a, ipA, peersA, ipB, Hello(initB), Some(ephA)).table;
    var atB := InitStep(tb, b, ipB, peersB, ipA, Hello(initA), Some(ephB)).table;
    (Answered(atA, ipB, initA, ephB), Answered(atB, ipA, initB, ephA))
  }

  /** Simultaneous initiation: accepting the other's message 1 clears the handshake in flight, so
      neither answer mirrors. The sessions left cannot open each other's packets; the first packet from
      a that arrives makes b recover, and delivering that handshake mirrors. */
  lemma CrossedHandshakesAreRepaired(ta: Table, tb: Table, a: Key, ipA: Ip, b: Key, ipB: Ip,
                                     peersA: Peers, peersB: Peers, initA: Init, initB: Init,
                                     ephA: Eph, ephB: Eph, counter: u64, pkt: Bytes,
                                     due: bool, ephB': Eph, ephA': Eph)
    requires Acquainted(a, ipA, b, ipB, peersA, peersB)
    requires initA.initiator == a && initA.responder == b && initB.initiator == b && initB.responder == a
    requires initA != initB
    ensures InitStep(ta, a, ipA, peersA, ipB, Hello(initB), Some(ephA)).frames
            == [Frame(HandshakeResp, ipA, Reply(SessionId(initB, ephA)))]
    ensures InitStep(tb, b, ipB, peersB, ipA, Hello(initA), Some(ephB)).frames
            == [Frame(HandshakeResp, ipB, Reply(SessionId(initA, ephB)))]
    ensures var (endA, endB) := Crossed(ta, tb, a, ipA, b, ipB, peersA, peersB, initA, initB, ephA, ephB);
            && Entry(endA, ipB).session.Some? && Entry(endB, ipA).session.Some?
            && !Mirror(Entry(endA, ipB).session, Entry(endB, ipA).session)
            && var sa := Entry(endA, ipB).session.value;
            var packet := Sealed(sa.id, sa.role, counter, pkt);
            && DataStep(endB, ipA, packet) == (endB, None)
            && DeliveryMirrors(RecoverStep(endB, b, ipB, peersB, ipA, due, Some(ephB')), ipB,
                               endA, a, ipA, peersA, ephA')
  {
    var atA := InitStep(ta, a, ipA, peersA, ipB, Hello(initB), Some(ephA)).table;
    var atB := InitStep(tb, b, ipB, peersB, ipA, Hello(initA), Some(ephB)).table;
    AnswerMirrorsExactly(atA, tb, a, ipA, b, ipB, peersB, initA, ephB);
    AnswerMirrorsExactly(atB, ta, b, ipB, a, ipA, peersA, initB, ephA);
    var (endA, endB) := Crossed(ta, tb, a, ipA, b, ipB, peersA, peersB, initA, initB, ephA, ephB);
    RecoveryMirrorsExactly(endA, endB, a, ipA, b, ipB, peersA, peersB, due, Some(ephB'), ephA');
  }

  // ---- The code ------------------------------------------------------------

  class Node {
    const key: Key
    const myIp: Ip
    var table: Table

    ghost predicate Valid()
      reads this
    {
      Exclusive(table)
    }

    constructor (key: Key, myIp: Ip)
      ensures Valid() && table == map[]
      ensures this.key == key && this.myIp == myIp
    {
      this.key, this.myIp := key, myIp;
      table := map[];
    }

    /** The locked block of the TUN pump. */
    method OnTunRead(ip: Ip, peerKey: Key, pkt: Bytes, due: bool, eph: Option<Eph>) returns (out: seq<Frame>)
      requires Valid()
      requires Entry(table, ip).session.Some? ==> Entry(table, ip).session.value.next < 0xFFFF_FFFF_FFFF_FFFF
      modifies this
      ensures Valid()
      ensures Effect(table, out) == TunStep(old(table), key, myIp, ip, peerKey, pkt, due, eph)
    {
      out := [];
      var st := Entry(table, ip);
      if st.session.Some? {
        var sess := st.session.value;
        var ct := Sealed(sess.id, sess.role, sess.next, pkt);
        st := st.(session := Some(sess.(next := sess.next + 1)));
        out := NewFrame(Data, myIp, ct);
      } else if st.pending == None || due {
        if eph.Some? {
          var init := Init(eph.value, key, peerKey);
          st := st.(pending := Some(init));
          out := NewFrame(HandshakeInit, myIp, Hello(init));
        }
      }
      table := table[ip := st];
    }

    /** The HandshakeInit arm. */
    method OnHandshakeInit(peers: Peers, src: Ip, payload: Payload, eph: Option<Eph>) returns (out: seq<Frame>)
      requires Valid()
      modifies this
      ensures Valid()
      ensures Effect(table, out) == InitStep(old(table), key, myIp, peers, src, payload, eph)
    {
      out := [];
      if eph.Some? {
        var accepted := AcceptHandshake(key, peers, src, payload, eph.value);
        if accepted.Some? {
          var st := Entry(table, src);
          st := st.(session := Some(NewLive(accepted.value, Responds)));
          st := st.(pending := None);
          table := table[src := st];
          out := NewFrame(HandshakeResp, myIp, Reply(accepted.value));
        }
      }
    }

    /** The HandshakeResp arm. */
    method OnHandshakeResp(src: Ip, payload: Payload)
      requires Valid()
      modifies this
      ensures Valid()
      ensures Effect(table, []) == RespStep(old(table), src, payload)
    {
      var st := Entry(table, src);
      if st.pending.Some? {
        var state := st.pending.value;
        st := st.(pending := None);
        var finished := FinishHandshake(state, payload);
        if finished.Some? {
          st := st.(session := Some(NewLive(finished.value, Initiates)));
        }
      }
      table := table[src := st];
    }

    /** The first scope of the Data arm. */
    method OnData(src: Ip, payload: Payload) returns (plaintext: Option<Bytes>)
      requires Valid()
      modifies this
      ensures Valid()
      ensures (table, plaintext) == DataStep(old(table), src, payload)
    {
      plaintext := None;
      if src in table {
        var st := table[src];
        if st.session.Some? {
          var sess := st.session.value;
          if Opens(sess, payload) {
            sess := sess.(accepted := sess.accepted + {payload.counter});
            plaintext := Some(payload.plaintext);
            table := table[src := st.(session := Some(sess))];
          }
        }
      }
    }

    /** The second scope of the Data arm. */
    method OnUndecryptable(peers: Peers, src: Ip, due: bool, eph: Option<Eph>) returns (out: seq<Frame>)
      requires Valid()
      modifies this
      ensures Valid()
      ensures Effect(table, out) == RecoverStep(old(table), key, myIp, peers, src, due, eph)
    {
      out := [];
      if src in peers && eph.Some? {
        var st := Entry(table, src);
        var retry := st.pending == None || due;
        if retry {
          var init := Init(eph.value, key, peers[src]);
          st := st.(session := None);
          st := st.(pending := Some(init));
          out := NewFrame(HandshakeInit, myIp, Hello(init));
        }
        table := table[src := st];
      }
    }
  }
}
