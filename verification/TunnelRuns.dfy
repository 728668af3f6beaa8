/** Runs of many nodes over a network that may drop, duplicate, reorder and readdress every message,
    with dishonest parties beside the nodes. Each lock scope is one step; between the two scopes of a
    Data frame the TUN pump of the same node may run. Fresh ephemerals and ideal encryption are
    assumptions of the model, stated in Enabled. */
module TunnelRuns {
  import opened Words
  import opened Options
  import opened Tunnel

  /** A node: its overlay address, its table, the Data frame whose first scope failed (source and
      peer-table snapshot), and every peer table it has had. */
  datatype NodeState = NodeState(ip: Ip, table: Table, failed: Option<(Ip, nat)>, tables: seq<Peers>)

  /** A packet read from the TUN of `reader` and sealed. */
  datatype Read = Read(reader: Key, id: SessionId, role: Role, counter: u64, pkt: Bytes)

  /** A packet written to the TUN of `writer` for the peer at `ip`; `role` is the sender's end. */
  datatype Write = Write(writer: Key, ip: Ip, id: SessionId, role: Role, counter: u64, pkt: Bytes)

  datatype World = World(
    nodes: map<Key, NodeState>,
    net: set<Payload>,
    used: set<Eph>,
    born: set<(SessionId, Role)>,
    readLog: set<Read>,
    writeLog: seq<Write>)

  datatype Step =
    | ReadTun(k: Key, version: nat, ip: Ip, pkt: Bytes, due: bool, eph: Option<Eph>)
    | ArriveInit(k: Key, version: nat, src: Ip, payload: Payload, eph: Option<Eph>)
    | ArriveResp(k: Key, src: Ip, payload: Payload)
    | ArriveData(k: Key, version: nat, src: Ip, payload: Payload)
    | Recover(k: Key, due: bool, eph: Option<Eph>)
    | NewPeers(k: Key, peers: Peers)
    | Restart(k: Key)
    | Inject(payload: Payload)

  function Payloads(frames: seq<Frame>): set<Payload> {
    set f | f in frames :: f.payload
  }

  /** Store a step's effect at a node and put its frames on the network. */
  function Commit(w: World, k: Key, e: Effect): World
    requires k in w.nodes
  {
    w.(nodes := w.nodes[k := w.nodes[k].(table := e.table)], net := w.net + Payloads(e.frames))
  }

  function Spend(w: World, eph: Option<Eph>): World {
    if eph.Some? then w.(used := w.used + {eph.value}) else w
  }

  function SetFailed(w: World, k: Key, failed: Option<(Ip, nat)>): World
    requires k in w.nodes
  {
    w.(nodes := w.nodes[k := w.nodes[k].(failed := failed)])
  }

  // ---- What may happen -----------------------------------------------------

  predicate Fresh(w: World, eph: Option<Eph>) {
    eph.Some? ==> eph.value !in w.used
  }

  /** A party whose key is not a node's can make any message its own secrets allow. */
  predicate Forgeable(w: World, payload: Payload) {
    match payload
    case Hello(init) => init.initiator !in w.nodes || init.responder !in w.nodes
    case Reply(id) => id.init.initiator !in w.nodes || id.init.responder !in w.nodes
    case Sealed(id, _, _, _) => id.init.initiator !in w.nodes || id.init.responder !in w.nodes
    case Junk => true
  }

  predicate CanSeal(t: Table, ip: Ip) {
    Entry(t, ip).session.Some? ==> Entry(t, ip).session.value.next < 0xFFFF_FFFF_FFFF_FFFF
  }

  predicate Enabled(w: World, s: Step) {
    match s
    case ReadTun(k, version, ip, _, _, eph) =>
      && k in w.nodes && Fresh(w, eph)
      && version < |w.nodes[k].tables| && ip in w.nodes[k].tables[version]
      && CanSeal(w.nodes[k].table, ip)
    case ArriveInit(k, version, _, payload, eph) =>
      && k in w.nodes && w.nodes[k].failed == None && Fresh(w, eph)
      && version < |w.nodes[k].tables| && payload in w.net
    case ArriveResp(k, _, payload) =>
      k in w.nodes && w.nodes[k].failed == None && payload in w.net
    case ArriveData(k, version, _, payload) =>
      && k in w.nodes && w.nodes[k].failed == None
      && version < |w.nodes[k].tables| && payload in w.net
    case Recover(k, _, eph) =>
      && k in w.nodes && w.nodes[k].failed.Some? && Fresh(w, eph)
      && w.nodes[k].failed.value.1 < |w.nodes[k].tables|
    case NewPeers(k, _) => k in w.nodes
    case Restart(k) => k in w.nodes
    case Inject(payload) => Forgeable(w, payload)
  }

  // ---- What happens --------------------------------------------------------

  function ApplyTunRead(w: World, k: Key, version: nat, ip: Ip, pkt: Bytes, due: bool, eph: Option<Eph>): World
    requires Enabled(w, ReadTun(k, version, ip, pkt, due, eph))
  {
    var n := w.nodes[k];
    var st := Entry(n.table, ip);
    var w' := Spend(Commit(w, k, TunStep(n.table, k, n.ip, ip, n.tables[version][ip], pkt, due, eph)), eph);
    if st.session.Some? then
      var s := st.session.value;
      w'.(readLog := w'.readLog + {Read(k, s.id, s.role, s.next, pkt)})
    else w'
  }

  function ApplyArriveInit(w: World, k: Key, version: nat, src: Ip, payload: Payload, eph: Option<Eph>): World
    requires Enabled(w, ArriveInit(k, version, src, payload, eph))
  {
    var n := w.nodes[k];
    var w' := Spend(Commit(w, k, InitStep(n.table, k, n.ip, n.tables[version], src, payload, eph)), eph);
    if eph.Some? && AcceptHandshake(k, n.tables[version], src, payload, eph.value).Some? then
      w'.(born := w'.born + {(SessionId(payload.init, eph.value), Responds)})
    else w'
  }

  function ApplyArriveResp(w: World, k: Key, src: Ip, payload: Payload): World
    requires Enabled(w, ArriveResp(k, src, payload))
  {
    var n := w.nodes[k];
    var w' := Commit(w, k, RespStep(n.table, src, payload));
    var pending := Entry(n.table, src).pending;
    if pending.Some? && FinishHandshake(pending.value, payload).Some? then
      w'.(born := w'.born + {(payload.id, Initiates)})
    else w'
  }

  function ApplyArriveData(w: World, k: Key, version: nat, src: Ip, payload: Payload): World
    requires Enabled(w, ArriveData(k, version, src, payload))
  {
    var n := w.nodes[k];
    var (table, plaintext) := DataStep(n.table, src, payload);
    if plaintext.Some? then
      var w' := Commit(w, k, Effect(table, []));
      w'.(writeLog := w'.writeLog + [Write(k, src, payload.id, payload.sender, payload.counter, plaintext.value)])
    else SetFailed(w, k, Some((src, version)))
  }

  function ApplyRecover(w: World, k: Key, due: bool, eph: Option<Eph>): World
    requires Enabled(w, Recover(k, due, eph))
  {
    var n := w.nodes[k];
    var (src, version) := n.failed.value;
    SetFailed(Spend(Commit(w, k, RecoverStep(n.table, k, n.ip, n.tables[version], src, due, eph)), eph), k, None)
  }

  function Apply(w: World, s: Step): World
    requires Enabled(w, s)
  {
    match s
    case ReadTun(k, version, ip, pkt, due, eph) => ApplyTunRead(w, k, version, ip, pkt, due, eph)
    case ArriveInit(k, version, src, payload, eph) => ApplyArriveInit(w, k, version, src, payload, eph)
    case ArriveResp(k, src, payload) => ApplyArriveResp(w, k, src, payload)
    case ArriveData(k, version, src, payload) => ApplyArriveData(w, k, version, src, payload)
    case Recover(k, due, eph) => ApplyRecover(w, k, due, eph)
    case NewPeers(k, peers) =>
      w.(nodes := w.nodes[k := w.nodes[k].(tables := w.nodes[k].tables + [peers])])
    case Restart(k) => w.(nodes := w.nodes[k := w.nodes[k].(table := map[], failed := None)])
    case Inject(payload) => w.(net := w.net + {payload})
  }

  /** The world before any step: empty tables, nothing sent. */
  ghost predicate Initial(w: World) {
    && (forall k :: k in w.nodes ==> w.nodes[k].table == map[] && w.nodes[k].failed == None)
    && w.net == {} && w.used == {} && w.born == {} && w.readLog == {} && w.writeLog == []
  }

  /** The world after a run, when every step of it was possible. */
  ghost predicate RunsTo(w: World, steps: seq<Step>, end: World)
    decreases |steps|
  {
    if steps == [] then end == w
    else Enabled(w, steps[0]) && RunsTo(Apply(w, steps[0]), steps[1..], end)
  }

  // ---- The invariant -------------------------------------------------------

  function LiveAt(w: World, k: Key, ip: Ip): Option<Live> {
    if k in w.nodes then Entry(w.nodes[k].table, ip).session else None
  }

  function PendingAt(w: World, k: Key, ip: Ip): Option<Init> {
    if k in w.nodes then Entry(w.nodes[k].table, ip).pending else None
  }

  /** Some peer table of node k maps the address to this key. */
  ghost predicate Checked(w: World, k: Key, ip: Ip, key: Key) {
    && k in w.nodes
    && exists v :: 0 <= v < |w.nodes[k].tables| && ip in w.nodes[k].tables[v] && w.nodes[k].tables[v][ip] == key
  }

  ghost predicate AllExclusive(w: World) {
    forall k, ip :: LiveAt(w, k, ip) == None || PendingAt(w, k, ip) == None
  }

  /** A pending handshake was started here, for the checked key, and has no session yet. */
  ghost predicate PendingOk(w: World) {
    forall k, ip :: PendingAt(w, k, ip).Some? ==>
      var p := PendingAt(w, k, ip).value;
      && p.initiator == k && p.eph in w.used && Checked(w, k, ip, p.responder)
      && forall b :: b in w.born && b.1 == Initiates ==> b.0.init != p
  }

  ghost predicate PendingUnique(w: World) {
    forall k, ip, k', ip' :: PendingAt(w, k, ip).Some? && PendingAt(w, k, ip) == PendingAt(w, k', ip')
      ==> k == k' && ip == ip'
  }

  /** A live session has us at our end and the checked key at the other. */
  ghost predicate LiveOk(w: World) {
    forall k, ip :: LiveAt(w, k, ip).Some? ==>
      var s := LiveAt(w, k, ip).value;
      && Party(s.id, s.role) == k && Checked(w, k, ip, Party(s.id, s.role.Other()))
      && (s.id, s.role) in w.born
  }

  ghost predicate SameEnd(a: Option<Live>, b: Option<Live>) {
    a.Some? && b.Some? && a.value.id == b.value.id && a.value.role == b.value.role
  }

  /** Each end of a session is live in at most one place. */
  ghost predicate LiveUnique(w: World) {
    forall k, ip, k', ip' :: SameEnd(LiveAt(w, k, ip), LiveAt(w, k', ip')) ==> k == k' && ip == ip'
  }

  ghost predicate BornOk(w: World) {
    forall b :: b in w.born ==> (if b.1.Initiates? then b.0.init.eph in w.used else b.0.respEph in w.used)
  }

  /** The node at the sending end had read this packet. */
  ghost predicate Authentic(w: World, id: SessionId, role: Role, counter: u64, pkt: Bytes) {
    id.init.initiator in w.nodes && id.init.responder in w.nodes ==>
      Read(Party(id, role), id, role, counter, pkt) in w.readLog
  }

  ghost predicate NetOk(w: World) {
    forall p :: p in w.net && p.Sealed? ==> Authentic(w, p.id, p.sender, p.counter, p.plaintext)
  }

  ghost predicate WritesOk(w: World) {
    forall i :: 0 <= i < |w.writeLog| ==>
      var x := w.writeLog[i];
      && (x.id, x.role.Other()) in w.born
      && Party(x.id, x.role.Other()) == x.writer
      && Checked(w, x.writer, x.ip, Party(x.id, x.role))
      && Authentic(w, x.id, x.role, x.counter, x.pkt)
  }

  ghost predicate SamePacket(x: Write, y: Write) {
    x.id == y.id && x.role == y.role && x.counter == y.counter
  }

  ghost predicate WritesDistinct(w: World) {
    forall i, j :: 0 <= i < j < |w.writeLog| ==> !SamePacket(w.writeLog[i], w.writeLog[j])
  }

  ghost predicate Receives(s: Option<Live>, x: Write) {
    s.Some? && s.value.id == x.id && s.value.role == x.role.Other()
  }

  ghost predicate Sends(s: Option<Live>, r: Read) {
    s.Some? && s.value.id == r.id && s.value.role == r.role
  }

  /** What a live session has written it has accepted. */
  ghost predicate WrittenAccepted(w: World) {
    forall i, k, ip :: 0 <= i < |w.writeLog| && Receives(LiveAt(w, k, ip), w.writeLog[i]) ==>
      w.writeLog[i].counter in LiveAt(w, k, ip).value.accepted
  }

  ghost predicate ReadsOk(w: World) {
    forall r :: r in w.readLog ==> (r.id, r.role) in w.born && Party(r.id, r.role) == r.reader
  }

  ghost predicate ReadsBelow(w: World) {
    forall r, k, ip :: r in w.readLog && Sends(LiveAt(w, k, ip), r) ==>
      r.counter < LiveAt(w, k, ip).value.next
  }

  /** A session end and a counter name at most one read. */
  ghost predicate ReadsUnique(w: World) {
    forall r, q :: r in w.readLog && q in w.readLog && r.id == q.id && r.role == q.role && r.counter == q.counter
      ==> r == q
  }

  /** The per-peer states of all nodes. */
  ghost predicate StatesOk(w: World) {
    AllExclusive(w) && PendingOk(w) && PendingUnique(w) && LiveOk(w) && LiveUnique(w) && BornOk(w)
  }

  /** What was read, sealed, opened and written. */
  ghost predicate LogsOk(w: World) {
    && NetOk(w) && WritesOk(w) && WritesDistinct(w) && WrittenAccepted(w)
    && ReadsOk(w) && ReadsBelow(w) && ReadsUnique(w)
  }

  ghost predicate Inv(w: World) {
    StatesOk(w) && LogsOk(w)
  }

  lemma InitialInv(w: World)
    requires Initial(w)
    ensures Inv(w)
  {
  }

  lemma InvParts(w: World)
    ensures Inv(w) <==> StatesOk(w) && LogsOk(w)
  {
  }

  // ---- Each kind of change keeps the invariant -----------------------------

  /** Only the entry (k, ip) changed, to st, and the node's history did not shrink. */
  ghost predicate EntryChanged(w: World, w': World, k: Key, ip: Ip, st: PeerState) {
    && k in w.nodes
    && w'.nodes.Keys == w.nodes.Keys
    && (forall j :: j in w.nodes ==> w'.nodes[j].tables == w.nodes[j].tables)
    && (forall j, a :: LiveAt(w', j, a) == if j == k && a == ip then st.session else LiveAt(w, j, a))
    && (forall j, a :: PendingAt(w', j, a) == if j == k && a == ip then st.pending else PendingAt(w, j, a))
  }

  lemma CheckedKept(w: World, w': World, k: Key, ip: Ip, key: Key)
    requires k in w.nodes && k in w'.nodes && w'.nodes[k].tables == w.nodes[k].tables
    ensures Checked(w, k, ip, key) == Checked(w', k, ip, key)
  {
  }

  /** A handshake starts with a fresh ephemeral. */
  lemma BeginKeeps(w: World, w': World, k: Key, ip: Ip, init: Init)
    requires Inv(w)
    requires EntryChanged(w, w', k, ip, PeerState(None, Some(init)))
    requires init.initiator == k && init.eph !in w.used && Checked(w, k, ip, init.responder)
    requires w'.used == w.used + {init.eph} && w'.net == w.net + {Hello(init)}
    requires w'.born == w.born && w'.readLog == w.readLog && w'.writeLog == w.writeLog
    ensures Inv(w')
  {
    hide Inv;
    BeginKeepsStates(w, w', k, ip, init);
    BeginKeepsLogs(w, w', k, ip, init);
    InvParts(w');
  }

  lemma BeginKeepsStates(w: World, w': World, k: Key, ip: Ip, init: Init)
    requires Inv(w)
    requires EntryChanged(w, w', k, ip, PeerState(None, Some(init)))
    requires init.initiator == k && init.eph !in w.used && Checked(w, k, ip, init.responder)
    requires w'.used == w.used + {init.eph} && w'.net == w.net + {Hello(init)}
    requires w'.born == w.born && w'.readLog == w.readLog && w'.writeLog == w.writeLog
    ensures StatesOk(w')
  {
    hide LogsOk;
    forall j, a, key ensures Checked(w, j, a, key) ==> Checked(w', j, a, key) {
      if Checked(w, j, a, key) { CheckedKept(w, w', j, a, key); }
    }
  }

  lemma BeginKeepsLogs(w: World, w': World, k: Key, ip: Ip, init: Init)
    requires Inv(w)
    requires EntryChanged(w, w', k, ip, PeerState(None, Some(init)))
    requires init.initiator == k && init.eph !in w.used && Checked(w, k, ip, init.responder)
    requires w'.used == w.used + {init.eph} && w'.net == w.net + {Hello(init)}
    requires w'.born == w.born && w'.readLog == w.readLog && w'.writeLog == w.writeLog
    ensures LogsOk(w')
  {
    hide PendingUnique, LiveUnique, PendingOk;
    forall j, a, key ensures Checked(w, j, a, key) ==> Checked(w', j, a, key) {
      if Checked(w, j, a, key) { CheckedKept(w, w', j, a, key); }
    }
  }

  /** A live session changes in its counter or its accepted set only. */
  lemma SessionAdvances(w: World, w': World, k: Key, ip: Ip, s: Live, s': Live)
    requires StatesOk(w)
    requires LiveAt(w, k, ip) == Some(s) && s'.id == s.id && s'.role == s.role
    requires EntryChanged(w, w', k, ip, PeerState(Some(s'), PendingAt(w, k, ip)))
    requires w'.used == w.used && w'.born == w.born
    ensures StatesOk(w')
  {
    forall j, a, key ensures Checked(w, j, a, key) ==> Checked(w', j, a, key) {
      if Checked(w, j, a, key) { CheckedKept(w, w', j, a, key); }
    }
  }

  /** A packet read from the TUN is sealed under the next counter. */
  lemma SealKeeps(w: World, w': World, k: Key, ip: Ip, s: Live, pkt: Bytes)
    requires Inv(w)
    requires LiveAt(w, k, ip) == Some(s) && s.next < 0xFFFF_FFFF_FFFF_FFFF
    requires EntryChanged(w, w', k, ip, PeerState(Some(s.(next := s.next + 1)), PendingAt(w, k, ip)))
    requires w'.used == w.used && w'.born == w.born && w'.writeLog == w.writeLog
    requires w'.readLog == w.readLog + {Read(k, s.id, s.role, s.next, pkt)}
    requires forall p :: p in w'.net ==> p in w.net || p == Sealed(s.id, s.role, s.next, pkt)
    ensures Inv(w')
  {
    hide StatesOk, LogsOk;
    SessionAdvances(w, w', k, ip, s, s.(next := s.next + 1));
    SealKeepsReads(w, w', k, ip, s, pkt);
    SealKeepsWrites(w, w', k, ip, s, pkt);
    LogsOkParts(w');
  }

  lemma LogsOkParts(w: World)
    requires NetOk(w) && WritesOk(w) && WritesDistinct(w) && WrittenAccepted(w)
    requires ReadsOk(w) && ReadsBelow(w) && ReadsUnique(w)
    ensures LogsOk(w)
  {
    hide NetOk, WritesOk, WritesDistinct, WrittenAccepted, ReadsOk, ReadsBelow, ReadsUnique;
  }

  lemma SealKeepsReads(w: World, w': World, k: Key, ip: Ip, s: Live, pkt: Bytes)
    requires Inv(w)
    requires LiveAt(w, k, ip) == Some(s) && s.next < 0xFFFF_FFFF_FFFF_FFFF
    requires EntryChanged(w, w', k, ip, PeerState(Some(s.(next := s.next + 1)), PendingAt(w, k, ip)))
    requires w'.born == w.born
    requires w'.readLog == w.readLog + {Read(k, s.id, s.role, s.next, pkt)}
    ensures ReadsOk(w') && ReadsBelow(w') && ReadsUnique(w')
  {
    hide PendingOk, PendingUnique, BornOk, NetOk, WritesOk, WritesDistinct, WrittenAccepted;
    assert Sends(LiveAt(w, k, ip), Read(k, s.id, s.role, s.next, pkt));
  }

  lemma SealKeepsWrites(w: World, w': World, k: Key, ip: Ip, s: Live, pkt: Bytes)
    requires Inv(w)
    requires LiveAt(w, k, ip) == Some(s) && s.next < 0xFFFF_FFFF_FFFF_FFFF
    requires EntryChanged(w, w', k, ip, PeerState(Some(s.(next := s.next + 1)), PendingAt(w, k, ip)))
    requires w'.used == w.used && w'.born == w.born && w'.writeLog == w.writeLog
    requires w'.readLog == w.readLog + {Read(k, s.id, s.role, s.next, pkt)}
    requires forall p :: p in w'.net ==> p in w.net || p == Sealed(s.id, s.role, s.next, pkt)
    ensures NetOk(w') && WritesOk(w') && WritesDistinct(w') && WrittenAccepted(w')
  {
    hide PendingOk, PendingUnique, BornOk, ReadsOk, ReadsBelow, ReadsUnique;
    forall j, a, key ensures Checked(w, j, a, key) ==> Checked(w', j, a, key) {
      if Checked(w, j, a, key) { CheckedKept(w, w', j, a, key); }
    }
  }

  /** A sealed packet from the network opens and is written. */
  lemma OpenKeeps(w: World, w': World, k: Key, ip: Ip, s: Live, p: Payload)
    requires Inv(w)
    requires LiveAt(w, k, ip) == Some(s) && Opens(s, p) && p in w.net
    requires EntryChanged(w, w', k, ip,
                          PeerState(Some(s.(accepted := s.accepted + {p.counter})), PendingAt(w, k, ip)))
    requires w'.used == w.used && w'.born == w.born && w'.readLog == w.readLog && w'.net == w.net
    requires w'.writeLog == w.writeLog + [Write(k, ip, p.id, p.sender, p.counter, p.plaintext)]
    ensures Inv(w')
  {
    hide StatesOk, LogsOk;
    SessionAdvances(w, w', k, ip, s, s.(accepted := s.accepted + {p.counter}));
    OpenKeepsReads(w, w', k, ip, s, p);
    OpenKeepsWrites(w, w', k, ip, s, p);
    LogsOkParts(w');
  }

  lemma OpenKeepsReads(w: World, w': World, k: Key, ip: Ip, s: Live, p: Payload)
    requires Inv(w)
    requires LiveAt(w, k, ip) == Some(s) && p.Sealed?
    requires EntryChanged(w, w', k, ip,
                          PeerState(Some(s.(accepted := s.accepted + {p.counter})), PendingAt(w, k, ip)))
    requires w'.born == w.born && w'.readLog == w.readLog && w'.net == w.net
    ensures ReadsOk(w') && ReadsBelow(w') && ReadsUnique(w') && NetOk(w')
  {
    hide PendingOk, PendingUnique, BornOk, WritesOk, WritesDistinct, WrittenAccepted;
  }

  lemma OpenKeepsWrites(w: World, w': World, k: Key, ip: Ip, s: Live, p: Payload)
    requires Inv(w)
    requires LiveAt(w, k, ip) == Some(s) && Opens(s, p) && p in w.net
    requires EntryChanged(w, w', k, ip,
                          PeerState(Some(s.(accepted := s.accepted + {p.counter})), PendingAt(w, k, ip)))
    requires w'.born == w.born && w'.readLog == w.readLog && w'.net == w.net
    requires w'.writeLog == w.writeLog + [Write(k, ip, p.id, p.sender, p.counter, p.plaintext)]
    ensures WritesOk(w') && WritesDistinct(w') && WrittenAccepted(w')
  {
    hide PendingOk, PendingUnique, BornOk, ReadsOk, ReadsBelow, ReadsUnique;
    forall j, a, key ensures Checked(w, j, a, key) ==> Checked(w', j, a, key) {
      if Checked(w, j, a, key) { CheckedKept(w, w', j, a, key); }
    }
    var x := Write(k, ip, p.id, p.sender, p.counter, p.plaintext);
    assert p.sender.Other().Other() == p.sender;
    assert Receives(LiveAt(w, k, ip), x);
  }

  /** A handshake completes at this end. */
  lemma BirthKeeps(w: World, w': World, k: Key, ip: Ip, id: SessionId, role: Role)
    requires Inv(w)
    requires EntryChanged(w, w', k, ip, PeerState(Some(NewLive(id, role)), None))
    requires (id, role) !in w.born
    requires Party(id, role) == k && Checked(w, k, ip, Party(id, role.Other()))
    requires role.Initiates? ==> PendingAt(w, k, ip) == Some(id.init)
    requires forall e :: e in w.used ==> e in w'.used
    requires if role.Initiates? then id.init.eph in w'.used else id.respEph in w'.used
    requires w'.born == w.born + {(id, role)}
    requires forall p :: p in w'.net && p.Sealed? ==> p in w.net
    requires w'.readLog == w.readLog && w'.writeLog == w.writeLog
    ensures Inv(w')
  {
    hide Inv;
    BirthKeepsStates(w, w', k, ip, id, role);
    BirthKeepsLogs(w, w', k, ip, id, role);
    InvParts(w');
  }

  lemma BirthKeepsStates(w: World, w': World, k: Key, ip: Ip, id: SessionId, role: Role)
    requires Inv(w)
    requires EntryChanged(w, w', k, ip, PeerState(Some(NewLive(id, role)), None))
    requires (id, role) !in w.born
    requires Party(id, role) == k && Checked(w, k, ip, Party(id, role.Other()))
    requires role.Initiates? ==> PendingAt(w, k, ip) == Some(id.init)
    requires forall e :: e in w.used ==> e in w'.used
    requires if role.Initiates? then id.init.eph in w'.used else id.respEph in w'.used
    requires w'.born == w.born + {(id, role)}
    requires forall p :: p in w'.net && p.Sealed? ==> p in w.net
    requires w'.readLog == w.readLog && w'.writeLog == w.writeLog
    ensures StatesOk(w')
  {
    hide LogsOk;
    forall j, a, key ensures Checked(w, j, a, key) ==> Checked(w', j, a, key) {
      if Checked(w, j, a, key) { CheckedKept(w, w', j, a, key); }
    }
    assert NewLive(id, role).accepted == {};
    assert role.Other().Other() == role;
  }

  lemma BirthKeepsLogs(w: World, w': World, k: Key, ip: Ip, id: SessionId, role: Role)
    requires Inv(w)
    requires EntryChanged(w, w', k, ip, PeerState(Some(NewLive(id, role)), None))
    requires (id, role) !in w.born
    requires Party(id, role) == k && Checked(w, k, ip, Party(id, role.Other()))
    requires role.Initiates? ==> PendingAt(w, k, ip) == Some(id.init)
    requires forall e :: e in w.used ==> e in w'.used
    requires if role.Initiates? then id.init.eph in w'.used else id.respEph in w'.used
    requires w'.born == w.born + {(id, role)}
    requires forall p :: p in w'.net && p.Sealed? ==> p in w.net
    requires w'.readLog == w.readLog && w'.writeLog == w.writeLog
    ensures LogsOk(w')
  {
    hide PendingUnique, LiveUnique, PendingOk;
    forall j, a, key ensures Checked(w, j, a, key) ==> Checked(w', j, a, key) {
      if Checked(w, j, a, key) { CheckedKept(w, w', j, a, key); }
    }
    assert NewLive(id, role).accepted == {};
    assert role.Other().Other() == role;
  }

  /** The entry is only touched, or its pending handshake is given up. */
  lemma TouchKeeps(w: World, w': World, k: Key, ip: Ip, pending: Option<Init>)
    requires Inv(w)
    requires EntryChanged(w, w', k, ip, PeerState(LiveAt(w, k, ip), pending))
    requires pending == None || pending == PendingAt(w, k, ip)
    requires forall e :: e in w.used ==> e in w'.used
    requires w'.born == w.born && w'.net == w.net
    requires w'.readLog == w.readLog && w'.writeLog == w.writeLog
    ensures Inv(w')
  {
    forall j, a, key ensures Checked(w, j, a, key) ==> Checked(w', j, a, key) {
      if Checked(w, j, a, key) { CheckedKept(w, w', j, a, key); }
    }
  }

  lemma InjectKeeps(w: World, payload: Payload)
    requires Inv(w) && Forgeable(w, payload)
    ensures Inv(w.(net := w.net + {payload}))
  {
    var w' := w.(net := w.net + {payload});
    assert forall j, a :: LiveAt(w', j, a) == LiveAt(w, j, a) && PendingAt(w', j, a) == PendingAt(w, j, a);
    assert forall j, a, key :: Checked(w', j, a, key) == Checked(w, j, a, key);
  }

  lemma RestartKeeps(w: World, k: Key)
    requires Inv(w) && k in w.nodes
    ensures Inv(w.(nodes := w.nodes[k := w.nodes[k].(table := map[], failed := None)]))
  {
    var w' := w.(nodes := w.nodes[k := w.nodes[k].(table := map[], failed := None)]);
    assert forall j, a :: LiveAt(w', j, a) == if j == k then None else LiveAt(w, j, a);
    assert forall j, a :: PendingAt(w', j, a) == if j == k then None else PendingAt(w, j, a);
    forall j, a, key ensures Checked(w, j, a, key) ==> Checked(w', j, a, key) {
      if Checked(w, j, a, key) { CheckedKept(w, w', j, a, key); }
    }
  }

  lemma NewPeersKeeps(w: World, k: Key, peers: Peers)
    requires Inv(w) && k in w.nodes
    ensures Inv(w.(nodes := w.nodes[k := w.nodes[k].(tables := w.nodes[k].tables + [peers])]))
  {
    var w' := w.(nodes := w.nodes[k := w.nodes[k].(tables := w.nodes[k].tables + [peers])]);
    assert forall j, a :: LiveAt(w', j, a) == LiveAt(w, j, a) && PendingAt(w', j, a) == PendingAt(w, j, a);
    forall j, a, key ensures Checked(w, j, a, key) ==> Checked(w', j, a, key) {
      if Checked(w, j, a, key) {
        var v :| 0 <= v < |w.nodes[j].tables| && a in w.nodes[j].tables[v] && w.nodes[j].tables[v][a] == key;
        assert w'.nodes[j].tables[v] == w.nodes[j].tables[v];
      }
    }
  }

  // ---- Each step keeps the invariant ---------------------------------------

  lemma CommitChanges(w: World, k: Key, ip: Ip, st: PeerState, frames: seq<Frame>)
    requires k in w.nodes
    ensures EntryChanged(w, Commit(w, k, Effect(w.nodes[k].table[ip := st], frames)), k, ip, st)
  {
  }

  lemma TunReadKeeps(w: World, k: Key, version: nat, ip: Ip, pkt: Bytes, due: bool, eph: Option<Eph>)
    requires Inv(w) && Enabled(w, ReadTun(k, version, ip, pkt, due, eph))
    ensures Inv(ApplyTunRead(w, k, version, ip, pkt, due, eph))
  {
    hide Inv, Checked;
    if LiveAt(w, k, ip).Some? {
      TunReadSeals(w, k, version, ip, pkt, due, eph);
    } else {
      TunReadBegins(w, k, version, ip, pkt, due, eph);
    }
  }

  lemma TunReadSeals(w: World, k: Key, version: nat, ip: Ip, pkt: Bytes, due: bool, eph: Option<Eph>)
    requires Inv(w) && Enabled(w, ReadTun(k, version, ip, pkt, due, eph))
    requires LiveAt(w, k, ip).Some?
    ensures Inv(ApplyTunRead(w, k, version, ip, pkt, due, eph))
  {
    hide Inv, Checked;
    var n := w.nodes[k];
    var st := Entry(n.table, ip);
    var s := st.session.value;
    var sealed := Sealed(s.id, s.role, s.next, pkt);
    CommitChanges(w, k, ip, st.(session := Some(s.(next := s.next + 1))), NewFrame(Data, n.ip, sealed));
    SpendKeeps(w, ApplyTunRead(w, k, version, ip, pkt, due, eph), eph, k, ip, s, pkt);
  }

  lemma TunReadBegins(w: World, k: Key, version: nat, ip: Ip, pkt: Bytes, due: bool, eph: Option<Eph>)
    requires Inv(w) && Enabled(w, ReadTun(k, version, ip, pkt, due, eph))
    requires LiveAt(w, k, ip) == None
    ensures Inv(ApplyTunRead(w, k, version, ip, pkt, due, eph))
  {
    hide Inv, Checked;
    var n := w.nodes[k];
    var st := Entry(n.table, ip);
    if (st.pending == None || due) && eph.Some? {
      HandshakeKeeps(w, k, version, ip, eph.value);
    } else {
      TouchStep(w, k, ip, eph);
    }
  }

  /** Starting a handshake under a snapshot of the peer table. */
  lemma HandshakeKeeps(w: World, k: Key, version: nat, ip: Ip, eph: Eph)
    requires Inv(w) && k in w.nodes && eph !in w.used
    requires version < |w.nodes[k].tables| && ip in w.nodes[k].tables[version]
    ensures var n := w.nodes[k];
            var init := Init(eph, k, n.tables[version][ip]);
            Inv(Spend(Commit(w, k, Handshake(n.table, ip, n.ip, init)), Some(eph)))
  {
    hide Inv, Checked;
    var n := w.nodes[k];
    var init := Init(eph, k, n.tables[version][ip]);
    CommitChanges(w, k, ip, PeerState(None, Some(init)), [Frame(HandshakeInit, n.ip, Hello(init))]);
    CheckedNow(w, k, version, ip);
    BeginKeeps(w, Spend(Commit(w, k, Handshake(n.table, ip, n.ip, init)), Some(eph)), k, ip, init);
  }

  /** Creating the default entry, nothing else. */
  lemma TouchStep(w: World, k: Key, ip: Ip, eph: Option<Eph>)
    requires Inv(w) && k in w.nodes
    ensures var t := w.nodes[k].table;
            Inv(Spend(Commit(w, k, Effect(t[ip := Entry(t, ip)], [])), eph))
  {
    hide Inv, Checked;
    var t := w.nodes[k].table;
    CommitChanges(w, k, ip, Entry(t, ip), []);
    assert Payloads([]) == {};
    TouchKeeps(w, Spend(Commit(w, k, Effect(t[ip := Entry(t, ip)], [])), eph), k, ip, Entry(t, ip).pending);
  }

  /** Sealing does not use the ephemeral it was offered; spending it changes nothing else. */
  lemma SpendKeeps(w: World, w': World, eph: Option<Eph>, k: Key, ip: Ip, s: Live, pkt: Bytes)
    requires Inv(w)
    requires LiveAt(w, k, ip) == Some(s) && s.next < 0xFFFF_FFFF_FFFF_FFFF
    requires EntryChanged(w, w', k, ip, PeerState(Some(s.(next := s.next + 1)), PendingAt(w, k, ip)))
    requires w'.used == (if eph.Some? then w.used + {eph.value} else w.used)
    requires w'.born == w.born && w'.writeLog == w.writeLog
    requires w'.readLog == w.readLog + {Read(k, s.id, s.role, s.next, pkt)}
    requires forall p :: p in w'.net ==> p in w.net || p == Sealed(s.id, s.role, s.next, pkt)
    ensures Inv(w')
  {
    hide Inv;
    var v := w.(used := w'.used);
    MoreUsed(w, v);
    assert LiveAt(v, k, ip) == LiveAt(w, k, ip);
    forall j, a
      ensures LiveAt(v, j, a) == LiveAt(w, j, a) && PendingAt(v, j, a) == PendingAt(w, j, a)
    {
    }
    SealKeeps(v, w', k, ip, s, pkt);
  }

  lemma MoreUsed(w: World, v: World)
    requires Inv(w)
    requires v == w.(used := v.used) && w.used <= v.used
    ensures Inv(v)
  {
    assert forall j, a :: LiveAt(v, j, a) == LiveAt(w, j, a) && PendingAt(v, j, a) == PendingAt(w, j, a);
    assert forall j, a, key :: Checked(v, j, a, key) == Checked(w, j, a, key);
  }

  lemma CheckedNow(w: World, k: Key, version: nat, ip: Ip)
    requires k in w.nodes && version < |w.nodes[k].tables| && ip in w.nodes[k].tables[version]
    ensures Checked(w, k, ip, w.nodes[k].tables[version][ip])
  {
  }

  lemma ArriveInitKeeps(w: World, k: Key, version: nat, src: Ip, payload: Payload, eph: Option<Eph>)
    requires Inv(w) && Enabled(w, ArriveInit(k, version, src, payload, eph))
    ensures Inv(ApplyArriveInit(w, k, version, src, payload, eph))
  {
    hide Inv, Checked;
    var n := w.nodes[k];
    var w' := ApplyArriveInit(w, k, version, src, payload, eph);
    if eph.Some? {
      var accepted := AcceptHandshake(k, n.tables[version], src, payload, eph.value);
      if accepted.Some? {
        var id := accepted.value;
        CommitChanges(w, k, src, PeerState(Some(NewLive(id, Responds)), None), [Frame(HandshakeResp, n.ip, Reply(id))]);
        CheckedNow(w, k, version, src);
        FreshNotBorn(w, id);
        BirthKeeps(w, w', k, src, id, Responds);
      } else {
        NothingHappened(w, w', n.table, k);
      }
    } else {
      NothingHappened(w, w', n.table, k);
    }
  }

  lemma FreshNotBorn(w: World, id: SessionId)
    requires Inv(w) && id.respEph !in w.used
    ensures (id, Responds) !in w.born
  {
    var b := (id, Responds);
    assert b in w.born ==> b.0.respEph in w.used;
  }

  lemma NothingHappened(w: World, w': World, t: Table, k: Key)
    requires Inv(w)
    requires k in w.nodes && t == w.nodes[k].table
    requires w' == Commit(w, k, Effect(t, [])).(used := w'.used) && w.used <= w'.used
    ensures Inv(w')
  {
    hide Inv;
    assert Payloads([]) == {};
    assert w.nodes[k := w.nodes[k].(table := t)] == w.nodes;
    MoreUsed(w, w');
  }

  lemma ArriveRespKeeps(w: World, k: Key, src: Ip, payload: Payload)
    requires Inv(w) && Enabled(w, ArriveResp(k, src, payload))
    ensures Inv(ApplyArriveResp(w, k, src, payload))
  {
    hide Inv, Checked;
    var n := w.nodes[k];
    var st := Entry(n.table, src);
    var w' := ApplyArriveResp(w, k, src, payload);
    assert st.session == LiveAt(w, k, src) && st.pending == PendingAt(w, k, src);
    assert Payloads([]) == {};
    match st.pending {
      case None =>
        CommitChanges(w, k, src, st, []);
        TouchKeeps(w, w', k, src, None);
      case Some(init) =>
        match FinishHandshake(init, payload) {
          case None =>
            CommitChanges(w, k, src, st.(pending := None), []);
            TouchKeeps(w, w', k, src, None);
          case Some(id) => GoodAnswerKeeps(w, k, src, payload, init, id);
        }
    }
  }

  lemma GoodAnswerKeeps(w: World, k: Key, src: Ip, payload: Payload, init: Init, id: SessionId)
    requires Inv(w) && Enabled(w, ArriveResp(k, src, payload))
    requires PendingAt(w, k, src) == Some(init) && FinishHandshake(init, payload) == Some(id)
    ensures Inv(ApplyArriveResp(w, k, src, payload))
  {
    hide Inv, Checked;
    assert Payloads([]) == {};
    CommitChanges(w, k, src, PeerState(Some(NewLive(id, Initiates)), None), []);
    PendingFacts(w, k, src, init, id);
    BirthKeeps(w, ApplyArriveResp(w, k, src, payload), k, src, id, Initiates);
  }

  lemma PendingFacts(w: World, k: Key, ip: Ip, init: Init, id: SessionId)
    requires Inv(w) && PendingAt(w, k, ip) == Some(init) && id.init == init
    ensures init.initiator == k && init.eph in w.used && Checked(w, k, ip, init.responder)
    ensures (id, Initiates) !in w.born
  {
    var b := (id, Initiates);
    assert b in w.born && b.1 == Initiates ==> b.0.init != init;
  }

  lemma ArriveDataKeeps(w: World, k: Key, version: nat, src: Ip, payload: Payload)
    requires Inv(w) && Enabled(w, ArriveData(k, version, src, payload))
    ensures Inv(ApplyArriveData(w, k, version, src, payload))
  {
    hide Inv, Checked, Opens;
    var n := w.nodes[k];
    var w' := ApplyArriveData(w, k, version, src, payload);
    if src in n.table && n.table[src].session.Some? && Opens(n.table[src].session.value, payload) {
      var st := n.table[src];
      var s := st.session.value;
      OpensSealed(s, payload);
      CommitChanges(w, k, src, st.(session := Some(s.(accepted := s.accepted + {payload.counter}))), []);
      assert Payloads([]) == {};
      OpenKeeps(w, w', k, src, s, payload);
    } else {
      FailedIrrelevant(w, k, Some((src, version)));
    }
  }

  lemma OpensSealed(s: Live, p: Payload)
    requires Opens(s, p)
    ensures p.Sealed?
  {
  }

  /** Where the pump stands between two scopes plays no part in the invariant. */
  lemma FailedIrrelevant(w: World, k: Key, failed: Option<(Ip, nat)>)
    requires Inv(w) && k in w.nodes
    ensures Inv(SetFailed(w, k, failed))
  {
    var v := SetFailed(w, k, failed);
    assert forall j, a :: LiveAt(v, j, a) == LiveAt(w, j, a) && PendingAt(v, j, a) == PendingAt(w, j, a);
    assert forall j, a, key :: Checked(v, j, a, key) == Checked(w, j, a, key);
  }

  lemma RecoverKeeps(w: World, k: Key, due: bool, eph: Option<Eph>)
    requires Inv(w) && Enabled(w, Recover(k, due, eph))
    ensures Inv(ApplyRecover(w, k, due, eph))
  {
    hide Inv, Checked;
    var n := w.nodes[k];
    var (src, version) := n.failed.value;
    var peers := n.tables[version];
    var w' := Spend(Commit(w, k, RecoverStep(n.table, k, n.ip, peers, src, due, eph)), eph);
    var st := Entry(n.table, src);
    if src !in peers || eph == None {
      NothingHappened(w, w', n.table, k);
    } else if st.pending == None || due {
      HandshakeKeeps(w, k, version, src, eph.value);
    } else {
      TouchStep(w, k, src, eph);
    }
    FailedIrrelevant(w', k, None);
  }

  lemma StepKeeps(w: World, s: Step)
    requires Inv(w) && Enabled(w, s)
    ensures Inv(Apply(w, s))
  {
    hide Inv;
    match s
    case ReadTun(k, version, ip, pkt, due, eph) => TunReadKeeps(w, k, version, ip, pkt, due, eph);
    case ArriveInit(k, version, src, payload, eph) => ArriveInitKeeps(w, k, version, src, payload, eph);
    case ArriveResp(k, src, payload) => ArriveRespKeeps(w, k, src, payload);
    case ArriveData(k, version, src, payload) => ArriveDataKeeps(w, k, version, src, payload);
    case Recover(k, due, eph) => RecoverKeeps(w, k, due, eph);
    case NewPeers(k, peers) => NewPeersKeeps(w, k, peers);
    case Restart(k) => RestartKeeps(w, k);
    case Inject(payload) => InjectKeeps(w, payload);
  }

  lemma {:induction false} RunKeeps(w: World, steps: seq<Step>, end: World)
    requires Inv(w) && RunsTo(w, steps, end)
    ensures Inv(end)
    decreases |steps|
  {
    hide Inv, Apply;
    if steps != [] {
      StepKeeps(w, steps[0]);
      RunKeeps(Apply(w, steps[0]), steps[1..], end);
    }
  }

  // ---- What every run guarantees -------------------------------------------

  /** A written packet: the sending end's key is one the writer's peer table gave for the address it
      wrote for, the receiving end is the writer, and a node with that key had read this packet from
      its TUN for this session and counter. */
  ghost predicate Justified(w: World, x: Write) {
    && Checked(w, x.writer, x.ip, Party(x.id, x.role))
    && Party(x.id, x.role.Other()) == x.writer
    && (Party(x.id, x.role) in w.nodes ==> Read(Party(x.id, x.role), x.id, x.role, x.counter, x.pkt) in w.readLog)
  }

  lemma EveryWriteIsJustifiedOnce(w: World, steps: seq<Step>, end: World)
    requires Initial(w) && RunsTo(w, steps, end)
    ensures forall i :: 0 <= i < |end.writeLog| ==> Justified(end, end.writeLog[i])
    ensures forall i, j :: 0 <= i < j < |end.writeLog| ==> !SamePacket(end.writeLog[i], end.writeLog[j])
    ensures ReadsUnique(end)
  {
    InitialInv(w);
    RunKeeps(w, steps, end);
    forall i | 0 <= i < |end.writeLog|
      ensures Justified(end, end.writeLog[i])
    {
      var x := end.writeLog[i];
      assert x.role == Initiates || x.role == Responds;
    }
  }

  lemma LiveExcludesPending(w: World, steps: seq<Step>, end: World, k: Key, ip: Ip)
    requires Initial(w) && RunsTo(w, steps, end)
    ensures LiveAt(end, k, ip) == None || PendingAt(end, k, ip) == None
  {
    InitialInv(w);
    RunKeeps(w, steps, end);
  }

  // ---- Recovery in a run ---------------------------------------------------

  /** The two nodes know each other under the addresses they use. */
  ghost predicate KnowEachOther(w: World, a: Key, verA: nat, b: Key, verB: nat) {
    && a in w.nodes && b in w.nodes && a != b
    && verA < |w.nodes[a].tables| && verB < |w.nodes[b].tables|
    && w.nodes[b].ip in w.nodes[a].tables[verA] && w.nodes[a].tables[verA][w.nodes[b].ip] == b
    && w.nodes[a].ip in w.nodes[b].tables[verB] && w.nodes[b].tables[verB][w.nodes[a].ip] == a
  }

  /** b stands between the two lock scopes of a frame from a that did not open, and may recover. */
  ghost predicate AboutToRecover(w: World, a: Key, b: Key, verB: nat, due: bool, ephB: Eph) {
    && a in w.nodes && b in w.nodes && verB < |w.nodes[b].tables|
    && w.nodes[b].failed == Some((w.nodes[a].ip, verB))
    && Recovers(w.nodes[b].table, w.nodes[a].ip, w.nodes[b].tables[verB], due, Some(ephB))
  }

  /** The handshake of the recovery, delivered both ways. */
  function RecoverySteps(w: World, a: Key, verA: nat, b: Key, due: bool, ephB: Eph, ephA: Eph): seq<Step>
    requires a in w.nodes && b in w.nodes
  {
    var init := Init(ephB, b, a);
    [Recover(b, due, Some(ephB)),
     ArriveInit(a, verA, w.nodes[b].ip, Hello(init), Some(ephA)),
     ArriveResp(b, w.nodes[a].ip, Reply(SessionId(init, ephA)))]
  }

  /** Both ends are live on the fresh session, and nothing else about the two nodes but their tables
      and the frame being handled has changed. */
  ghost predicate JustMirrored(w: World, end: World, a: Key, b: Key, id: SessionId) {
    && end.nodes.Keys == w.nodes.Keys && a in w.nodes && b in w.nodes
    && (forall k :: k in w.nodes ==> end.nodes[k].ip == w.nodes[k].ip && end.nodes[k].tables == w.nodes[k].tables)
    && end.nodes[b].failed == None && end.writeLog == w.writeLog
    && LiveAt(end, a, w.nodes[b].ip) == Some(NewLive(id, Responds))
    && LiveAt(end, b, w.nodes[a].ip) == Some(NewLive(id, Initiates))
  }

  lemma RecoveryStepsMirror(w: World, a: Key, verA: nat, b: Key, verB: nat, due: bool, ephB: Eph, ephA: Eph)
    returns (end: World)
    requires KnowEachOther(w, a, verA, b, verB) && AboutToRecover(w, a, b, verB, due, ephB)
    requires w.nodes[a].failed == None && ephA != ephB && ephA !in w.used && ephB !in w.used
    ensures RunsTo(w, RecoverySteps(w, a, verA, b, due, ephB, ephA), end)
    ensures JustMirrored(w, end, a, b, SessionId(Init(ephB, b, a), ephA))
  {
    hide Enabled, Apply;
    var init := Init(ephB, b, a);
    var w1 := RecoverHere(w, a, b, verB, due, ephB);
    var w2 := AcceptHere(w1, a, verA, b, init, ephA);
    end := FinishHere(w2, b, w.nodes[a].ip, init, ephA);
    RunOne(w2, ArriveResp(b, w.nodes[a].ip, Reply(SessionId(init, ephA))));
    RunOne(w1, ArriveInit(a, verA, w.nodes[b].ip, Hello(init), Some(ephA)));
    RunOne(w, Recover(b, due, Some(ephB)));
    var steps := RecoverySteps(w, a, verA, b, due, ephB, ephA);
    assert steps == [steps[0]] + ([steps[1]] + [steps[2]]);
    RunsOn(w1, [steps[1]], w2, [steps[2]], end);
    RunsOn(w, [steps[0]], w1, [steps[1]] + [steps[2]], end);
  }

  lemma RunOne(w: World, s: Step)
    requires Enabled(w, s)
    ensures RunsTo(w, [s], Apply(w, s))
  {
    hide Enabled, Apply;
    assert [s][1..] == [];
  }

  lemma {:induction false} RunsOn(w: World, first: seq<Step>, mid: World, second: seq<Step>, end: World)
    requires RunsTo(w, first, mid) && RunsTo(mid, second, end)
    ensures RunsTo(w, first + second, end)
    decreases |first|
  {
    hide Enabled, Apply;
    if first == [] {
      assert first + second == second;
    } else {
      assert (first + second)[1..] == first[1..] + second;
      RunsOn(Apply(w, first[0]), first[1..], mid, second, end);
    }
  }

  lemma RecoverHere(w: World, a: Key, b: Key, verB: nat, due: bool, ephB: Eph) returns (w1: World)
    requires AboutToRecover(w, a, b, verB, due, ephB) && ephB !in w.used && a != b
    requires w.nodes[b].tables[verB][w.nodes[a].ip] == a
    ensures Enabled(w, Recover(b, due, Some(ephB))) && w1 == Apply(w, Recover(b, due, Some(ephB)))
    ensures w1.nodes == w.nodes[b := w.nodes[b].(failed := None, table :=
              w.nodes[b].table[w.nodes[a].ip := PeerState(None, Some(Init(ephB, b, a)))])]
    ensures w1.net == w.net + {Hello(Init(ephB, b, a))} && w1.used == w.used + {ephB} && w1.writeLog == w.writeLog
  {
    w1 := Apply(w, Recover(b, due, Some(ephB)));
    assert Payloads([Frame(HandshakeInit, w.nodes[b].ip, Hello(Init(ephB, b, a)))]) == {Hello(Init(ephB, b, a))};
  }

  lemma AcceptHere(w: World, a: Key, verA: nat, b: Key, init: Init, ephA: Eph) returns (w1: World)
    requires a in w.nodes && b in w.nodes && a != b && w.nodes[a].failed == None && ephA !in w.used
    requires verA < |w.nodes[a].tables| && w.nodes[b].ip in w.nodes[a].tables[verA]
    requires w.nodes[a].tables[verA][w.nodes[b].ip] == b && init.initiator == b && init.responder == a
    requires Hello(init) in w.net
    ensures var step := ArriveInit(a, verA, w.nodes[b].ip, Hello(init), Some(ephA));
            Enabled(w, step) && w1 == Apply(w, step)
    ensures w1.nodes == w.nodes[a := w.nodes[a].(table :=
              w.nodes[a].table[w.nodes[b].ip := PeerState(Some(NewLive(SessionId(init, ephA), Responds)), None)])]
    ensures w1.net == w.net + {Reply(SessionId(init, ephA))} && w1.writeLog == w.writeLog
  {
    w1 := Apply(w, ArriveInit(a, verA, w.nodes[b].ip, Hello(init), Some(ephA)));
    var reply := Reply(SessionId(init, ephA));
    assert Payloads([Frame(HandshakeResp, w.nodes[a].ip, reply)]) == {reply};
  }

  lemma FinishHere(w: World, b: Key, ipA: Ip, init: Init, ephA: Eph) returns (w1: World)
    requires b in w.nodes && w.nodes[b].failed == None && Entry(w.nodes[b].table, ipA) == PeerState(None, Some(init))
    requires Reply(SessionId(init, ephA)) in w.net
    ensures var step := ArriveResp(b, ipA, Reply(SessionId(init, ephA))); Enabled(w, step) && w1 == Apply(w, step)
    ensures w1.nodes == w.nodes[b := w.nodes[b].(table :=
              w.nodes[b].table[ipA := PeerState(Some(NewLive(SessionId(init, ephA), Initiates)), None)])]
    ensures w1.writeLog == w.writeLog
  {
    w1 := Apply(w, ArriveResp(b, ipA, Reply(SessionId(init, ephA))));
  }

  /** A packet read at a and arriving at b under a fresh mirrored session is written to b's TUN. */
  lemma FirstPacketCrosses(w: World, a: Key, verA: nat, b: Key, verB: nat, id: SessionId, pkt: Bytes, due: bool)
    returns (end: World)
    requires KnowEachOther(w, a, verA, b, verB) && w.nodes[b].failed == None
    requires LiveAt(w, a, w.nodes[b].ip) == Some(NewLive(id, Responds))
    requires LiveAt(w, b, w.nodes[a].ip) == Some(NewLive(id, Initiates))
    requires |pkt| + 24 <= MAX_PAYLOAD
    ensures RunsTo(w, PacketSteps(w, a, verA, b, verB, id, pkt, due), end)
    ensures end.writeLog == w.writeLog + [Write(b, w.nodes[a].ip, id, Responds, 0, pkt)]
  {
    var steps := PacketSteps(w, a, verA, b, verB, id, pkt, due);
    var w1 := ReadHere(w, a, verA, w.nodes[b].ip, id, pkt, due);
    end := WriteHere(w1, b, verB, w.nodes[a].ip, id, pkt);
    hide Enabled, Apply;
    RunOne(w, steps[0]);
    RunOne(w1, steps[1]);
    assert steps == [steps[0]] + [steps[1]];
    RunsOn(w, [steps[0]], w1, [steps[1]], end);
  }

  function PacketSteps(w: World, a: Key, verA: nat, b: Key, verB: nat, id: SessionId, pkt: Bytes, due: bool): seq<Step>
    requires a in w.nodes && b in w.nodes
  {
    [ReadTun(a, verA, w.nodes[b].ip, pkt, due, None),
     ArriveData(b, verB, w.nodes[a].ip, Sealed(id, Responds, 0, pkt))]
  }

  lemma ReadHere(w: World, a: Key, verA: nat, ipB: Ip, id: SessionId, pkt: Bytes, due: bool) returns (w1: World)
    requires a in w.nodes && verA < |w.nodes[a].tables| && ipB in w.nodes[a].tables[verA]
    requires LiveAt(w, a, ipB) == Some(NewLive(id, Responds)) && |pkt| + 24 <= MAX_PAYLOAD
    ensures var step := ReadTun(a, verA, ipB, pkt, due, None); Enabled(w, step) && w1 == Apply(w, step)
    ensures w1.nodes.Keys == w.nodes.Keys && (forall k :: k in w.nodes && k != a ==> w1.nodes[k] == w.nodes[k])
    ensures Sealed(id, Responds, 0, pkt) in w1.net && w1.writeLog == w.writeLog
  {
    w1 := Apply(w, ReadTun(a, verA, ipB, pkt, due, None));
    var frame := Frame(Data, w.nodes[a].ip, Sealed(id, Responds, 0, pkt));
    assert frame in [frame] && frame.payload in Payloads([frame]);
  }

  lemma WriteHere(w: World, b: Key, verB: nat, ipA: Ip, id: SessionId, pkt: Bytes) returns (w1: World)
    requires b in w.nodes && w.nodes[b].failed == None && verB < |w.nodes[b].tables|
    requires LiveAt(w, b, ipA) == Some(NewLive(id, Initiates))
    requires Sealed(id, Responds, 0, pkt) in w.net
    ensures var step := ArriveData(b, verB, ipA, Sealed(id, Responds, 0, pkt)); Enabled(w, step) && w1 == Apply(w, step)
    ensures w1.writeLog == w.writeLog + [Write(b, ipA, id, Responds, 0, pkt)]
  {
    w1 := Apply(w, ArriveData(b, verB, ipA, Sealed(id, Responds, 0, pkt)));
  }

  ghost predicate OnlyReads(steps: seq<Step>) {
    forall i :: 0 <= i < |steps| ==> steps[i].ReadTun?
  }

  /** Nothing that matters to a recovery at b changed. */
  ghost predicate Undisturbed(w: World, w': World, b: Key, ipA: Ip) {
    && w'.nodes.Keys == w.nodes.Keys && w'.writeLog == w.writeLog
    && (forall k :: k in w.nodes ==>
          && w'.nodes[k].ip == w.nodes[k].ip && w'.nodes[k].tables == w.nodes[k].tables
          && w'.nodes[k].failed == w.nodes[k].failed)
    && (LiveAt(w, b, ipA).Some? && PendingAt(w, b, ipA) == None ==>
          LiveAt(w', b, ipA).Some? && PendingAt(w', b, ipA) == None)
  }

  lemma {:induction false} ReadsUndisturbing(w: World, readings: seq<Step>, end: World, b: Key, ipA: Ip)
    requires OnlyReads(readings) && RunsTo(w, readings, end)
    ensures Undisturbed(w, end, b, ipA)
    decreases |readings|
  {
    hide Enabled, Apply;
    if readings != [] {
      var s := readings[0];
      ReadUndisturbing(w, s.k, s.version, s.ip, s.pkt, s.due, s.eph, b, ipA);
      ReadsUndisturbing(Apply(w, s), readings[1..], end, b, ipA);
    }
  }

  lemma ReadUndisturbing(w: World, k: Key, version: nat, ip: Ip, pkt: Bytes, due: bool, eph: Option<Eph>,
                         b: Key, ipA: Ip)
    requires Enabled(w, ReadTun(k, version, ip, pkt, due, eph))
    ensures Undisturbed(w, Apply(w, ReadTun(k, version, ip, pkt, due, eph)), b, ipA)
  {
    hide TunStep, Payloads, Apply, ApplyTunRead;
    var n := w.nodes[k];
    var t := TunStep(n.table, k, n.ip, ip, n.tables[version][ip], pkt, due, eph).table;
    ReadChanges(w, k, version, ip, pkt, due, eph);
    if k == b && LiveAt(w, b, ipA).Some? && PendingAt(w, b, ipA) == None {
      TunStepKeepsLive(n.table, k, n.ip, ip, n.tables[version][ip], pkt, due, eph, ipA);
    }
  }

  lemma ReadChanges(w: World, k: Key, version: nat, ip: Ip, pkt: Bytes, due: bool, eph: Option<Eph>)
    requires Enabled(w, ReadTun(k, version, ip, pkt, due, eph))
    ensures var n := w.nodes[k];
            var t := TunStep(n.table, k, n.ip, ip, n.tables[version][ip], pkt, due, eph).table;
            var w' := Apply(w, ReadTun(k, version, ip, pkt, due, eph));
            w'.nodes == w.nodes[k := n.(table := t)] && w'.writeLog == w.writeLog
  {
    hide TunStep, Payloads;
  }

  lemma TunStepKeepsLive(t: Table, me: Key, myIp: Ip, ip: Ip, peerKey: Key, pkt: Bytes, due: bool, eph: Option<Eph>,
                         at: Ip)
    requires Entry(t, ip).session.Some? ==> Entry(t, ip).session.value.next < 0xFFFF_FFFF_FFFF_FFFF
    requires Entry(t, at).session.Some? && Entry(t, at).pending == None
    ensures var t' := TunStep(t, me, myIp, ip, peerKey, pkt, due, eph).table;
            Entry(t', at).session.Some? && Entry(t', at).pending == None
  {
  }

  /** In every reachable world: when a frame from a does not open at b, and any TUN reads follow, b
      recovers if it held a session for a, or has no handshake in flight, or one that is due. Delivering
      that handshake mirrors the two ends, and the next packet read at a is written at b. */
  lemma RecoveryInRuns(start: World, history: seq<Step>, w: World, a: Key, verA: nat, b: Key, verB: nat,
                       payload: Payload, readings: seq<Step>, w2: World, due: bool, ephB: Eph, ephA: Eph, pkt: Bytes)
    returns (end: World)
    requires Initial(start) && RunsTo(start, history, w)
    requires KnowEachOther(w, a, verA, b, verB)
    requires Enabled(w, ArriveData(b, verB, w.nodes[a].ip, payload))
    requires DataStep(w.nodes[b].table, w.nodes[a].ip, payload).1 == None
    requires OnlyReads(readings) && RunsTo(Apply(w, ArriveData(b, verB, w.nodes[a].ip, payload)), readings, w2)
    requires LiveAt(w, b, w.nodes[a].ip).Some? || PendingAt(w2, b, w.nodes[a].ip) == None || due
    requires w.nodes[a].failed == None && ephA != ephB && ephA !in w2.used && ephB !in w2.used
    requires |pkt| + 24 <= MAX_PAYLOAD
    ensures var id := SessionId(Init(ephB, b, a), ephA);
            && a in w2.nodes && b in w2.nodes
            && RunsTo(w, [ArriveData(b, verB, w.nodes[a].ip, payload)] + readings
                         + RecoverySteps(w2, a, verA, b, due, ephB, ephA)
                         + PacketSteps(w2, a, verA, b, verB, id, pkt, due), end)
            && end.writeLog == w.writeLog + [Write(b, w.nodes[a].ip, id, Responds, 0, pkt)]
  {
    hide RunsTo, Inv;
    var ipA := w.nodes[a].ip;
    var bad := ArriveData(b, verB, ipA, payload);
    var w1 := Apply(w, bad);
    LiveExcludesPending(start, history, w, b, ipA);
    ReadsUndisturbing(w1, readings, w2, b, ipA);
    assert AboutToRecover(w2, a, b, verB, due, ephB);
    var w3 := RecoveryStepsMirror(w2, a, verA, b, verB, due, ephB, ephA);
    var id := SessionId(Init(ephB, b, a), ephA);
    end := FirstPacketCrosses(w3, a, verA, b, verB, id, pkt, due);
    RunOne(w, bad);
    var recovery := RecoverySteps(w2, a, verA, b, due, ephB, ephA);
    var packet := PacketSteps(w2, a, verA, b, verB, id, pkt, due);
    RunsOn(w, [bad], w1, readings, w2);
    RunsOn(w, [bad] + readings, w2, recovery, w3);
    RunsOn(w, [bad] + readings + recovery, w3, packet, end);
  }
}
