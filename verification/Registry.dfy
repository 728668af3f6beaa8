/** The endpoint registry: enrolment, revocation and token rotation under the state lock, each followed by
    a save of the whole list that may fail, and start-up, which reads back the text of the file. */
module Registry {
  import opened Words
  import opened Options
  import opened JsonText
  import opened Endpoints
  import opened OverlayAddress
  import opened EndpointJson
  import opened EndpointCuts
  import opened EndpointList
  import opened EndpointIndices
  import opened Ipam

  /** What is in memory, and the text of the file. A missing file reads as no text. */
  datatype State = State(endpoints: seq<Record>, heartbeats: set<string>, disk: string)

  /** An enrolment request with the identifier, token and time drawn for it. */
  datatype Enrollment = Enrollment(
    name: string,
    publicKey: string,
    endpointAddr: string,
    allowedIps: seq<string>,
    addedBy: string,
    organization: string,
    workspace: string,
    id: string,
    token: string,
    now: u64)

  datatype Answer = Accepted(id: string, overlay: Option<nat>) | Revoked | Rotated | NotFound | SaveFailed

  /** The file as a save writes it, and the records that a load finds in a file. */
  function FileText(es: seq<Record>): string {
    SaveText(es, OverlayIndexOf)
  }

  function Stored(s: State): seq<Record> {
    LoadSpec(s.disk)
  }

  // ---- Operations ----------------------------------------------------------

  predicate Owned(e: Record, organization: string, workspace: string) {
    e.revokedAt == 0 && e.organizationId == organization && e.workspaceId == workspace
  }

  predicate SameNode(e: Record, q: Enrollment) {
    Owned(e, q.organization, q.workspace) && e.publicKey == q.publicKey
  }

  function FindNode(es: seq<Record>, q: Enrollment): (r: Option<nat>)
    ensures r.Some? ==> r.value < |es| && SameNode(es[r.value], q)
    ensures r.Some? ==> forall i :: 0 <= i < r.value ==> !SameNode(es[i], q)
    ensures r.None? ==> forall i :: 0 <= i < |es| ==> !SameNode(es[i], q)
  {
    if es == [] then None
    else if SameNode(es[0], q) then Some(0)
    else
      match FindNode(es[1..], q)
      case Some(i) => Some(i + 1)
      case None => None
  }

  predicate Named(e: Record, id: string, organization: string, workspace: string) {
    e.id == id && Owned(e, organization, workspace)
  }

  function FindActive(es: seq<Record>, id: string, organization: string, workspace: string): (r: Option<nat>)
    ensures r.Some? ==> r.value < |es| && Named(es[r.value], id, organization, workspace)
    ensures r.Some? ==> forall i :: 0 <= i < r.value ==> !Named(es[i], id, organization, workspace)
    ensures r.None? ==> forall i :: 0 <= i < |es| ==> !Named(es[i], id, organization, workspace)
  {
    if es == [] then None
    else if Named(es[0], id, organization, workspace) then Some(0)
    else
      match FindActive(es[1..], id, organization, workspace)
      case Some(i) => Some(i + 1)
      case None => None
  }

  /** The entries that are not overlay addresses. */
  function Strip(entries: seq<string>): seq<string> {
    if entries == [] then []
    else (if ParseEntry(entries[0]).Some? then [] else [entries[0]]) + Strip(entries[1..])
  }

  function Normalized(entries: seq<string>, used: set<nat>): seq<string> {
    match ChooseForEnrollment(OverlayIndexOf(entries), used)
    case Some(x) => [Cidr(x)] + Strip(entries)
    case None => Strip(entries)
  }

  function NewRecord(es: seq<Record>, q: Enrollment): Record {
    Record(q.id, q.name, q.publicKey, q.endpointAddr, Normalized(q.allowedIps, UsedIndices(es)), q.addedBy, q.now,
           q.organization, q.workspace, 0, 0, q.token)
  }

  function EnrollStep(s: State, q: Enrollment, saved: bool): (State, Answer) {
    match FindNode(s.endpoints, q)
    case Some(i) => (s, Accepted(s.endpoints[i].id, OverlayIndexOf(s.endpoints[i].allowedIps)))
    case None =>
      var e := NewRecord(s.endpoints, q);
      var es := s.endpoints + [e];
      if saved then (State(es, s.heartbeats, FileText(es)), Accepted(e.id, OverlayIndexOf(e.allowedIps)))
      else (s, SaveFailed)
  }

  /** A change in memory is not rolled back when its save fails. */
  function Rewritten(s: State, es: seq<Record>, saved: bool): State {
    s.(endpoints := es, disk := if saved then FileText(es) else s.disk)
  }

  function RevokeStep(s: State, id: string, organization: string, workspace: string, now: u64, saved: bool)
    : (State, Answer)
  {
    match FindActive(s.endpoints, id, organization, workspace)
    case None => (s, NotFound)
    case Some(i) =>
      var es := s.endpoints[i := s.endpoints[i].(revokedAt := now)];
      (Rewritten(s, es, saved).(heartbeats := s.heartbeats - {id}), if saved then Revoked else SaveFailed)
  }

  function RotateStep(s: State, id: string, organization: string, workspace: string, now: u64, token: string,
                      saved: bool): (State, Answer)
  {
    match FindActive(s.endpoints, id, organization, workspace)
    case None => (s, NotFound)
    case Some(i) =>
      var es := s.endpoints[i := s.endpoints[i].(nodeToken := token, tokenRotatedAt := now)];
      (Rewritten(s, es, saved), if saved then Rotated else SaveFailed)
  }

  /** Tokens for endpoints that have none, drawn per position. */
  function WithTokens(es: seq<Record>, draw: nat -> string): (r: seq<Record>)
    ensures |r| == |es|
    ensures forall i :: 0 <= i < |es| ==>
      r[i] == if es[i].nodeToken == "" then es[i].(nodeToken := draw(i)) else es[i]
  {
    seq(|es|, i requires 0 <= i < |es| =>
      if es[i].nodeToken == "" then es[i].(nodeToken := draw(i)) else es[i])
  }

  function Filled(text: string): seq<Record> {
    Backfill(LoadSpec(text), UsedIndices(LoadSpec(text)))
  }

  /** Start-up: load, backfill and save, then tokens and save. Each save may fail. */
  function RestartStep(text: string, draw: nat -> string, savedIps: bool, savedTokens: bool): State {
    var filled := Filled(text);
    var disk := if filled != LoadSpec(text) && savedIps then FileText(filled) else text;
    var tokened := WithTokens(filled, draw);
    var lacking := exists i :: 0 <= i < |filled| && filled[i].nodeToken == "";
    State(tokened, {}, if lacking && savedTokens then FileText(tokened) else disk)
  }

  class Registry {
    var endpoints: seq<Record>
    var heartbeats: set<string>
    var disk: string

    function View(): State
      reads this
    {
      State(endpoints, heartbeats, disk)
    }

    method Save(saved: bool)
      modifies this`disk
      ensures disk == if saved then FileText(endpoints) else old(disk)
    {
      if saved {
        disk := FileText(endpoints);
      }
    }

    constructor (text: string, draw: nat -> string, savedIps: bool, savedTokens: bool)
      ensures View() == RestartStep(text, draw, savedIps, savedTokens)
    {
      endpoints, heartbeats, disk := [], {}, text;
      new;
      hide Backfill, UsedIndices, Changes, LoadSpec, FileText, WithTokens;
      var stored := ParseArray(text);
      var list := new Record[|stored|](i requires 0 <= i < |stored| => stored[i]);
      assert list[..] == stored;
      var changed := AssignMissing(list);
      endpoints := list[..];
      ChangesZero(stored, endpoints);
      if changed > 0 {
        Save(savedIps);
      }
      var tokens := AssignTokens(draw);
      if tokens > 0 {
        Save(savedTokens);
      }
    }

    method AssignTokens(draw: nat -> string) returns (tokens: nat)
      modifies this`endpoints
      ensures endpoints == WithTokens(old(endpoints), draw)
      ensures tokens > 0 <==> exists i :: 0 <= i < |old(endpoints)| && old(endpoints)[i].nodeToken == ""
    {
      ghost var was := endpoints;
      tokens := 0;
      for i := 0 to |endpoints|
        invariant |endpoints| == |was|
        invariant forall k :: 0 <= k < i ==> endpoints[k] == WithTokens(was, draw)[k]
        invariant forall k :: i <= k < |was| ==> endpoints[k] == was[k]
        invariant tokens > 0 <==> exists k :: 0 <= k < i && was[k].nodeToken == ""
      {
        if endpoints[i].nodeToken == "" {
          endpoints := endpoints[i := endpoints[i].(nodeToken := draw(i))];
          tokens := tokens + 1;
        }
      }
    }

    method Enroll(q: Enrollment, saved: bool) returns (a: Answer)
      modifies this
      ensures (View(), a) == EnrollStep(old(View()), q, saved)
    {
      hide UsedIndices, Strip, FileText;
      match FindNode(endpoints, q) {
        case Some(i) =>
          return Accepted(endpoints[i].id, OverlayIndexOf(endpoints[i].allowedIps));
        case None =>
      }
      var used := UsedIndices(endpoints);
      var supplied := OverlayIndexOf(q.allowedIps);
      var allowed := Strip(q.allowedIps);
      match ChooseForEnrollment(supplied, used) {
        case Some(x) => allowed := [Cidr(x)] + allowed;
        case None =>
      }
      var e := Record(q.id, q.name, q.publicKey, q.endpointAddr, allowed, q.addedBy, q.now, q.organization,
                      q.workspace, 0, 0, q.token);
      endpoints := endpoints + [e];
      Save(saved);
      if !saved {
        endpoints := endpoints[..|endpoints| - 1];
        return SaveFailed;
      }
      a := Accepted(e.id, OverlayIndexOf(e.allowedIps));
    }

    method Revoke(id: string, organization: string, workspace: string, now: u64, saved: bool) returns (a: Answer)
      modifies this
      ensures (View(), a) == RevokeStep(old(View()), id, organization, workspace, now, saved)
    {
      hide FileText;
      match FindActive(endpoints, id, organization, workspace) {
        case None => return NotFound;
        case Some(i) => endpoints := endpoints[i := endpoints[i].(revokedAt := now)];
      }
      heartbeats := heartbeats - {id};
      Save(saved);
      a := if saved then Revoked else SaveFailed;
    }

    method Rotate(id: string, organization: string, workspace: string, now: u64, token: string, saved: bool)
      returns (a: Answer)
      modifies this
      ensures (View(), a) == RotateStep(old(View()), id, organization, workspace, now, token, saved)
    {
      hide FileText;
      match FindActive(endpoints, id, organization, workspace) {
        case None => return NotFound;
        case Some(i) => endpoints := endpoints[i := endpoints[i].(nodeToken := token, tokenRotatedAt := now)];
      }
      Save(saved);
      a := if saved then Rotated else SaveFailed;
    }
  }

  lemma {:induction false} ChangesZero(was: seq<Record>, now: seq<Record>)
    requires |was| == |now|
    ensures Changes(was, now) == 0 <==> was == now
  {
    if was != [] {
      ChangesZero(was[1..], now[1..]);
      assert was == [was[0]] + was[1..] && now == [now[0]] + now[1..];
    }
  }

  datatype Op =
    Enrolling(q: Enrollment, saved: bool)
    | Revoking(id: string, organization: string, workspace: string, now: u64, saved: bool)
    | Rotating(id: string, organization: string, workspace: string, now: u64, token: string, saved: bool)
    | Restarting(draw: nat -> string, savedIps: bool, savedTokens: bool)

  function Step(s: State, op: Op): State {
    match op
    case Enrolling(q, saved) => EnrollStep(s, q, saved).0
    case Revoking(id, organization, workspace, now, saved) =>
      RevokeStep(s, id, organization, workspace, now, saved).0
    case Rotating(id, organization, workspace, now, token, saved) =>
      RotateStep(s, id, organization, workspace, now, token, saved).0
    case Restarting(draw, savedIps, savedTokens) => RestartStep(s.disk, draw, savedIps, savedTokens)
  }

  function Run(s: State, ops: seq<Op>): State
    decreases |ops|
  {
    if ops == [] then s else Run(Step(s, ops[0]), ops[1..])
  }

  // ---- Enrolment -----------------------------------------------------------

  /** x is the supplied index when that is assignable, and the lowest assignable one otherwise. */
  ghost predicate GivenFor(x: nat, supplied: Option<nat>, used: set<nat>) {
    if supplied.Some? && Assignable(supplied.value, used) then x == supplied.value else Lowest(x, used)
  }

  /** What a new endpoint carries: one overlay address at most, in front, free among all endpoints, and
      the other entries it asked for in their order. */
  lemma EnrolledIndex(es: seq<Record>, q: Enrollment)
    ensures var allowed := NewRecord(es, q).allowedIps; var used := UsedIndices(es); var x := OverlayIndexOf(allowed);
            && Strip(allowed) == Strip(q.allowedIps)
            && (x.Some? <==> exists k :: Assignable(k, used))
            && (x.None? ==> allowed == Strip(q.allowedIps) && Indices(allowed) == {})
            && (x.Some? ==>
                  && GivenFor(x.value, OverlayIndexOf(q.allowedIps), used)
                  && allowed == [Cidr(x.value)] + Strip(q.allowedIps)
                  && Indices(allowed) == {x.value} && x.value !in used)
  {
    hide Allocate, ParseEntry, Cidr;
    var used := UsedIndices(es);
    var rest := Strip(q.allowedIps);
    StripHasNone(q.allowedIps);
    match ChooseForEnrollment(OverlayIndexOf(q.allowedIps), used)
    case Some(x) =>
      assert NewRecord(es, q).allowedIps == [Cidr(x)] + rest;
      assert Assignable(x, used);
      CidrInFront(x, rest);
      CidrReads(x);
      assert ([Cidr(x)] + rest)[1..] == rest && [] + rest == rest;
      assert exists k :: Assignable(k, UsedIndices(es));
      assert OverlayIndexOf(NewRecord(es, q).allowedIps).Some?;
    case None =>
  }

  lemma {:induction false} StripHasNone(entries: seq<string>)
    ensures Indices(Strip(entries)) == {} && Strip(Strip(entries)) == Strip(entries)
  {
    hide ParseEntry;
    if entries != [] {
      var rest := Strip(entries[1..]);
      StripHasNone(entries[1..]);
      assert [] + rest == rest;
      assert ([entries[0]] + rest)[1..] == rest;
    }
  }

  /** Enrolling again with the same key and tenant changes nothing and answers the same. */
  lemma EnrollAgain(s: State, q: Enrollment, again: Enrollment, saved: bool, savedAgain: bool)
    requires EnrollStep(s, q, saved).1.Accepted?
    requires again.publicKey == q.publicKey && again.organization == q.organization && again.workspace == q.workspace
    ensures EnrollStep(EnrollStep(s, q, saved).0, again, savedAgain) == EnrollStep(s, q, saved)
  {
    hide NewRecord, OverlayIndexOf, FileText, FindNode, SameNode;
    SameSearch(s.endpoints, q, again);
    if FindNode(s.endpoints, q).None? {
      var e := NewRecord(s.endpoints, q);
      NewIsSame(s.endpoints, q);
      FoundLast(s.endpoints, e, q);
      SameSearch(s.endpoints + [e], q, again);
    }
  }

  lemma {:induction false} SameSearch(es: seq<Record>, q: Enrollment, again: Enrollment)
    requires again.publicKey == q.publicKey && again.organization == q.organization && again.workspace == q.workspace
    ensures FindNode(es, again) == FindNode(es, q)
  {
    if es != [] {
      SameSearch(es[1..], q, again);
    }
  }

  lemma FoundLast(es: seq<Record>, e: Record, q: Enrollment)
    requires FindNode(es, q).None? && SameNode(e, q)
    ensures FindNode(es + [e], q) == Some(|es|)
  {
    hide SameNode;
    var all := es + [e];
    assert forall i :: 0 <= i < |es| ==> all[i] == es[i];
    assert all[|es|] == e && FindNode(all, q).Some?;
  }

  lemma NewIsSame(es: seq<Record>, q: Enrollment)
    ensures SameNode(NewRecord(es, q), q)
  {
  }

  // ---- Indices, in every run -----------------------------------------------

  /** No index belongs to two endpoints, in memory and in what the file loads as. */
  ghost predicate Apart(s: State) {
    Disjoint(s.endpoints) && Disjoint(Stored(s))
  }

  ghost predicate SameEntries(a: seq<Record>, b: seq<Record>) {
    |a| == |b| && forall i :: 0 <= i < |a| ==> a[i].allowedIps == b[i].allowedIps
  }

  lemma SameEntriesDisjoint(a: seq<Record>, b: seq<Record>)
    requires SameEntries(a, b) && Disjoint(b)
    ensures Disjoint(a)
  {
    hide Indices;
  }

  lemma NewIsDisjoint(es: seq<Record>, q: Enrollment)
    requires Disjoint(es)
    ensures Disjoint(es + [NewRecord(es, q)])
  {
    hide NewRecord, Indices, UsedIndices, OverlayIndexOf, Strip, Cidr;
    var all := es + [NewRecord(es, q)];
    EnrolledIndex(es, q);
    forall i, j | 0 <= i < j < |all|
      ensures Indices(all[i].allowedIps) !! Indices(all[j].allowedIps)
    {
      UsedMember(es, i);
    }
  }

  lemma WritesApart(s: State)
    requires Disjoint(s.endpoints) && (s.disk == FileText(s.endpoints) || Disjoint(Stored(s)))
    ensures Apart(s)
  {
    hide Disjoint, LoadSpec, SaveText;
    LoadKeepsDisjoint(s.endpoints, OverlayIndexOf);
  }

  lemma RestartKeepsApart(text: string, draw: nat -> string, savedIps: bool, savedTokens: bool)
    requires Disjoint(LoadSpec(text))
    ensures Apart(RestartStep(text, draw, savedIps, savedTokens))
  {
    hide Disjoint, LoadSpec, SaveText, Backfill, UsedIndices;
    var filled := Filled(text);
    BackfillKeepsDisjoint(LoadSpec(text));
    LoadKeepsDisjoint(filled, OverlayIndexOf);
    SameEntriesDisjoint(WithTokens(filled, draw), filled);
    WritesApart(RestartStep(text, draw, savedIps, savedTokens));
  }

  lemma StepKeepsApart(s: State, op: Op)
    requires Apart(s)
    ensures Apart(Step(s, op))
  {
    hide Disjoint, LoadSpec, SaveText, NewRecord, RestartStep;
    match op
    case Enrolling(q, saved) =>
      NewIsDisjoint(s.endpoints, q);
      WritesApart(Step(s, op));
    case Revoking(_, _, _, _, _) =>
      SameEntriesDisjoint(Step(s, op).endpoints, s.endpoints);
      WritesApart(Step(s, op));
    case Rotating(_, _, _, _, _, _) =>
      SameEntriesDisjoint(Step(s, op).endpoints, s.endpoints);
      WritesApart(Step(s, op));
    case Restarting(draw, savedIps, savedTokens) => RestartKeepsApart(s.disk, draw, savedIps, savedTokens);
  }

  lemma {:induction false} RunKeepsApart(s: State, ops: seq<Op>)
    requires Apart(s)
    ensures Apart(Run(s, ops))
    decreases |ops|
  {
    hide Apart, Step;
    if ops != [] {
      StepKeepsApart(s, ops[0]);
      RunKeepsApart(Step(s, ops[0]), ops[1..]);
    }
  }

  /** From a file whose records are disjoint, every run of restarts, enrolments, revocations and rotations,
      with any values and with saves failing anywhere, keeps the indices disjoint across all endpoints, in
      memory and in what the file loads as. */
  lemma IndicesStayDisjoint(text: string, draw: nat -> string, savedIps: bool, savedTokens: bool, ops: seq<Op>)
    requires Disjoint(LoadSpec(text))
    ensures var s := Run(RestartStep(text, draw, savedIps, savedTokens), ops);
            Disjoint(s.endpoints) && Disjoint(Stored(s))
  {
    hide RestartStep, Disjoint, Stored;
    RestartKeepsApart(text, draw, savedIps, savedTokens);
    RunKeepsApart(RestartStep(text, draw, savedIps, savedTokens), ops);
  }

  // ---- One restart, exactly ------------------------------------------------

  predicate RevokedAt(es: seq<Record>, i: nat) {
    i < |es| && es[i].revokedAt != 0
  }

  /** The fields as they are printed for a record. */
  function Printed(r: Record): (fs: seq<Field>)
    ensures |fs| == 13
  {
    FieldsOf(r, OverlayIndexOf(r.allowedIps))
  }

  lemma FilledAt(text: string, i: nat)
    requires i < |LoadSpec(text)|
    ensures Filled(text)[i] == Assigned(LoadSpec(text)[i], Known(LoadSpec(text), UsedIndices(LoadSpec(text)), i))
    ensures Filled(text)[i].revokedAt == LoadSpec(text)[i].revokedAt
  {
    hide LoadSpec, Backfill, Known, UsedIndices, Missing, Allocate;
    BackfillAt(LoadSpec(text), UsedIndices(LoadSpec(text)), i);
  }

  /** A restart revokes nobody and forgets no revocation that loads. */
  lemma RestartRevocations(text: string, draw: nat -> string, savedIps: bool, savedTokens: bool, i: nat)
    ensures |RestartStep(text, draw, savedIps, savedTokens).endpoints| == |LoadSpec(text)|
    ensures RevokedAt(RestartStep(text, draw, savedIps, savedTokens).endpoints, i) <==> RevokedAt(LoadSpec(text), i)
  {
    hide LoadSpec, FileText, Backfill, UsedIndices;
    if i < |LoadSpec(text)| {
      FilledAt(text, i);
    }
  }

  /** A record kept apart from its neighbours loads as revoked exactly when it was and no value before that
      field is taken for its name; its entries load exactly when that field is kept. */
  lemma RecordLoadsExactly(es: seq<Record>, i: nat)
    requires Separable(es, OverlayIndexOf) && i < |es|
    ensures var loaded := LoadSpec(FileText(es));
            && |loaded| == |es|
            && (RevokedAt(loaded, i) <==> RevokedAt(es, i) && !Shadowed(Printed(es[i]), 10))
            && (loaded[i].allowedIps == es[i].allowedIps <==> KeptAt(Printed(es[i]), 5))
            && loaded[i].allowedIps
               == if Shadowed(Printed(es[i]), 5) then [] else ReadList(ShowItems(es[i].allowedIps))
  {
    hide LoadSpec, SaveText, Shadowed, FieldsOf, ParseObject, ToJson, Enclosed, KeptAt, ReadList, ShowItems;
    LoadsEach(es, OverlayIndexOf);
    FieldsRead(es[i], OverlayIndexOf(es[i].allowedIps));
  }

  /** The same for a revocation after a restart from a file written with the list es. */
  lemma RevocationReadsExactly(es: seq<Record>, i: nat, draw: nat -> string, savedIps: bool, savedTokens: bool)
    requires Separable(es, OverlayIndexOf) && i < |es|
    ensures RevokedAt(RestartStep(FileText(es), draw, savedIps, savedTokens).endpoints, i)
       <==> RevokedAt(es, i) && !Shadowed(Printed(es[i]), 10)
  {
    hide FileText, LoadSpec, RestartStep, Shadowed, FieldsOf, Separable, RevokedAt, KeptAt, ReadList, ShowItems;
    RecordLoadsExactly(es, i);
    RestartRevocations(FileText(es), draw, savedIps, savedTokens, i);
  }

  lemma CidrIsPlain(x: nat)
    ensures forall k :: 0 <= k < |Cidr(x)| ==> var c := Cidr(x)[k]; Digit(c) || c == '.' || c == '/'
    ensures PlainItem(Cidr(x)) && Cidr(x) != ""
  {
    hide AddressText;
    OverlayBraceless(Some(x));
    var t, tail := AddressText(x), "/32";
    assert OverlayText(Some(x)) == t;
    forall k | 0 <= k < |Cidr(x)|
      ensures var c := Cidr(x)[k]; Digit(c) || c == '.' || c == '/'
    {
      assert Cidr(x)[k] == if k < |t| then t[k] else tail[k - |t|];
    }
  }

  /** The index that position i of the list is given at start-up, should it have none. */
  function GivenAt(es: seq<Record>, i: nat): Option<nat>
    requires i <= |es|
  {
    Allocate(Known(es, UsedIndices(es), i))
  }

  /** After a restart, a record that carried an address has its entries exactly when they load, or when a
      value before them was taken for their name and the lowest free index happens to be all it had. */
  lemma AddressesReadExactly(es: seq<Record>, i: nat, draw: nat -> string, savedIps: bool, savedTokens: bool)
    requires Separable(es, OverlayIndexOf) && i < |es| && !Missing(es[i])
    ensures |LoadSpec(FileText(es))| == |es|
    ensures var now := RestartStep(FileText(es), draw, savedIps, savedTokens).endpoints; var fs := Printed(es[i]);
            var given := GivenAt(LoadSpec(FileText(es)), i);
            && |now| == |es|
            && (Shadowed(fs, 5) ==> now[i].allowedIps == if given.Some? then [Cidr(given.value)] else [])
            && (now[i].allowedIps == es[i].allowedIps <==>
                  KeptAt(fs, 5) || (Shadowed(fs, 5) && given.Some? && es[i].allowedIps == [Cidr(given.value)]))
  {
    hide FileText, LoadSpec, Shadowed, FieldsOf, Separable, KeptAt, ReadList, ShowItems, Filled, Allocate, Known, Cidr;
    var text := FileText(es);
    RecordLoadsExactly(es, i);
    FilledAt(text, i);
    RestartRevocations(text, draw, savedIps, savedTokens, i);
    EntriesAfterLoad(es[i], LoadSpec(text)[i], Known(LoadSpec(text), UsedIndices(LoadSpec(text)), i));
  }

  /** One record: its entries as they were, as they load, and as the backfill leaves them. */
  lemma EntriesAfterLoad(was: Record, loaded: Record, known: set<nat>)
    requires !Missing(was)
    requires var fs := Printed(was);
             && (loaded.allowedIps == was.allowedIps <==> KeptAt(fs, 5))
             && loaded.allowedIps == if Shadowed(fs, 5) then [] else ReadList(ShowItems(was.allowedIps))
    ensures var now := Assigned(loaded, known); var fs := Printed(was); var given := Allocate(known);
            && (Shadowed(fs, 5) ==> now.allowedIps == if given.Some? then [Cidr(given.value)] else [])
            && (now.allowedIps == was.allowedIps <==>
                  KeptAt(fs, 5) || (Shadowed(fs, 5) && given.Some? && was.allowedIps == [Cidr(given.value)]))
  {
    hide Shadowed, FieldsOf, KeptAt, ReadList, ShowItems, Allocate, Cidr, ParseEntry, PlainItem;
    var given := Allocate(known);
    if !Shadowed(Printed(was), 5) && given.Some? && was.allowedIps == [Cidr(given.value)] + loaded.allowedIps {
      CidrIsPlain(given.value);
      FirstEntryReads(was.allowedIps);
      CidrReads(given.value);
    }
  }

  // ---- Until the next restart ----------------------------------------------

  /** The operations that rewrite the file from memory: the enrolment of a new node, or a revocation or
      rotation that finds its endpoint, when its save succeeds. */
  predicate Writes(s: State, op: Op) {
    match op
    case Enrolling(q, saved) => saved && FindNode(s.endpoints, q).None?
    case Revoking(id, organization, workspace, _, saved) =>
      saved && FindActive(s.endpoints, id, organization, workspace).Some?
    case Rotating(id, organization, workspace, _, _, saved) =>
      saved && FindActive(s.endpoints, id, organization, workspace).Some?
    case Restarting(_, _, _) => false
  }

  predicate NoRestart(ops: seq<Op>) {
    forall k :: 0 <= k < |ops| ==> !ops[k].Restarting?
  }

  /** The list that the last write put into the file. */
  function LastWrite(s: State, ops: seq<Op>): Option<seq<Record>>
    decreases |ops|
  {
    if ops == [] then None
    else
      match LastWrite(Step(s, ops[0]), ops[1..])
      case Some(w) => Some(w)
      case None => if Writes(s, ops[0]) then Some(Step(s, ops[0]).endpoints) else None
  }

  /** The same but for revocation and token. */
  predicate Alike(a: Record, b: Record) {
    a == b.(revokedAt := a.revokedAt, tokenRotatedAt := a.tokenRotatedAt, nodeToken := a.nodeToken)
  }

  /** a is b with endpoints added: the old ones keep their position and all but revocation and token. */
  ghost predicate Extends(a: seq<Record>, b: seq<Record>) {
    |a| >= |b| && forall i :: 0 <= i < |b| ==> Alike(a[i], b[i])
  }

  /** Also, nobody who was revoked is active again. */
  ghost predicate Follows(a: seq<Record>, b: seq<Record>) {
    Extends(a, b) && forall i :: RevokedAt(b, i) ==> RevokedAt(a, i)
  }

  lemma StepFollows(s: State, op: Op)
    requires !op.Restarting?
    ensures Follows(Step(s, op).endpoints, s.endpoints)
    ensures Step(s, op).disk == if Writes(s, op) then FileText(Step(s, op).endpoints) else s.disk
  {
    hide NewRecord, FileText;
  }

  lemma FollowsOn(a: seq<Record>, b: seq<Record>, c: seq<Record>)
    requires Follows(a, b) && Follows(b, c)
    ensures Follows(a, c)
  {
  }

  lemma FollowsItself(a: seq<Record>)
    ensures Follows(a, a)
  {
  }

  lemma {:induction false} RunFollows(s: State, ops: seq<Op>)
    requires NoRestart(ops)
    ensures Follows(Run(s, ops).endpoints, s.endpoints)
    ensures match LastWrite(s, ops)
            case Some(w) => Run(s, ops).disk == FileText(w) && Follows(w, Step(s, ops[0]).endpoints)
            case None => Run(s, ops).disk == s.disk
    decreases |ops|
  {
    hide Step, Writes, Follows, FileText;
    FollowsItself(s.endpoints);
    if ops != [] {
      var next := Step(s, ops[0]);
      StepFollows(s, ops[0]);
      RunFollows(next, ops[1..]);
      FollowsOn(Run(s, ops).endpoints, next.endpoints, s.endpoints);
      FollowsItself(next.endpoints);
      if LastWrite(next, ops[1..]).Some? {
        StepFollows(next, ops[1]);
        FollowsOn(LastWrite(s, ops).value, Step(next, ops[1]).endpoints, next.endpoints);
      }
    }
  }

  /** What the file says of a revocation is known in memory. */
  ghost predicate DiskLags(s: State) {
    forall i :: RevokedAt(Stored(s), i) ==> RevokedAt(s.endpoints, i)
  }

  lemma AlikeShadows(a: Record, b: Record)
    requires Alike(a, b)
    ensures Shadowed(Printed(a), 10) == Shadowed(Printed(b), 10)
  {
    hide OverlayIndexOf, OverlayText, ConfusesValue;
    var fs, gs := Printed(a), Printed(b);
    assert forall k :: 0 <= k < 10 ==> fs[k] == gs[k];
    assert fs[10].key == gs[10].key;
  }

  lemma RevokeRevokes(s: State, id: string, organization: string, workspace: string, now: u64, saved: bool)
    requires now != 0 && FindActive(s.endpoints, id, organization, workspace).Some?
    ensures var i := FindActive(s.endpoints, id, organization, workspace).value;
            RevokedAt(Step(s, Revoking(id, organization, workspace, now, saved)).endpoints, i) && i < |s.endpoints|
            && s.endpoints[i].revokedAt == 0
  {
    hide FileText;
  }

  /** A revocation holds in memory until the next restart, whatever happens before it. It outlives that
      restart exactly when the list was written since, by its own save or a later one, and no value printed
      before the revocation is taken for that field's name. */
  lemma RevocationOutlivesRestartExactly(s: State, id: string, organization: string, workspace: string, now: u64,
                                         saved: bool, ops: seq<Op>, draw: nat -> string, savedIps: bool,
                                         savedTokens: bool)
    requires now != 0 && NoRestart(ops) && DiskLags(s)
    requires FindActive(s.endpoints, id, organization, workspace).Some?
    requires var w := LastWrite(s, [Revoking(id, organization, workspace, now, saved)] + ops);
             w.Some? ==> Separable(w.value, OverlayIndexOf)
    ensures var i := FindActive(s.endpoints, id, organization, workspace).value;
            var all := [Revoking(id, organization, workspace, now, saved)] + ops; var end := Run(s, all);
            && RevokedAt(end.endpoints, i)
            && (RevokedAt(RestartStep(end.disk, draw, savedIps, savedTokens).endpoints, i)
                <==> LastWrite(s, all).Some? && !Shadowed(Printed(s.endpoints[i]), 10))
  {
    hide Step, Writes, FileText, LoadSpec, RestartStep, Shadowed, Separable, Run, Printed;
    var i := FindActive(s.endpoints, id, organization, workspace).value;
    var op := Revoking(id, organization, workspace, now, saved);
    var all := [op] + ops;
    var end := Run(s, all);
    RevokeRevokes(s, id, organization, workspace, now, saved);
    StepFollows(s, op);
    RunFollows(s, all);
    RevokedThroughout(s, op, ops, i);
    match LastWrite(s, all)
    case Some(w) =>
      RevocationReadsExactly(w, i, draw, savedIps, savedTokens);
      AlikeShadows(w[i], s.endpoints[i]);
    case None =>
      assert end.disk == s.disk && !RevokedAt(Stored(s), i);
      RestartRevocations(end.disk, draw, savedIps, savedTokens, i);
  }

  lemma RevokedThroughout(s: State, op: Op, ops: seq<Op>, i: nat)
    requires NoRestart([op] + ops) && RevokedAt(Step(s, op).endpoints, i)
    ensures RevokedAt(Run(s, [op] + ops).endpoints, i)
  {
    hide Step;
    assert ([op] + ops)[1..] == ops;
    assert NoRestart(ops) by { assert forall k :: 0 <= k < |ops| ==> ops[k] == ([op] + ops)[k + 1]; }
    RunFollows(Step(s, op), ops);
  }

  /** Its own save, or that of a later operation before the restart. */
  lemma LastWriteOf(s: State, op: Op, ops: seq<Op>)
    ensures LastWrite(s, [op] + ops).Some? <==> Writes(s, op) || LastWrite(Step(s, op), ops).Some?
  {
    hide Step, Writes;
    assert ([op] + ops)[1..] == ops;
  }

  /** The file never claims a revocation that memory does not know, as long as the lists that are written
      keep their records apart. */
  lemma StepKeepsLag(s: State, op: Op)
    requires op.Restarting? || DiskLags(s)
    requires op.Restarting? ==> Separable(Filled(s.disk), OverlayIndexOf)
    requires op.Restarting? || Writes(s, op) ==> Separable(Step(s, op).endpoints, OverlayIndexOf)
    ensures DiskLags(Step(s, op))
  {
    hide FileText, LoadSpec, Separable, RevokedAt, Shadowed, Printed, KeptAt, ReadList, ShowItems;
    match op
    case Restarting(draw, savedIps, savedTokens) =>
      RestartLags(s.disk, draw, savedIps, savedTokens);
    case _ =>
      StepFollows(s, op);
      if Writes(s, op) {
        WriteLags(Step(s, op));
      } else {
        assert Stored(Step(s, op)) == Stored(s);
      }
  }

  lemma WriteLags(s: State)
    requires s.disk == FileText(s.endpoints) && Separable(s.endpoints, OverlayIndexOf)
    ensures DiskLags(s)
  {
    hide FileText, LoadSpec, Separable, Shadowed, Printed, KeptAt, ReadList, ShowItems;
    forall i | RevokedAt(Stored(s), i)
      ensures RevokedAt(s.endpoints, i)
    {
      SameLength(s.endpoints);
      RecordLoadsExactly(s.endpoints, i);
    }
  }

  lemma SameLength(es: seq<Record>)
    requires Separable(es, OverlayIndexOf)
    ensures |LoadSpec(FileText(es))| == |es|
  {
    hide LoadSpec, SaveText, Separable;
    LoadsEach(es, OverlayIndexOf);
  }

  lemma RestartLags(text: string, draw: nat -> string, savedIps: bool, savedTokens: bool)
    requires var s := RestartStep(text, draw, savedIps, savedTokens);
             Separable(Filled(text), OverlayIndexOf) && Separable(s.endpoints, OverlayIndexOf)
    ensures DiskLags(RestartStep(text, draw, savedIps, savedTokens))
  {
    hide FileText, LoadSpec, Separable, Filled;
    var s := RestartStep(text, draw, savedIps, savedTokens);
    var filled := Filled(text);
    if s.disk == FileText(s.endpoints) {
      WriteLags(s);
    } else if s.disk == FileText(filled) {
      WriteLags(s.(endpoints := filled));
      forall i | RevokedAt(Stored(s), i)
        ensures RevokedAt(s.endpoints, i)
      {
        assert Stored(s) == Stored(s.(endpoints := filled));
        assert RevokedAt(filled, i);
      }
    } else {
      forall i | RevokedAt(Stored(s), i)
        ensures RevokedAt(s.endpoints, i)
      {
        RestartRevocations(text, draw, savedIps, savedTokens, i);
      }
    }
  }

  // ---- Every run, restarts included ----------------------------------------

  /** Text without braces or line breaks that is not the name of a field. */
  predicate CleanText(s: string) {
    Braceless(s) && SafeText(s)
  }

  predicate CleanEntries(entries: seq<string>) {
    forall i :: 0 <= i < |entries| ==> CleanText(entries[i]) && PlainItem(entries[i])
  }

  predicate Clean(r: Record) {
    && r.id != "" && CleanText(r.id) && CleanText(r.name) && CleanText(r.publicKey) && CleanText(r.endpointAddr)
    && CleanEntries(r.allowedIps)
    && CleanText(r.addedBy) && CleanText(r.organizationId) && CleanText(r.workspaceId) && CleanText(r.nodeToken)
  }

  ghost predicate AllClean(es: seq<Record>) {
    forall i :: 0 <= i < |es| ==> Clean(es[i])
  }

  /** What an operation brings in is clean. */
  ghost predicate CleanOp(op: Op) {
    match op
    case Enrolling(q, _) =>
      && q.id != "" && CleanText(q.id) && CleanText(q.name) && CleanText(q.publicKey) && CleanText(q.endpointAddr)
      && CleanEntries(q.allowedIps)
      && CleanText(q.addedBy) && CleanText(q.organization) && CleanText(q.workspace) && CleanText(q.token)
    case Revoking(_, _, _, _, _) => true
    case Rotating(_, _, _, _, token, _) => CleanText(token)
    case Restarting(draw, _, _) => forall i :: CleanText(draw(i))
  }

  ghost predicate CleanOps(ops: seq<Op>) {
    forall k :: 0 <= k < |ops| ==> CleanOp(ops[k])
  }

  predicate Hex(c: char) {
    '0' <= c <= '9' || 'a' <= c <= 'f'
  }

  /** An identifier is 16 hexadecimal characters, a token 64 behind a prefix. */
  predicate IdText(s: string) {
    |s| == 16 && forall k :: 0 <= k < |s| ==> Hex(s[k])
  }

  predicate TokenText(s: string) {
    |s| == 69 && s[..5] == "aknk_" && forall k :: 5 <= k < |s| ==> Hex(s[k])
  }

  /** What the program draws itself is clean. */
  lemma DrawnIsClean(s: string)
    requires IdText(s) || TokenText(s)
    ensures s != "" && CleanText(s)
  {
    hide FieldName;
    assert forall k :: 0 <= k < 5 && TokenText(s) ==> s[k] == s[..5][k] == "aknk_"[k];
    forall k | 0 <= k < |s|
      ensures Hex(s[k]) || s[k] == 'k' || s[k] == 'n' || s[k] == '_'
    {
    }
    assert s[0..] == s;
    assert !FieldName(s) by { DrawnIsNoName(s); }
  }

  lemma DrawnIsNoName(s: string)
    requires IdText(s) || TokenText(s)
    ensures !FieldName(s)
  {
    assert s != "token_rotated_at" by { assert IdText(s) ==> Hex(s[0]); }
  }

  lemma CleanLoads(es: seq<Record>)
    requires AllClean(es)
    ensures LoadSpec(FileText(es)) == es
  {
    hide LoadSpec, SaveText, Braceless, SafeText, PlainItem;
    SafeListLoads(es, OverlayIndexOf);
  }

  lemma CidrIsClean(x: nat)
    ensures CleanText(Cidr(x))
  {
    hide Cidr, FieldName;
    CidrIsPlain(x);
    var s := Cidr(x);
    assert s[0..] == s;
    assert Digit(s[0]) || s[0] == '.' || s[0] == '/';
    NoLetterFirst(s);
  }

  lemma NoLetterFirst(s: string)
    requires s != "" && !('a' <= s[0] <= 'z')
    ensures !FieldName(s)
  {
    hide FieldName;
    if FieldName(s) {
      FieldNameIsWord(s);
    }
  }

  lemma {:induction false} StripIsClean(entries: seq<string>)
    requires CleanEntries(entries)
    ensures CleanEntries(Strip(entries))
  {
    hide CleanText, PlainItem, ParseEntry;
    if entries != [] {
      StripIsClean(entries[1..]);
    }
  }

  lemma InFrontIsClean(x: nat, entries: seq<string>)
    requires CleanEntries(entries)
    ensures CleanEntries([Cidr(x)] + entries)
  {
    hide CleanText, PlainItem, Cidr;
    CidrIsClean(x);
    CidrIsPlain(x);
  }

  lemma NewIsClean(es: seq<Record>, q: Enrollment, saved: bool)
    requires CleanOp(Enrolling(q, saved))
    ensures Clean(NewRecord(es, q))
  {
    hide CleanText, CleanEntries, UsedIndices, OverlayIndexOf, Cidr, ChooseForEnrollment;
    StripIsClean(q.allowedIps);
    match ChooseForEnrollment(OverlayIndexOf(q.allowedIps), UsedIndices(es))
    case Some(x) => InFrontIsClean(x, Strip(q.allowedIps));
    case None =>
  }

  lemma FilledIsClean(text: string)
    requires AllClean(LoadSpec(text))
    ensures AllClean(Filled(text))
  {
    hide LoadSpec, CleanText, CleanEntries, Backfill, UsedIndices, Known, Allocate, Missing, Cidr;
    forall i | 0 <= i < |Filled(text)|
      ensures Clean(Filled(text)[i])
    {
      FilledAt(text, i);
      var used := Known(LoadSpec(text), UsedIndices(LoadSpec(text)), i);
      if Allocate(used).Some? {
        InFrontIsClean(Allocate(used).value, LoadSpec(text)[i].allowedIps);
      }
    }
  }

  ghost predicate Twins(a: seq<Record>, b: seq<Record>) {
    |a| == |b| && Extends(a, b)
  }

  /** Memory is always what the file would load and fill in, up to revocations and tokens, and no two
      endpoints share an index. */
  ghost predicate Consistent(s: State) {
    && AllClean(s.endpoints) && AllClean(Stored(s))
    && Apart(s)
    && Settled(s.endpoints)
    && Twins(s.endpoints, Filled(s.disk))
    && DiskLags(s)
  }

  lemma {:induction false} TwinsUsed(a: seq<Record>, b: seq<Record>)
    requires Twins(a, b)
    ensures UsedIndices(a) == UsedIndices(b)
  {
    if a != [] {
      assert Twins(a[1..], b[1..]);
      TwinsUsed(a[1..], b[1..]);
    }
  }

  lemma TwinsSettled(a: seq<Record>, b: seq<Record>)
    requires Twins(a, b) && Settled(b)
    ensures Settled(a) && Backfill(a, UsedIndices(a)) == a
  {
    hide Allocate, UsedIndices, Backfill, OverlayIndexOf;
    TwinsUsed(a, b);
    assert forall i :: 0 <= i < |a| ==> Missing(a[i]) == Missing(b[i]);
    SettledIsFixed(a, UsedIndices(a));
  }

  /** After a write, the file loads as exactly what memory holds. */
  lemma WriteKeeps(s: State)
    requires AllClean(s.endpoints) && Settled(s.endpoints) && Disjoint(s.endpoints)
    requires s.disk == FileText(s.endpoints)
    ensures Consistent(s) && Stored(s) == s.endpoints
  {
    hide FileText, LoadSpec, Clean, Settled, Disjoint, Backfill, UsedIndices;
    CleanLoads(s.endpoints);
    TwinsItself(s.endpoints);
    TwinsSettled(s.endpoints, s.endpoints);
  }

  lemma TwinsItself(a: seq<Record>)
    ensures Twins(a, a)
  {
  }

  lemma RestartKeeps(text: string, draw: nat -> string, savedIps: bool, savedTokens: bool)
    requires AllClean(LoadSpec(text)) && Disjoint(LoadSpec(text)) && CleanOp(Restarting(draw, savedIps, savedTokens))
    ensures var s := RestartStep(text, draw, savedIps, savedTokens);
            && Consistent(s) && Twins(s.endpoints, Filled(text))
            && Stored(s) in [LoadSpec(text), Filled(text), s.endpoints]
  {
    hide FileText, LoadSpec, Settled, Disjoint, Backfill, UsedIndices, CleanText, CleanEntries;
    var s := RestartStep(text, draw, savedIps, savedTokens);
    var filled := Filled(text);
    FilledIsClean(text);
    BackfillSettles(LoadSpec(text));
    BackfillKeepsDisjoint(LoadSpec(text));
    TwinsSettled(s.endpoints, filled);
    RestartKeepsApart(text, draw, savedIps, savedTokens);
    TwinsItself(filled);
    TwinsSettled(filled, filled);
    if s.disk == FileText(s.endpoints) {
      WriteKeeps(s);
    } else if s.disk == FileText(filled) {
      CleanLoads(filled);
      assert forall i :: RevokedAt(filled, i) ==> RevokedAt(s.endpoints, i);
    } else {
      forall i | RevokedAt(Stored(s), i)
        ensures RevokedAt(s.endpoints, i)
      {
        RestartRevocations(text, draw, savedIps, savedTokens, i);
      }
    }
  }

  lemma EnrollSettles(es: seq<Record>, q: Enrollment)
    requires Settled(es)
    ensures Settled(es + [NewRecord(es, q)])
  {
    hide Indices, UsedIndices, NewRecord, Allocate, OverlayIndexOf;
    var e := NewRecord(es, q);
    var all := es + [e];
    EnrolledIndex(es, q);
    UsedAppend(es, [e]);
    ExhaustedGrows(UsedIndices(es), UsedIndices(all));
    forall i | 0 <= i < |all| && Missing(all[i])
      ensures Allocate(UsedIndices(all)).None?
    {
      if i < |es| {
        assert all[i] == es[i];
      }
    }
  }

  lemma StepKeepsClean(s: State, op: Op)
    requires AllClean(s.endpoints) && CleanOp(op) && !op.Restarting?
    ensures AllClean(Step(s, op).endpoints)
  {
    hide NewRecord, FileText, CleanText, CleanEntries;
    if op.Enrolling? {
      NewIsClean(s.endpoints, op.q, op.saved);
    }
  }

  lemma StepKeepsSettled(s: State, op: Op)
    requires Settled(s.endpoints) && !op.Restarting?
    ensures Settled(Step(s, op).endpoints)
    ensures Step(s, op).endpoints == s.endpoints || Writes(s, op) || Twins(Step(s, op).endpoints, s.endpoints)
  {
    hide NewRecord, FileText, Settled;
    if op.Enrolling? {
      EnrollSettles(s.endpoints, op.q);
    } else {
      assert Twins(Step(s, op).endpoints, s.endpoints);
      TwinsSettled(Step(s, op).endpoints, s.endpoints);
    }
  }

  /** One operation other than a restart: it keeps the invariant, and the file loads as before, or as what
      memory holds now when the operation writes. */
  lemma StepKeeps(s: State, op: Op)
    requires Consistent(s) && CleanOp(op) && !op.Restarting?
    ensures Consistent(Step(s, op))
    ensures Stored(Step(s, op)) == if Writes(s, op) then Step(s, op).endpoints else Stored(s)
  {
    hide Step, Writes, AllClean, CleanOp, Settled, Disjoint, FileText, LoadSpec, Filled, Follows;
    StepFollows(s, op);
    StepKeepsClean(s, op);
    StepKeepsSettled(s, op);
    StepKeepsApart(s, op);
    if Writes(s, op) {
      WriteKeeps(Step(s, op));
    } else {
      TwinsOn(Step(s, op).endpoints, s.endpoints, Filled(s.disk));
      FollowsRevocations(Step(s, op).endpoints, s.endpoints);
    }
  }

  lemma TwinsOn(a: seq<Record>, b: seq<Record>, c: seq<Record>)
    requires (a == b || Twins(a, b)) && Twins(b, c)
    ensures Twins(a, c)
  {
  }

  lemma FollowsRevocations(a: seq<Record>, b: seq<Record>)
    requires Follows(a, b)
    ensures forall i :: RevokedAt(b, i) ==> RevokedAt(a, i)
  {
  }

  /** Every operation, restarts included: the invariant holds, every endpoint keeps its place, identity and
      addresses, and what is revoked in the file stays so. */
  lemma OpKeeps(s: State, op: Op)
    requires Consistent(s) && CleanOp(op)
    ensures Consistent(Step(s, op))
    ensures Extends(Step(s, op).endpoints, s.endpoints)
    ensures forall i :: RevokedAt(Stored(s), i) ==> RevokedAt(Stored(Step(s, op)), i)
  {
    hide AllClean, CleanOp, Settled, Disjoint, FileText, LoadSpec, Filled, Writes, EnrollStep, RevokeStep, RotateStep,
         RestartStep;
    if op.Restarting? {
      RestartKeeps(s.disk, op.draw, op.savedIps, op.savedTokens);
      RestartExtends(s, op);
    } else {
      StepFollows(s, op);
      StepKeeps(s, op);
    }
  }

  lemma RestartExtends(s: State, op: Op)
    requires Consistent(s) && CleanOp(op) && op.Restarting?
    ensures Extends(Step(s, op).endpoints, s.endpoints)
    ensures forall i :: RevokedAt(Stored(s), i) ==> RevokedAt(Stored(Step(s, op)), i)
  {
    hide AllClean, CleanOp, Settled, Disjoint, FileText, LoadSpec, Backfill, UsedIndices, RevokedAt, DiskLags;
    var s' := Step(s, op);
    RestartKeeps(s.disk, op.draw, op.savedIps, op.savedTokens);
    forall i | RevokedAt(Stored(s), i)
      ensures RevokedAt(Stored(s'), i)
    {
      RestartRevocations(s.disk, op.draw, op.savedIps, op.savedTokens, i);
      FilledRevocations(s.disk, i);
    }
  }

  lemma FilledRevocations(text: string, i: nat)
    ensures RevokedAt(Filled(text), i) <==> RevokedAt(LoadSpec(text), i)
  {
    hide LoadSpec, Backfill, UsedIndices;
    if i < |LoadSpec(text)| {
      FilledAt(text, i);
    }
  }

  /** From a consistent state, an endpoint is for ever: no later clean operation, failed save or restart
      changes its place, its identity or its addresses, or gives its index to another. */
  lemma {:induction false} AddressesAreStable(s: State, ops: seq<Op>)
    requires Consistent(s) && CleanOps(ops)
    ensures Consistent(Run(s, ops)) && Extends(Run(s, ops).endpoints, s.endpoints)
    decreases |ops|
  {
    hide Consistent, Step, CleanOp;
    if ops != [] {
      OpKeeps(s, ops[0]);
      AddressesAreStable(Step(s, ops[0]), ops[1..]);
    }
  }

  /** Once the file has it, a revocation is for ever, restarts included. */
  lemma {:induction false} RevocationIsForever(s: State, ops: seq<Op>, i: nat)
    requires Consistent(s) && CleanOps(ops) && RevokedAt(Stored(s), i)
    ensures RevokedAt(Stored(Run(s, ops)), i) && RevokedAt(Run(s, ops).endpoints, i)
    decreases |ops|
  {
    hide Step, CleanOp, AllClean, LoadSpec, Settled, Disjoint, Extends, Twins, RevokedAt;
    if ops != [] {
      OpKeeps(s, ops[0]);
      RevocationIsForever(Step(s, ops[0]), ops[1..], i);
    }
  }

  lemma CleanIsSeparable(es: seq<Record>)
    requires AllClean(es)
    ensures Separable(es, OverlayIndexOf)
  {
    hide Braceless, SafeText, PlainItem, OverlayIndexOf, Separable;
    BracelessIsSeparable(es, OverlayIndexOf);
  }

  lemma {:induction false} LastWriteIsClean(s: State, ops: seq<Op>)
    requires AllClean(s.endpoints) && CleanOps(ops) && NoRestart(ops)
    ensures LastWrite(s, ops).Some? ==> AllClean(LastWrite(s, ops).value)
    decreases |ops|
  {
    hide Step, Writes, AllClean, CleanOp;
    if ops != [] {
      StepKeepsClean(s, ops[0]);
      LastWriteIsClean(Step(s, ops[0]), ops[1..]);
    }
  }

  lemma CleanIsUnshadowed(e: Record, j: nat)
    requires Clean(e) && j < 13
    ensures !Shadowed(Printed(e), j)
  {
    hide Shadowed, FieldsOf, Braceless, SafeText, PlainItem, OverlayIndexOf;
    SafeUnshadowed(e, OverlayIndexOf(e.allowedIps), j);
  }

  /** What a revocation and later clean operations write keeps its records apart. */
  lemma WrittenIsSeparable(s: State, op: Op, ops: seq<Op>)
    requires AllClean(s.endpoints) && op.Revoking? && CleanOps(ops) && NoRestart(ops)
    ensures LastWrite(s, [op] + ops).Some? ==> Separable(LastWrite(s, [op] + ops).value, OverlayIndexOf)
  {
    hide Step, Writes, AllClean, Separable, LastWrite, CleanText, CleanEntries;
    LastWriteIsClean(s, [op] + ops);
    if LastWrite(s, [op] + ops).Some? {
      CleanIsSeparable(LastWrite(s, [op] + ops).value);
    }
  }

  lemma ConsistentFacts(s: State)
    requires Consistent(s)
    ensures AllClean(s.endpoints) && DiskLags(s)
  {
    hide AllClean, DiskLags, LoadSpec, Apart, Settled, Twins;
  }

  /** Among clean endpoints a revocation outlives the next restart exactly when the list was written since,
      by its own save or by that of any later operation. */
  lemma RevocationOutlivesRestartIffWritten(s: State, id: string, organization: string, workspace: string, now: u64,
                                            saved: bool, ops: seq<Op>, draw: nat -> string, savedIps: bool,
                                            savedTokens: bool)
    requires now != 0 && NoRestart(ops) && Consistent(s) && CleanOps(ops)
    requires FindActive(s.endpoints, id, organization, workspace).Some?
    ensures var i := FindActive(s.endpoints, id, organization, workspace).value;
            var revoking := Revoking(id, organization, workspace, now, saved);
            var end := Run(s, [revoking] + ops);
            && RevokedAt(end.endpoints, i)
            && (RevokedAt(RestartStep(end.disk, draw, savedIps, savedTokens).endpoints, i)
                <==> saved || LastWrite(Step(s, revoking), ops).Some?)
  {
    hide Step, Clean, CleanOps, RestartStep, Shadowed, Separable, Run, Printed, Consistent, DiskLags, LastWrite,
         RevokedAt;
    var i := FindActive(s.endpoints, id, organization, workspace).value;
    var revoking := Revoking(id, organization, workspace, now, saved);
    ConsistentFacts(s);
    WrittenIsSeparable(s, revoking, ops);
    LastWriteOf(s, revoking, ops);
    CleanIsUnshadowed(s.endpoints[i], 10);
    RevocationOutlivesRestartExactly(s, id, organization, workspace, now, saved, ops, draw, savedIps, savedTokens);
  }
}
