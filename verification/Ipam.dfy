/** Overlay address allocation from 100.88.0.0/16: the lowest free index, the choice at enrolment, and
    the backfill of endpoints that have none. */
module Ipam {
  import opened Options
  import opened Endpoints
  import opened OverlayAddress

  const FIRST_NODE_INDEX: nat := 2
  const MAX_INDEX: nat := 65535

  // ---- Indices -------------------------------------------------------------

  function OverlayIndexOf(entries: seq<string>): (r: Option<nat>)
    ensures r.None? <==> Indices(entries) == {}
    ensures r.Some? ==> r.value in Indices(entries)
  {
    if entries == [] then None
    else if ParseEntry(entries[0]).Some? then
      assert ParseEntry(entries[0]).value in Indices(entries);
      ParseEntry(entries[0])
    else OverlayIndexOf(entries[1..])
  }

  function Indices(entries: seq<string>): set<nat> {
    if entries == [] then {}
    else (if ParseEntry(entries[0]).Some? then {ParseEntry(entries[0]).value} else {}) + Indices(entries[1..])
  }

  function UsedIndices(es: seq<Record>): set<nat> {
    if es == [] then {} else Indices(es[0].allowedIps) + UsedIndices(es[1..])
  }

  /** No index belongs to two endpoints, revoked ones included. */
  ghost predicate Disjoint(es: seq<Record>) {
    forall i, j :: 0 <= i < j < |es| ==> Indices(es[i].allowedIps) !! Indices(es[j].allowedIps)
  }

  predicate Assignable(i: nat, used: set<nat>) {
    FIRST_NODE_INDEX <= i <= MAX_INDEX && i !in used
  }

  /** x is the lowest assignable index. */
  ghost predicate Lowest(x: nat, used: set<nat>) {
    Assignable(x, used) && forall k :: Assignable(k, used) ==> x <= k
  }

  function LowestFrom(i: nat, used: set<nat>): (r: Option<nat>)
    requires FIRST_NODE_INDEX <= i
    requires forall k :: Assignable(k, used) ==> i <= k
    ensures match r
            case Some(x) => Lowest(x, used)
            case None => forall k :: !Assignable(k, used)
    decreases MAX_INDEX + 1 - i
  {
    if i > MAX_INDEX then None else if i !in used then Some(i) else LowestFrom(i + 1, used)
  }

  function Allocate(used: set<nat>): (r: Option<nat>)
    ensures match r
            case Some(x) => Lowest(x, used)
            case None => forall k :: !Assignable(k, used)
  {
    LowestFrom(FIRST_NODE_INDEX, used)
  }

  /** A free supplied index is respected; otherwise the lowest free one is given out. */
  function ChooseForEnrollment(supplied: Option<nat>, used: set<nat>): (r: Option<nat>)
    ensures supplied.Some? && Assignable(supplied.value, used) ==> r == supplied
    ensures r.None? <==> forall k :: !Assignable(k, used)
    ensures r.Some? && r != supplied ==> Lowest(r.value, used)
    ensures r.Some? ==> Assignable(r.value, used)
  {
    match supplied
    case Some(i) => if Assignable(i, used) then supplied else Allocate(used)
    case None => Allocate(used)
  }

  // ---- Backfill ------------------------------------------------------------

  predicate Missing(e: Record) {
    OverlayIndexOf(e.allowedIps).None?
  }

  function WithOverlay(e: Record, i: nat): Record {
    e.(allowedIps := [Cidr(i)] + e.allowedIps)
  }

  function Assigned(e: Record, used: set<nat>): Record {
    if !Missing(e) then e
    else
      match Allocate(used)
      case Some(i) => WithOverlay(e, i)
      case None => e
  }

  function Backfill(es: seq<Record>, used: set<nat>): (r: seq<Record>)
    ensures |r| == |es|
  {
    if es == [] then []
    else
      var e := Assigned(es[0], used);
      [e] + Backfill(es[1..], used + Indices(e.allowedIps))
  }

  /** The indices known when position k is reached. */
  function Known(es: seq<Record>, used: set<nat>, k: nat): set<nat>
    requires k <= |es|
  {
    used + UsedIndices(Backfill(es, used)[..k])
  }

  function Changes(was: seq<Record>, now: seq<Record>): nat
    requires |was| == |now|
  {
    if was == [] then 0 else (if was[0] == now[0] then 0 else 1) + Changes(was[1..], now[1..])
  }

  lemma UsedAppend(a: seq<Record>, b: seq<Record>)
    ensures UsedIndices(a + b) == UsedIndices(a) + UsedIndices(b)
  {
    if a == [] {
      assert a + b == b;
    } else {
      assert (a + b)[1..] == a[1..] + b;
      UsedAppend(a[1..], b);
    }
  }

  lemma {:induction false} UsedMember(es: seq<Record>, i: nat)
    requires i < |es|
    ensures Indices(es[i].allowedIps) <= UsedIndices(es)
  {
    if i > 0 {
      UsedMember(es[1..], i - 1);
    }
  }

  lemma {:induction false} UsedWitness(es: seq<Record>, x: nat) returns (i: nat)
    requires x in UsedIndices(es)
    ensures i < |es| && x in Indices(es[i].allowedIps)
  {
    if x in Indices(es[0].allowedIps) {
      i := 0;
    } else {
      var j := UsedWitness(es[1..], x);
      i := j + 1;
    }
  }

  /** Position by position: an endpoint that lacks an index gets the lowest one that is free among
      all indices of the list and those given out before it; every other endpoint is unchanged. */
  lemma {:induction false} BackfillAt(es: seq<Record>, used: set<nat>, k: nat)
    requires k < |es|
    ensures Backfill(es, used)[k] == Assigned(es[k], Known(es, used, k))
    decreases |es|
  {
    hide Assigned;
    var e := Assigned(es[0], used);
    var used' := used + Indices(e.allowedIps);
    if k == 0 {
      assert Known(es, used, 0) == used;
    } else {
      BackfillAt(es[1..], used', k - 1);
      var r := Backfill(es, used);
      assert r[..k] == [e] + Backfill(es[1..], used')[..k - 1];
      assert r[..k][1..] == Backfill(es[1..], used')[..k - 1];
      assert Known(es, used, k) == Known(es[1..], used', k - 1);
    }
  }

  lemma CidrInFront(i: nat, entries: seq<string>)
    requires i <= MAX_INDEX
    ensures Indices([Cidr(i)] + entries) == {i} + Indices(entries)
    ensures OverlayIndexOf([Cidr(i)] + entries) == Some(i)
  {
    hide ParseEntry, Cidr;
    CidrReads(i);
    assert ([Cidr(i)] + entries)[1..] == entries;
  }

  lemma AssignedIndices(e: Record, used: set<nat>)
    ensures Missing(e) && Allocate(used).Some? ==>
      Indices(Assigned(e, used).allowedIps) == {Allocate(used).value}
    ensures !Missing(e) || Allocate(used).None? ==> Assigned(e, used) == e
  {
    hide ParseEntry, Cidr;
    if Missing(e) && Allocate(used).Some? {
      CidrInFront(Allocate(used).value, e.allowedIps);
    }
  }

  lemma {:induction false} BackfillKeepsDisjoint(es: seq<Record>)
    requires Disjoint(es)
    ensures Disjoint(Backfill(es, UsedIndices(es)))
  {
    var r := Backfill(es, UsedIndices(es));
    forall i, j | 0 <= i < j < |r|
      ensures Indices(r[i].allowedIps) !! Indices(r[j].allowedIps)
    {
      BackfilledApart(es, i, j);
    }
  }

  lemma BackfilledApart(es: seq<Record>, i: nat, j: nat)
    requires i < j < |es| && Disjoint(es)
    ensures Indices(Backfill(es, UsedIndices(es))[i].allowedIps) !! Indices(Backfill(es, UsedIndices(es))[j].allowedIps)
  {
    hide Assigned, Allocate, Indices, UsedIndices, Backfill;
    var used := UsedIndices(es);
    var r := Backfill(es, used);
    BackfillAt(es, used, i);
    BackfillAt(es, used, j);
    AssignedIndices(es[i], Known(es, used, i));
    AssignedIndices(es[j], Known(es, used, j));
    UsedMember(es, i);
    UsedMember(es, j);
    UsedMember(r[..j], i);
  }

  /** Whoever still lacks an index lacks it because the pool is exhausted. */
  ghost predicate Settled(es: seq<Record>) {
    forall i :: 0 <= i < |es| && Missing(es[i]) ==> Allocate(UsedIndices(es)).None?
  }

  lemma BackfillSettles(es: seq<Record>)
    ensures Settled(Backfill(es, UsedIndices(es)))
  {
    hide Assigned, Allocate, Indices, UsedIndices, Backfill;
    var used := UsedIndices(es);
    var r := Backfill(es, used);
    UsedKept(es);
    forall i | 0 <= i < |r| && Missing(r[i])
      ensures Allocate(UsedIndices(r)).None?
    {
      BackfillAt(es, used, i);
      AssignedIndices(es[i], Known(es, used, i));
      assert r == r[..i] + r[i..];
      UsedAppend(r[..i], r[i..]);
      assert Known(es, used, i) <= UsedIndices(r);
      ExhaustedGrows(Known(es, used, i), UsedIndices(r));
    }
  }

  lemma ExhaustedGrows(less: set<nat>, more: set<nat>)
    requires less <= more
    ensures Allocate(more).Some? ==> Allocate(less).Some?
    ensures Allocate(less).None? <==> forall k :: !Assignable(k, less)
  {
    hide Allocate;
    if Allocate(more).Some? {
      assert Assignable(Allocate(more).value, less);
    }
    if Allocate(less).Some? {
      assert Assignable(Allocate(less).value, less);
    }
  }

  lemma UsedKept(es: seq<Record>)
    ensures UsedIndices(es) <= UsedIndices(Backfill(es, UsedIndices(es)))
  {
    hide Assigned, Allocate, Indices, UsedIndices, Backfill;
    var r := Backfill(es, UsedIndices(es));
    forall x | x in UsedIndices(es)
      ensures x in UsedIndices(r)
    {
      var i := UsedWitness(es, x);
      BackfillAt(es, UsedIndices(es), i);
      AssignedIndices(es[i], Known(es, UsedIndices(es), i));
      UsedMember(r, i);
    }
  }

  lemma {:induction false} SettledIsFixed(es: seq<Record>, used: set<nat>)
    requires forall i :: 0 <= i < |es| && Missing(es[i]) ==> Allocate(used).None?
    requires UsedIndices(es) <= used
    ensures Backfill(es, used) == es
  {
    if es != [] {
      assert used + Indices(es[0].allowedIps) == used;
      SettledIsFixed(es[1..], used);
      assert es == [es[0]] + es[1..];
    }
  }

  lemma BackfillIdempotent(es: seq<Record>)
    ensures var once := Backfill(es, UsedIndices(es)); Backfill(once, UsedIndices(once)) == once
  {
    var once := Backfill(es, UsedIndices(es));
    BackfillSettles(es);
    SettledIsFixed(once, UsedIndices(once));
  }

  lemma {:induction false} ChangesSnoc(was: seq<Record>, now: seq<Record>, w: Record, n: Record)
    requires |was| == |now|
    ensures Changes(was + [w], now + [n]) == Changes(was, now) + if w == n then 0 else 1
  {
    if was == [] {
      assert Changes([w], [n]) == (if w == n then 0 else 1) + Changes([w][1..], [n][1..]);
    } else {
      assert (was + [w])[1..] == was[1..] + [w] && (now + [n])[1..] == now[1..] + [n];
      ChangesSnoc(was[1..], now[1..], w, n);
    }
  }

  lemma KnownGrows(es: seq<Record>, used: set<nat>, k: nat)
    requires k < |es| && UsedIndices(es) <= used
    ensures Known(es, used, k + 1) == Known(es, used, k) +
      (if Missing(es[k]) && Allocate(Known(es, used, k)).Some? then {Allocate(Known(es, used, k)).value} else {})
  {
    hide Assigned, Allocate, Indices, UsedIndices, Backfill;
    var r := Backfill(es, used);
    assert r[..k + 1] == r[..k] + [r[k]];
    UsedAppend(r[..k], [r[k]]);
    UsedOne(r[k]);
    BackfillAt(es, used, k);
    AssignedIndices(es[k], Known(es, used, k));
    UsedMember(es, k);
  }

  lemma UsedOne(e: Record)
    ensures UsedIndices([e]) == Indices(e.allowedIps)
  {
    assert UsedIndices([e][1..]) == {};
  }

  /** The source's loop over its mutable slice. */
  method AssignMissing(list: array<Record>) returns (changed: nat)
    modifies list
    ensures list[..] == Backfill(old(list[..]), UsedIndices(old(list[..])))
    ensures changed == Changes(old(list[..]), list[..])
  {
    hide Allocate, Indices, UsedIndices, Backfill, Known, Assigned, Changes;
    ghost var was := list[..];
    var used := UsedIndices(list[..]);
    ghost var all := used;
    ghost var done := Backfill(was, all);
    changed := 0;
    KnownAtStart(was, all);
    for i := 0 to list.Length
      invariant list[..i] == done[..i] && list[i..] == was[i..]
      invariant used == Known(was, all, i)
      invariant changed == Changes(was[..i], list[..i])
    {
      var e := list[i];
      ghost var before := list[..i];
      AssignAt(was, all, i);
      assert was[..i + 1] == was[..i] + [was[i]];
      if OverlayIndexOf(e.allowedIps).None? {
        match Allocate(used) {
          case Some(x) =>
            used := used + {x};
            list[i] := WithOverlay(e, x);
            changed := changed + 1;
          case None =>
        }
      }
      assert list[..i] == before;
      assert list[..i + 1] == before + [list[i]];
      ChangesSnoc(was[..i], before, was[i], list[i]);
    }
    assert was[..list.Length] == was && list[..list.Length] == list[..] && done[..list.Length] == done;
  }

  lemma KnownAtStart(es: seq<Record>, used: set<nat>)
    ensures Known(es, used, 0) == used
    ensures Changes([], []) == 0
  {
    assert Backfill(es, used)[..0] == [];
  }

  /** One round of the backfill loop. */
  lemma AssignAt(es: seq<Record>, used: set<nat>, k: nat)
    requires k < |es| && UsedIndices(es) <= used
    ensures var known := Known(es, used, k); var next := Backfill(es, used)[k];
            if OverlayIndexOf(es[k].allowedIps).None? && Allocate(known).Some? then
              next == WithOverlay(es[k], Allocate(known).value) && next != es[k]
              && Known(es, used, k + 1) == known + {Allocate(known).value}
            else next == es[k] && Known(es, used, k + 1) == known
  {
    hide Allocate, UsedIndices, Backfill, Known;
    KnownGrows(es, used, k);
    BackfillAt(es, used, k);
    assert |WithOverlay(es[k], 0).allowedIps| == |es[k].allowedIps| + 1;
  }
}
