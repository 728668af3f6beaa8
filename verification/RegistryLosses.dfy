/** Values that the endpoint file does not carry: for each way of losing something, the family of lists that
    lose it and one that does. */
module RegistryLosses {
  import opened Words
  import opened Options
  import opened JsonText
  import opened Endpoints
  import opened OverlayAddress
  import opened EndpointJson
  import opened EndpointCuts
  import opened KeyCounts
  import opened EndpointList
  import opened Ipam
  import opened Registry

  // ---- A name taken for a later field --------------------------------------

  /** A name that is a later field name, or ends in a quote followed by one, hides that field. */
  lemma NameShadows(r: Record, j: nat)
    requires 1 < j < 13 && Confuses(r.name, Printed(r)[j].key)
    ensures Shadowed(Printed(r), j)
  {
    hide OverlayIndexOf, OverlayText, Confuses;
    assert ConfusesValue(Printed(r)[1].value, Printed(r)[j].key);
  }

  function Named(name: string, entries: seq<string>, revokedAt: u64): Record {
    Record("0123456789abcdef", name, "key", "", entries, "owner", 1, "org", "space", revokedAt, 0, "aknk_0")
  }

  lemma NamedIsBraceless(name: string, x: nat, revokedAt: u64)
    requires Braceless(name)
    ensures BracelessRecord(Named(name, [Cidr(x)], revokedAt))
  {
    hide Braceless, Cidr;
    CidrIsClean(x);
    LiteralsAreBraceless();
  }

  lemma LiteralsAreBraceless()
    ensures Braceless("0123456789abcdef") && Braceless("aknk_0") && Braceless("") && Braceless("key")
    ensures Braceless("owner") && Braceless("org") && Braceless("space")
  {
  }

  lemma NamedIsSeparable(name: string, x: nat, revokedAt: u64)
    requires Braceless(name)
    ensures Separable([Named(name, [Cidr(x)], revokedAt)], OverlayIndexOf)
  {
    hide Separable, OverlayIndexOf, Braceless;
    NamedIsBraceless(name, x, revokedAt);
    BracelessIsSeparable([Named(name, [Cidr(x)], revokedAt)], OverlayIndexOf);
  }

  lemma ConfusesItself(key: string)
    ensures Confuses(key, key)
  {
  }

  /** A node named "revoked_at" that is revoked, with the revocation saved, is active after the restart. */
  lemma LostRevocation(draw: nat -> string, savedIps: bool, savedTokens: bool)
    ensures var es := [Named("revoked_at", [Cidr(2)], 0)]; var s := State(es, {}, FileText(es));
            var (s', a) := RevokeStep(s, es[0].id, "org", "space", 1700000000, true);
            var end := RestartStep(s'.disk, draw, savedIps, savedTokens);
            && a == Revoked && RevokedAt(s'.endpoints, 0) && s'.disk == FileText(s'.endpoints)
            && |end.endpoints| == 1 && end.endpoints[0].revokedAt == 0
  {
    hide FileText, RestartStep, LoadSpec, Cidr, Printed, Shadowed, Separable, KeptAt, ReadList, ShowItems;
    var es := [Named("revoked_at", [Cidr(2)], 0)];
    var s := State(es, {}, FileText(es));
    var s' := RevokeStep(s, es[0].id, "org", "space", 1700000000, true).0;
    assert FindActive(es, es[0].id, "org", "space") == Some(0);
    var r := Named("revoked_at", [Cidr(2)], 1700000000);
    assert s'.endpoints == [r];
    NamedIsSeparable("revoked_at", 2, 1700000000);
    ConfusesItself("revoked_at");
    RevokedAtKey(r);
    NameShadows(r, 10);
    RecordLoadsExactly([r], 0);
    RevocationReadsExactly([r], 0, draw, savedIps, savedTokens);
    RestartRevocations(FileText([r]), draw, savedIps, savedTokens, 0);
  }

  lemma RevokedAtKey(r: Record)
    ensures Printed(r)[10].key == "revoked_at" && Printed(r)[5].key == "allowed_ips"
  {
    hide OverlayIndexOf, OverlayText;
  }

  /** A node named "allowed_ips" comes back from a restart with another address. */
  lemma ChangedAddress(draw: nat -> string, savedIps: bool, savedTokens: bool)
    ensures var es := [Named("allowed_ips", [Cidr(5)], 0)];
            var end := RestartStep(FileText(es), draw, savedIps, savedTokens);
            |end.endpoints| == 1 && end.endpoints[0].allowedIps == [Cidr(2)]
  {
    hide FileText, RestartStep, LoadSpec, Cidr, Printed, Shadowed, Separable, KeptAt, ReadList, ShowItems,
         ParseEntry, Known, Indices;
    var r := Named("allowed_ips", [Cidr(5)], 0);
    NamedIsSeparable("allowed_ips", 5, 0);
    ConfusesItself("allowed_ips");
    RevokedAtKey(r);
    NameShadows(r, 5);
    assert [Cidr(5)] + [] == [Cidr(5)];
    CidrInFront(5, []);
    RecordLoadsExactly([r], 0);
    AddressesReadExactly([r], 0, draw, savedIps, savedTokens);
    var loaded := LoadSpec(FileText([r]));
    assert loaded == [loaded[0]];
    NoEntries(loaded[0]);
    KnownAtStart(loaded, UsedIndices(loaded));
    assert Allocate({}) == Some(2);
  }

  lemma NoEntries(r: Record)
    requires r.allowedIps == []
    ensures UsedIndices([r]) == {}
  {
    UsedOne(r);
  }

  // ---- A brace that is not closed ------------------------------------------

  /** Every brace that closes in the text has been opened in it, and there is always one open. */
  ghost predicate NeverCloses(s: string) {
    forall k :: 0 < k <= |s| ==> Depth(s[..k]) >= 1
  }

  ghost predicate NeverBelow(s: string) {
    forall k :: 0 <= k <= |s| ==> Depth(s[..k]) >= 0
  }

  lemma {:induction false} DepthAppend(a: string, b: string)
    ensures Depth(a + b) == Depth(a) + Depth(b)
  {
    if a == "" {
      assert a + b == b;
    } else {
      assert (a + b)[1..] == a[1..] + b;
      DepthAppend(a[1..], b);
    }
  }

  lemma PrefixDepth(a: string, b: string, k: nat)
    requires k <= |a + b|
    ensures Depth((a + b)[..k]) == if k <= |a| then Depth(a[..k]) else Depth(a) + Depth(b[..k - |a|])
  {
    hide Depth;
    if k <= |a| {
      assert (a + b)[..k] == a[..k];
    } else {
      assert (a + b)[..k] == a + b[..k - |a|];
      DepthAppend(a, b[..k - |a|]);
    }
  }

  lemma NeverBelowAppend(a: string, b: string)
    requires NeverBelow(a) && NeverBelow(b)
    ensures NeverBelow(a + b)
  {
    hide Depth;
    assert a[..|a|] == a;
    forall k | 0 <= k <= |a + b|
      ensures Depth((a + b)[..k]) >= 0
    {
      PrefixDepth(a, b, k);
    }
  }

  lemma NeverClosesAppend(a: string, b: string)
    requires NeverCloses(a) && a != "" && NeverBelow(b)
    ensures NeverCloses(a + b)
  {
    hide Depth;
    assert a[..|a|] == a;
    forall k | 0 < k <= |a + b|
      ensures Depth((a + b)[..k]) >= 1
    {
      PrefixDepth(a, b, k);
    }
  }

  lemma EnclosedNeverBelow(o: string)
    requires Enclosed(o)
    ensures NeverBelow(o)
  {
    assert o[..|o|] == o;
  }

  lemma BracelessNeverBelow(u: string)
    requires Braceless(u)
    ensures NeverBelow(u)
  {
    BracelessDepth(u);
  }

  lemma {:induction false} ListNeverBelow(objects: seq<string>)
    requires forall i :: 0 <= i < |objects| ==> Enclosed(objects[i])
    ensures NeverBelow(Closing(objects))
    decreases |objects|, 1
  {
    hide ShowList, Enclosed, NeverBelow;
    ShowListHead(objects);
    BracelessNeverBelow("\n]");
    if objects == [] {
      assert Closing(objects) == "\n]";
    } else {
      EnclosedNeverBelow(objects[0]);
      AfterFirstNeverBelow(objects);
      assert Closing(objects) == objects[0] + AfterFirst(objects);
      NeverBelowAppend(objects[0], AfterFirst(objects));
    }
  }

  lemma {:induction false} AfterFirstNeverBelow(objects: seq<string>)
    requires objects != [] && forall i :: 1 <= i < |objects| ==> Enclosed(objects[i])
    ensures NeverBelow(AfterFirst(objects))
    decreases |objects|, 0
  {
    hide ShowList, Enclosed, NeverBelow;
    BracelessNeverBelow("\n]");
    if objects[1..] != [] {
      BracelessNeverBelow(",\n");
      ListNeverBelow(objects[1..]);
      NeverBelowAppend(",\n", Closing(objects[1..]));
    }
  }

  /** Nothing is found in a text that never closes. */
  lemma NothingFound(s: string)
    requires NeverCloses(s) && s != "" && s[0] == '{'
    ensures Scan(s, 0, None) == []
  {
    hide Scan, Depth;
    ScanStep(s, 0, None);
    var k := ScanFrom(s[1..], 1, "{");
    DepthHead(s, k + 1);
    DeltaOpen();
  }

  lemma DeltaOpen()
    ensures Delta('{') == 1
  {
  }

  /** A printed record that is never closed is lost with all that follow it; those before it are found. */
  lemma {:induction false} UnclosedLosesTheRest(rs: seq<Record>, overlayOf: seq<string> -> Option<nat>, n: nat)
    requires n < |rs| && NeverCloses(ToJson(rs[n], overlayOf(rs[n].allowedIps)))
    requires forall i :: 0 <= i < |rs| && i != n ==> Enclosed(ToJson(rs[i], overlayOf(rs[i].allowedIps)))
    ensures Scan(Closing(ShowAll(rs, overlayOf)), 0, None) == ShowAll(rs, overlayOf)[..n]
    decreases n
  {
    hide Scan, ToJson, ShowList, Enclosed, NeverCloses;
    var texts := ShowAll(rs, overlayOf);
    RestOfList(rs, overlayOf);
    RecordStarts(rs[0], overlayOf(rs[0].allowedIps));
    assert texts[0][0] == "{\"id\":"[0] == '{';
    if n == 0 {
      AfterFirstNeverBelow(texts);
      NeverClosesAppend(texts[0], AfterFirst(texts));
      NothingFound(texts[0] + AfterFirst(texts));
    } else {
      ScanEnclosed(texts[0], AfterFirst(texts));
      ScanAfterFirst(texts);
      assert forall i :: 0 <= i < |rs| - 1 ==> rs[1..][i] == rs[i + 1];
      UnclosedLosesTheRest(rs[1..], overlayOf, n - 1);
      assert texts[..n] == [texts[0]] + texts[1..][..n - 1];
    }
  }

  /** The file then loads as no more than what stood before. */
  lemma UnclosedLoads(rs: seq<Record>, overlayOf: seq<string> -> Option<nat>, n: nat)
    requires n < |rs| && NeverCloses(ToJson(rs[n], overlayOf(rs[n].allowedIps)))
    requires forall i :: 0 <= i < |rs| && i != n ==> Enclosed(ToJson(rs[i], overlayOf(rs[i].allowedIps)))
    ensures LoadSpec(SaveText(rs, overlayOf)) == ParseAll(ShowAll(rs, overlayOf)[..n])
  {
    hide LoadSpec, SaveText, Scan, ToJson, ShowList, Enclosed, NeverCloses, ParseAll;
    FileLoads(rs, overlayOf);
    UnclosedLosesTheRest(rs, overlayOf, n);
  }

  /** A name that opens a brace makes such a record. */
  lemma OpenNameNeverCloses(r: Record, index: Option<nat>)
    requires r.name == "{" && BracelessRecord(r.(name := ""))
    ensures NeverCloses(ToJson(r, index))
  {
    hide FieldsOf, ShowField, ShowFields, Braceless, OverlayText, JsonEsc;
    var fs := FieldsOf(r, index);
    var head := ShowField(fs[0]) + ",\"name\":\"";
    var tail := "\"," + ShowFields(fs[2..]);
    OpenNameText(r, index);
    assert ToJson(r, index) == ("{" + head) + ("{" + tail + "}");
    OpenNameParts(r, index);
    OpenedNeverCloses(head);
    assert ("{" + tail + "}")[1..|tail| + 1] == tail;
    ObjectEnclosed("{" + tail + "}");
    EnclosedNeverBelow("{" + tail + "}");
    NeverClosesAppend("{" + head, "{" + tail + "}");
  }

  lemma OpenNameText(r: Record, index: Option<nat>)
    requires r.name == "{"
    ensures var fs := FieldsOf(r, index);
            ShowFields(fs) == ShowField(fs[0]) + ",\"name\":\"" + "{" + ("\"," + ShowFields(fs[2..]))
  {
    hide OverlayText, ShowField;
    var fs := FieldsOf(r, index);
    assert fs[1..][1..] == fs[2..];
    assert ShowFields(fs) == ShowField(fs[0]) + "," + (ShowField(fs[1]) + "," + ShowFields(fs[2..]));
    NameField(fs[1]);
  }

  lemma NameField(f: Field)
    requires f == Field("name", Text("{"))
    ensures ShowField(f) == "\"name\":\"" + "{" + "\""
  {
    EscapesEachCharacter("{");
    assert Esc("{") == EscChar('{') + Esc("{"[1..]);
  }

  lemma OpenNameParts(r: Record, index: Option<nat>)
    requires BracelessRecord(r.(name := ""))
    ensures var fs := FieldsOf(r, index);
            Braceless(ShowField(fs[0]) + ",\"name\":\"") && Braceless("\"," + ShowFields(fs[2..]))
  {
    hide FieldsOf, ShowValue, Braceless, BracelessRecord;
    var fs := FieldsOf(r, index);
    forall i | 0 <= i < 13 && i != 1
      ensures Braceless(fs[i].key) && Braceless(ShowValue(fs[i].value))
    {
      OtherFieldBraceless(r, index, i);
    }
    FieldsBraceless([fs[0]]);
    FieldsBraceless(fs[2..]);
    JoinBraceless(ShowField(fs[0]), ",\"name\":\"");
    JoinBraceless("\",", ShowFields(fs[2..]));
    SeparatorsBraceless();
  }

  lemma JoinBraceless(a: string, b: string)
    requires Braceless(a) && Braceless(b)
    ensures Braceless(a + b)
  {
  }

  lemma SeparatorsBraceless()
    ensures Braceless(",\"name\":\"") && Braceless("\",")
  {
  }

  lemma OtherFieldBraceless(r: Record, index: Option<nat>, i: nat)
    requires BracelessRecord(r.(name := "")) && i < 13 && i != 1
    ensures Braceless(FieldsOf(r, index)[i].key) && Braceless(ShowValue(FieldsOf(r, index)[i].value))
  {
    hide OverlayText, ShowValue, FieldName, BracelessRecord;
    assert FieldsOf(r, index)[i] == FieldsOf(r.(name := ""), index)[i];
    KeyIsFieldName(r, index, i);
    FieldNameIsWord(FieldsOf(r, index)[i].key);
    WordHasNoSpecials(FieldsOf(r, index)[i].key);
    FieldBraceless(r.(name := ""), index, i);
  }

  lemma OpenedNeverCloses(u: string)
    requires Braceless(u)
    ensures NeverCloses("{" + u)
  {
    hide Depth;
    var s := "{" + u;
    BracelessDepth(u);
    DeltaOpen();
    forall k | 0 < k <= |s|
      ensures Depth(s[..k]) >= 1
    {
      DepthHead(s, k);
      assert s[1..] == u;
    }
  }

  /** A node named "{" is gone after a restart, and with it every node that enrolled after it. */
  lemma LostEndpoints(es: seq<Record>, n: nat, draw: nat -> string, savedIps: bool, savedTokens: bool)
    requires n < |es| && es[n].name == "{" && BracelessRecord(es[n].(name := ""))
    requires forall i :: 0 <= i < |es| && i != n ==> es[i].id != "" && BracelessRecord(es[i])
    ensures |RestartStep(FileText(es), draw, savedIps, savedTokens).endpoints| == n
  {
    hide BracelessRecord, ToJson, Enclosed, NeverCloses, LoadSpec, SaveText, RestartStep, ObjectText;
    forall i | 0 <= i < |es| && i != n
      ensures Enclosed(ToJson(es[i], OverlayIndexOf(es[i].allowedIps)))
    {
      RecordIsObject(es[i], OverlayIndexOf(es[i].allowedIps));
      ObjectEnclosed(ToJson(es[i], OverlayIndexOf(es[i].allowedIps)));
    }
    OpenNameNeverCloses(es[n], OverlayIndexOf(es[n].allowedIps));
    UnclosedLoads(es, OverlayIndexOf, n);
    FirstLoad(es, n);
    RestartRevocations(FileText(es), draw, savedIps, savedTokens, 0);
  }

  lemma FirstLoad(es: seq<Record>, n: nat)
    requires n <= |es| && forall i :: 0 <= i < n ==> es[i].id != ""
    ensures |ParseAll(ShowAll(es, OverlayIndexOf)[..n])| == n
  {
    hide ParseObject, ToJson, ParseAll;
    var texts := ShowAll(es, OverlayIndexOf)[..n];
    forall i | 0 <= i < n
      ensures ParseObject(texts[i]).Some?
    {
      RecordRoundTrip(es[i], OverlayIndexOf(es[i].allowedIps));
    }
    ParseEach(texts);
  }
}
