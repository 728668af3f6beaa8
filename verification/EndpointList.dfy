/** The file of endpoint records: printed objects in a JSON array, split back by brace depth. */
module EndpointList {
  import opened Options
  import opened JsonText
  import opened Endpoints
  import opened EndpointJson
  import opened EndpointCuts
  import opened KeyCounts

  // ---- Printing and splitting ----------------------------------------------

  function Grow(cur: Option<string>, u: string): Option<string> {
    if cur.Some? then Some(cur.value + u) else None
  }

  /** The brace scan: the depth and the text since the brace that opened the current object. */
  function Scan(s: string, depth: int, cur: Option<string>): seq<string> {
    if s == "" then []
    else if s[0] == '{' then Scan(s[1..], depth + 1, if depth == 0 then Some("{") else Grow(cur, "{"))
    else if s[0] == '}' then
      if depth == 1 && cur.Some? then [cur.value + "}"] + Scan(s[1..], 0, None)
      else Scan(s[1..], depth - 1, Grow(cur, "}"))
    else Scan(s[1..], depth, Grow(cur, [s[0]]))
  }

  function Since(s: string, start: Option<nat>, i: nat): Option<string>
    requires i <= |s| && (start.Some? ==> start.value <= i)
  {
    if start.Some? then Some(s[start.value..i]) else None
  }

  method SplitObjects(s: string) returns (objects: seq<string>)
    ensures objects == Scan(s, 0, None)
  {
    objects := [];
    var depth := 0;
    var start: Option<nat> := None;
    for i := 0 to |s|
      invariant start.Some? ==> start.value < i
      invariant objects + Scan(s[i..], depth, Since(s, start, i)) == Scan(s, 0, None)
    {
      var ch := s[i];
      ghost var cur := Since(s, start, i);
      assert s[i..][1..] == s[i + 1..];
      assert start.Some? ==> s[start.value..i + 1] == s[start.value..i] + [ch];
      ghost var before := objects;
      ScanStep(s[i..], depth, cur);
      if ch == '{' {
        if depth == 0 {
          start := Some(i);
          assert s[i..i + 1] == "{";
        }
        depth := depth + 1;
      } else if ch == '}' {
        depth := depth - 1;
        if depth == 0 {
          if start.Some? {
            objects := objects + [s[start.value..i + 1]];
            start := None;
            assert before + ([cur.value + "}"] + Scan(s[i + 1..], 0, None)) == objects + Scan(s[i + 1..], 0, None);
          }
        }
      }
    }
    assert s[|s|..] == "";
  }

  /** One character of the scan. */
  lemma ScanStep(s: string, depth: int, cur: Option<string>)
    requires s != ""
    ensures s[0] == '{' ==>
      Scan(s, depth, cur) == Scan(s[1..], depth + 1, if depth == 0 then Some("{") else Grow(cur, "{"))
    ensures s[0] == '}' && depth == 1 && cur.Some? ==> Scan(s, depth, cur) == [cur.value + "}"] + Scan(s[1..], 0, None)
    ensures s[0] == '}' && !(depth == 1 && cur.Some?) ==> Scan(s, depth, cur) == Scan(s[1..], depth - 1, Grow(cur, "}"))
    ensures s[0] != '{' && s[0] != '}' ==> Scan(s, depth, cur) == Scan(s[1..], depth, Grow(cur, [s[0]]))
  {
  }

  function ParseAll(objects: seq<string>): seq<Record> {
    if objects == [] then []
    else
      match ParseObject(objects[0])
      case Some(r) => [r] + ParseAll(objects[1..])
      case None => ParseAll(objects[1..])
  }

  function LoadSpec(content: string): seq<Record> {
    ParseAll(Scan(Trim(content), 0, None))
  }

  method ParseArray(json: string) returns (records: seq<Record>)
    ensures records == LoadSpec(json)
  {
    hide ParseObject, Scan, Trim;
    var objects := SplitObjects(Trim(json));
    records := [];
    for i := 0 to |objects|
      invariant records + ParseAll(objects[i..]) == ParseAll(objects)
    {
      assert objects[i..][0] == objects[i] && objects[i..][1..] == objects[i + 1..];
      match ParseObject(objects[i]) {
        case Some(r) =>
          assert records + ([r] + ParseAll(objects[i + 1..])) == (records + [r]) + ParseAll(objects[i + 1..]);
          records := records + [r];
        case None =>
      }
    }
    assert objects[|objects|..] == [];
  }

  function ShowList(objects: seq<string>): string {
    if objects == [] then "" else if |objects| == 1 then objects[0] else objects[0] + ",\n" + ShowList(objects[1..])
  }

  function ShowAll(rs: seq<Record>, overlayOf: seq<string> -> Option<nat>): (texts: seq<string>)
    ensures |texts| == |rs| && forall i :: 0 <= i < |rs| ==> texts[i] == ToJson(rs[i], overlayOf(rs[i].allowedIps))
  {
    seq(|rs|, i requires 0 <= i < |rs| => ToJson(rs[i], overlayOf(rs[i].allowedIps)))
  }

  /** The contents of the file. */
  function SaveText(rs: seq<Record>, overlayOf: seq<string> -> Option<nat>): string {
    "[\n" + ShowList(ShowAll(rs, overlayOf)) + "\n]\n"
  }

  predicate BracelessRecord(r: Record) {
    && Braceless(r.id) && Braceless(r.name) && Braceless(r.publicKey) && Braceless(r.endpointAddr)
    && (forall i :: 0 <= i < |r.allowedIps| ==> Braceless(r.allowedIps[i]))
    && Braceless(r.addedBy) && Braceless(r.organizationId) && Braceless(r.workspaceId) && Braceless(r.nodeToken)
  }

  lemma {:induction false} ScanBraceless(u: string, t: string, depth: int, cur: Option<string>)
    requires Braceless(u)
    ensures Scan(u + t, depth, cur) == Scan(t, depth, Grow(cur, u))
  {
    hide Scan;
    if u == "" {
      assert u + t == t && Grow(cur, "") == cur by { if cur.Some? { assert cur.value + "" == cur.value; } }
    } else {
      assert (u + t)[1..] == u[1..] + t;
      ScanStep(u + t, depth, cur);
      ScanBraceless(u[1..], t, depth, Grow(cur, [u[0]]));
      assert cur.Some? ==> cur.value + [u[0]] + u[1..] == cur.value + u;
    }
  }

  predicate ObjectText(o: string) {
    |o| >= 2 && o[0] == '{' && o[|o| - 1] == '}' && Braceless(o[1..|o| - 1])
  }

  lemma ShowListHead(objects: seq<string>)
    ensures ShowList(objects)
         == if objects == [] then ""
            else objects[0] + if objects[1..] == [] then "" else ",\n" + ShowList(objects[1..])
  {
    if |objects| == 1 {
      assert objects[0] + "" == objects[0];
    } else if |objects| > 1 {
      assert objects[0] + ",\n" + ShowList(objects[1..]) == objects[0] + (",\n" + ShowList(objects[1..]));
    }
  }

  lemma {:induction false} ItemsBraceless(items: seq<string>)
    requires forall i :: 0 <= i < |items| ==> Braceless(items[i])
    ensures Braceless(ShowItems(items))
  {
    if items != [] {
      EscapesEachCharacter(items[0]);
      EscBraceless(items[0]);
      ItemsBraceless(items[1..]);
    }
  }

  lemma {:induction false} FieldsBraceless(fs: seq<Field>)
    requires forall i :: 0 <= i < |fs| ==> Braceless(fs[i].key) && Braceless(ShowValue(fs[i].value))
    ensures Braceless(ShowFields(fs))
  {
    hide ShowValue;
    if fs != [] {
      FieldsBraceless(fs[1..]);
    }
  }

  lemma RecordIsObject(r: Record, index: Option<nat>)
    requires BracelessRecord(r)
    ensures ObjectText(ToJson(r, index))
  {
    hide ShowFields, FieldsOf, ShowValue;
    var fs := FieldsOf(r, index);
    var body := ShowFields(fs);
    forall i | 0 <= i < |fs|
      ensures Braceless(fs[i].key) && Braceless(ShowValue(fs[i].value))
    {
      KeyIsFieldName(r, index, i);
      FieldNameIsWord(fs[i].key);
      WordHasNoSpecials(fs[i].key);
      FieldBraceless(r, index, i);
    }
    FieldsBraceless(fs);
    assert ("{" + body + "}")[1..|body| + 1] == body;
  }

  predicate BracelessValue(v: Value) {
    match v
    case Text(s) => Braceless(s)
    case Number(_) => true
    case Items(items) => forall i :: 0 <= i < |items| ==> Braceless(items[i])
  }

  lemma FieldBraceless(r: Record, index: Option<nat>, i: nat)
    requires BracelessRecord(r) && i < 13
    ensures Braceless(ShowValue(FieldsOf(r, index)[i].value))
  {
    hide ShowValue, OverlayText, Braceless;
    OverlayBraceless(index);
    ValueBraceless(FieldsOf(r, index)[i].value);
  }

  lemma ValueBraceless(v: Value)
    requires BracelessValue(v)
    ensures Braceless(ShowValue(v))
  {
    hide ShowItems, JsonEsc, Decimal;
    match v
    case Text(s) => TextBraceless(s);
    case Number(n) => DigitsOnly(n);
    case Items(items) => ItemsBraceless(items);
  }

  lemma TrimFile(body: string)
    ensures Trim("[\n" + body + "\n]\n") == "[\n" + body + "\n]"
  {
    var s := "[\n" + body + "\n]\n";
    assert TrimStart(s) == s;
    var t := "[\n" + body + "\n]";
    assert s[..|s| - 1] == t;
    assert TrimEnd(s) == TrimEnd(t) && t[|t| - 1] == ']';
  }

  // ---- Brace depth ---------------------------------------------------------

  function Delta(c: char): int {
    if c == '{' then 1 else if c == '}' then -1 else 0
  }

  function Depth(s: string): int {
    if s == "" then 0 else Delta(s[0]) + Depth(s[1..])
  }

  /** Every brace that opens after the first character closes again before the last: the depth falls to
      zero at the end and not before. */
  ghost predicate Enclosed(o: string) {
    Depth(o) == 0 && forall k :: 0 < k < |o| ==> Depth(o[..k]) >= 1
  }

  lemma DepthHead(s: string, k: nat)
    requires s != "" && 0 < k <= |s|
    ensures Depth(s[..k]) == Delta(s[0]) + Depth(s[1..][..k - 1])
  {
    assert s[..k][1..] == s[1..][..k - 1];
  }

  /** Inside an object, from a depth of at least one: either it closes at the first position where the
      depth falls to zero, or it never does and nothing is found. */
  lemma {:induction false} ScanFrom(s: string, depth: int, c: string) returns (k: nat)
    requires depth >= 1
    ensures k <= |s| && forall j :: 0 <= j <= |s| && (k == 0 || j < k) ==> depth + Depth(s[..j]) >= 1
    ensures k == 0 ==> Scan(s, depth, Some(c)) == []
    ensures k > 0 ==> s[k - 1] == '}' && depth + Depth(s[..k]) == 0
    ensures k > 0 ==> Scan(s, depth, Some(c)) == [c + s[..k]] + Scan(s[k..], 0, None)
  {
    hide Scan;
    if s == "" {
      k := 0;
      ScanEmpty(depth, Some(c));
    } else {
      ScanStep(s, depth, Some(c));
      DepthHead(s, 1);
      assert Depth(s[1..][..0]) == 0 && Depth(s[..0]) == 0;
      if s[0] == '}' && depth == 1 {
        k := 1;
        assert s[..1] == "}";
      } else {
        var k' := ScanFrom(s[1..], depth + Delta(s[0]), c + [s[0]]);
        k := if k' == 0 then 0 else k' + 1;
        forall j | 0 <= j <= |s| && (k == 0 || j < k)
          ensures depth + Depth(s[..j]) >= 1
        {
          if j > 0 {
            DepthHead(s, j);
          }
        }
        if k > 0 {
          DepthHead(s, k);
          assert c + [s[0]] + s[1..][..k'] == c + s[..k] && s[1..][k'..] == s[k..];
        }
      }
    }
  }

  lemma ScanEmpty(depth: int, cur: Option<string>)
    ensures Scan("", depth, cur) == []
  {
  }

  // ---- Counting what can be loaded -----------------------------------------

  function Sofar(cur: Option<string>): string {
    if cur.Some? then cur.value else ""
  }

  function Count(rs: seq<Record>, want: Record -> bool): nat {
    if rs == [] then 0 else (if want(rs[0]) then 1 else 0) + Count(rs[1..], want)
  }

  /** Whatever parses as wanted holds the key with the test passed behind it. */
  ghost predicate Needs(want: Record -> bool, key: string, test: string -> bool) {
    forall o :: ParseObject(o).Some? && want(ParseObject(o).value) ==> Hits(o, key, test) >= 1
  }

  /** What an object passes before its last brace, it passes with more text behind it. */
  ghost predicate Lasting(test: string -> bool) {
    forall o, t :: o != "" && o[|o| - 1] == '}' && test(o) ==> test(o + t)
  }

  /** A text yields no more wanted records than it holds places that they need. */
  lemma {:induction false} WantedAtMostHits(s: string, depth: int, cur: Option<string>, want: Record -> bool,
                                            key: string, test: string -> bool)
    requires Needs(want, key, test) && Lasting(test) && OnlyAtColon(test)
    ensures Count(ParseAll(Scan(s, depth, cur)), want) <= Hits(Sofar(cur) + s, key, test)
    decreases |s|
  {
    hide Scan, Hits, ParseObject, Needs, Lasting, OnlyAtColon, Count, ParseAll;
    if s == "" {
      ScanEmpty(depth, cur);
      NothingCounted(want);
    } else {
      var c, rest := [s[0]], s[1..];
      ScanStep(s, depth, cur);
      SofarGrows(s, cur, key, test);
      assert "" + rest == rest;
      if s[0] == '}' && depth == 1 && cur.Some? {
        WantedAtMostHits(rest, 0, None, want, key, test);
        ClosedAtMostHits(cur.value + "}", Scan(rest, 0, None), rest, want, key, test);
      } else if s[0] == '{' && depth == 0 {
        WantedAtMostHits(rest, 1, Some("{"), want, key, test);
      } else {
        WantedAtMostHits(rest, depth + Delta(s[0]), Grow(cur, c), want, key, test);
      }
    }
  }

  lemma NothingCounted(want: Record -> bool)
    ensures ParseAll([]) == [] && Count([], want) == 0
  {
  }

  /** Taking one character more, or starting over at it, does not add a place. */
  lemma SofarGrows(s: string, cur: Option<string>, key: string, test: string -> bool)
    requires s != ""
    ensures Hits(s, key, test) <= Hits(Sofar(cur) + s, key, test)
    ensures Hits(s[1..], key, test) <= Hits(Sofar(cur) + s, key, test)
    ensures s == [s[0]] + s[1..]
    ensures Hits(Sofar(Grow(cur, [s[0]])) + s[1..], key, test) <= Hits(Sofar(cur) + s, key, test)
    ensures cur.Some? ==> Sofar(cur) + s == (cur.value + [s[0]]) + s[1..]
  {
    hide Hits;
    var c, rest := [s[0]], s[1..];
    HitsSuffix(Sofar(cur), s, key, test);
    assert s == c + rest;
    HitsSuffix(c, rest, key, test);
    match cur
    case Some(text) => Regroup(text, c, rest);
    case None =>
      assert "" + rest == rest && "" + s == s;
  }

  lemma Regroup(a: string, b: string, c: string)
    ensures a + (b + c) == (a + b) + c
  {
  }

  lemma ClosedAtMostHits(o: string, objects: seq<string>, rest: string, want: Record -> bool, key: string,
                         test: string -> bool)
    requires Needs(want, key, test) && Lasting(test) && OnlyAtColon(test)
    requires o != "" && o[|o| - 1] == '}' && Count(ParseAll(objects), want) <= Hits(rest, key, test)
    ensures Count(ParseAll([o] + objects), want) <= Hits(o + rest, key, test)
  {
    hide Hits, ParseObject;
    forall i | 0 <= i <= |o| && test(o[i..])
      ensures test(o[i..] + rest)
    {
      assert ColonNext(o[i..]);
      assert o[i..][|o| - i - 1] == '}';
    }
    HitsAppend(o, rest, key, test);
    ParseAllHead(o, objects);
    CountHead(o, objects, want);
  }

  lemma CountHead(o: string, objects: seq<string>, want: Record -> bool)
    ensures Count(ParseAll([o] + objects), want)
         == (if ParseObject(o).Some? && want(ParseObject(o).value) then 1 else 0) + Count(ParseAll(objects), want)
  {
    hide ParseObject, ParseAll;
    ParseAllHead(o, objects);
    match ParseObject(o)
    case Some(r) => assert ([r] + ParseAll(objects))[1..] == ParseAll(objects);
    case None => assert [] + ParseAll(objects) == ParseAll(objects);
  }

  /** A text yields no more records than it holds identifier keys. */
  lemma LoadedAtMostIds(s: string, depth: int, cur: Option<string>)
    ensures |ParseAll(Scan(s, depth, cur))| <= Ids(Sofar(cur) + s)
  {
    hide Scan, Hits, ParseObject, ColonNext, ParseAll;
    forall o | ParseObject(o).Some?
      ensures Ids(o) >= 1
    {
      ParsedHasId(o);
    }
    forall o, t | ColonNext(o)
      ensures ColonNext(o + t)
    {
      ColonStays(o, t);
    }
    WantedAtMostHits(s, depth, cur, _ => true, "id", ColonNext);
    CountAll(ParseAll(Scan(s, depth, cur)));
  }

  lemma {:induction false} CountAll(rs: seq<Record>)
    ensures Count(rs, _ => true) == |rs|
  {
    if rs != [] {
      CountAll(rs[1..]);
    }
  }

  lemma ParseAllHead(o: string, rest: seq<string>)
    ensures ParseAll([o] + rest) == (match ParseObject(o) case Some(r) => [r] case None => []) + ParseAll(rest)
  {
    hide ParseObject;
    assert ([o] + rest)[1..] == rest;
    assert [] + ParseAll(rest) == ParseAll(rest);
  }

  /** The list with its closing bracket, as the scan meets it after the opening one. */
  function Closing(texts: seq<string>): string {
    ShowList(texts) + "\n]"
  }

  /** What is printed for field j passes the test only in wanted records. */
  ghost predicate Marks(want: Record -> bool, j: nat, test: string -> bool)
    requires j < 13
  {
    forall r, index, t ::
      t != "" && (t[0] == ',' || t[0] == '}') && test(":" + ShowValue(FieldsOf(r, index)[j].value) + t) ==> want(r)
  }

  /** A printed list has no more such places than wanted records. */
  lemma {:induction false} HitsList(rs: seq<Record>, overlayOf: seq<string> -> Option<nat>, want: Record -> bool,
                                    j: nat, key: string, test: string -> bool)
    requires OnlyAtColon(test) && j < 13 && Marks(want, j, test)
    requires forall r, index :: FieldsOf(r, index)[j].key == key
    ensures Hits(Closing(ShowAll(rs, overlayOf)), key, test) <= Count(rs, want)
    decreases |rs|
  {
    hide Hits, ToJson, ShowList, FieldsOf, OnlyAtColon, ShowValue;
    var texts := ShowAll(rs, overlayOf);
    ShowListHead(texts);
    HitsPlain("\n]", "", key, test);
    assert "\n]" + "" == "\n]";
    NoHits(key, test);
    if rs == [] {
      assert "" + "\n]" == "\n]";
    } else {
      var rest := AfterFirst(texts);
      assert Closing(texts) == texts[0] + rest;
      var index := overlayOf(rs[0].allowedIps);
      var tail := HitsRecord(rs[0], index, j, rest, test);
      assert FieldsOf(rs[0], index)[j].key == key;
      RestOfList(rs, overlayOf);
      if |rs| > 1 {
        HitsPlain(",\n", Closing(texts[1..]), key, test);
        HitsList(rs[1..], overlayOf, want, j, key, test);
      }
    }
  }

  lemma NoHits(key: string, test: string -> bool)
    ensures Hits("", key, test) == 0
  {
  }

  lemma IdsList(rs: seq<Record>, overlayOf: seq<string> -> Option<nat>)
    ensures Ids(Closing(ShowAll(rs, overlayOf))) <= |rs|
  {
    hide Hits, ToJson, ShowList, ShowValue, OverlayText;
    HitsList(rs, overlayOf, _ => true, 0, "id", ColonNext);
    CountAll(rs);
  }

  function AfterFirst(texts: seq<string>): string
    requires texts != []
  {
    if texts[1..] == [] then "\n]" else ",\n" + Closing(texts[1..])
  }

  lemma RestOfList(rs: seq<Record>, overlayOf: seq<string> -> Option<nat>)
    requires rs != []
    ensures ShowAll(rs, overlayOf)[1..] == ShowAll(rs[1..], overlayOf)
    ensures Closing(ShowAll(rs, overlayOf)) == ShowAll(rs, overlayOf)[0] + AfterFirst(ShowAll(rs, overlayOf))
  {
    hide ToJson, ShowList;
    ShowListHead(ShowAll(rs, overlayOf));
    assert ShowAll(rs, overlayOf)[1..] == ShowAll(rs[1..], overlayOf);
  }

  lemma ScanAfterFirst(texts: seq<string>)
    requires texts != []
    ensures Scan(AfterFirst(texts), 0, None) == if texts[1..] == [] then [] else Scan(Closing(texts[1..]), 0, None)
  {
    hide Scan, ShowList;
    ScanNothing();
    if texts[1..] == [] {
      ScanBraceless("\n]", "", 0, None);
      assert "\n]" + "" == "\n]";
    } else {
      ScanBraceless(",\n", Closing(texts[1..]), 0, None);
    }
  }

  /** Seen from inside: depth one more, and zero only at the end. */
  lemma EnclosedInside(o: string)
    requires o != "" && o[0] == '{'
    ensures Enclosed(o) <==> 1 + Depth(o[1..]) == 0 && forall j :: 0 <= j < |o| - 1 ==> 1 + Depth(o[1..][..j]) >= 1
  {
    assert o[..|o|] == o && o[1..][..|o| - 1] == o[1..];
    DepthHead(o, |o|);
    forall k | 0 < k < |o|
      ensures Depth(o[..k]) == 1 + Depth(o[1..][..k - 1])
    {
      DepthHead(o, k);
    }
    if forall k :: 0 < k < |o| ==> Depth(o[..k]) >= 1 {
      forall j | 0 <= j < |o| - 1
        ensures 1 + Depth(o[1..][..j]) >= 1
      {
        assert Depth(o[..j + 1]) >= 1;
      }
    }
  }

  /** Where the object that the text opens ends: nowhere, or at position k of the text. */
  lemma FirstObject(t: string, after: string) returns (k: nat)
    requires t != "" && t[0] == '{'
    ensures k <= |t + after|
    ensures k == 0 ==> Scan(t + after, 0, None) == []
    ensures k > 0 ==> (t + after)[k - 1] == '}'
    ensures k > 0 ==> Scan(t + after, 0, None) == [(t + after)[..k]] + Scan((t + after)[k..], 0, None)
    ensures k == |t| <==> Enclosed(t)
  {
    hide Scan, Depth, Enclosed;
    var s := t[1..] + after;
    assert (t + after)[1..] == s;
    ScanStep(t + after, 0, None);
    var k' := ScanFrom(s, 1, "{");
    k := if k' == 0 then 0 else k' + 1;
    if k > 0 {
      assert "{" + s[..k'] == (t + after)[..k] && s[k'..] == (t + after)[k..];
    }
    EnclosedInside(t);
    assert s[..|t| - 1] == t[1..];
    forall j | 0 <= j < |t|
      ensures s[..j] == t[1..][..j]
    {
    }
  }

  /** An enclosed object is split off. */
  lemma ScanEnclosed(o: string, t: string)
    requires Enclosed(o) && o != "" && o[0] == '{'
    ensures Scan(o + t, 0, None) == [o] + Scan(t, 0, None)
  {
    hide Scan, Enclosed;
    var k := FirstObject(o, t);
    assert (o + t)[..|o|] == o && (o + t)[|o|..] == t;
  }

  /** Enclosed objects are split apart exactly. */
  lemma {:induction false} ScanList(objects: seq<string>, t: string)
    requires forall i :: 0 <= i < |objects| ==> Enclosed(objects[i]) && objects[i] != "" && objects[i][0] == '{'
    ensures Scan(ShowList(objects) + t, 0, None) == objects + Scan(t, 0, None)
    decreases |objects|
  {
    hide Scan, ShowList, Enclosed;
    ShowListHead(objects);
    if objects == [] {
      assert "" + t == t && [] + Scan(t, 0, None) == Scan(t, 0, None);
    } else {
      var o, rest := objects[0], objects[1..];
      var tail := if rest == [] then t else ",\n" + (ShowList(rest) + t);
      assert ShowList(objects) + t == o + tail;
      ScanEnclosed(o, tail);
      assert objects == [o] + rest;
      if rest != [] {
        ScanBraceless(",\n", ShowList(rest) + t, 0, None);
        ScanList(rest, t);
        assert [o] + (rest + Scan(t, 0, None)) == objects + Scan(t, 0, None);
      }
    }
  }

  // ---- Loading what was saved ----------------------------------------------

  /** What the whole list loads as once its opening bracket is past. */
  function Loaded(texts: seq<string>): seq<Record> {
    ParseAll(Scan(Closing(texts), 0, None))
  }

  /** A first object that consumes more identifier keys than it yields records leaves too few. */
  lemma TooFew(o: string, rest: string, n: nat)
    requires Ids(o + rest) <= n
    requires Ids(o) >= 2 || (Ids(o) >= 1 && ParseObject(o) == None)
    ensures |ParseAll([o] + Scan(rest, 0, None))| < n
  {
    hide Scan, Ids, ParseObject;
    IdsAppend(o, rest);
    LoadedAtMostIds(rest, 0, None);
    assert "" + rest == rest;
    ParseAllHead(o, Scan(rest, 0, None));
  }

  /** An object that ends inside the first record: too few records, or a first one that is not it. */
  lemma EndsInside(rs: seq<Record>, overlayOf: seq<string> -> Option<nat>, k: nat)
    requires rs != [] && 0 < k < |ShowAll(rs, overlayOf)[0]| && ShowAll(rs, overlayOf)[0][k - 1] == '}'
    ensures var texts := ShowAll(rs, overlayOf);
            ParseAll([texts[0][..k]] + Scan(texts[0][k..] + AfterFirst(texts), 0, None)) != rs
  {
    hide Scan, Ids, ParseObject, ToJson, ShowList;
    var texts := ShowAll(rs, overlayOf);
    var r, index := rs[0], overlayOf(rs[0].allowedIps);
    var o, rest := texts[0][..k], texts[0][k..] + AfterFirst(texts);
    PrefixNotRead(r, index, k);
    ParseAllHead(o, Scan(rest, 0, None));
    if ParseObject(o) == None {
      RestOfList(rs, overlayOf);
      assert o + rest == Closing(texts);
      IdsList(rs, overlayOf);
      CutHasStart(r, index, k);
      StartHasId(o);
      TooFew(o, rest, |rs|);
    }
  }

  lemma CutHasStart(r: Record, index: Option<nat>, k: nat)
    requires 0 < k <= |ToJson(r, index)| && ToJson(r, index)[k - 1] == '}'
    ensures "{\"id\":" <= ToJson(r, index)[..k]
  {
    hide ToJson;
    RecordStarts(r, index);
    assert forall i :: 0 <= i < 6 ==> ToJson(r, index)[i] == "{\"id\":"[i] && "{\"id\":"[i] != '}';
  }

  /** An object that ends after the first record has swallowed the next identifier key. */
  lemma EndsOutside(rs: seq<Record>, overlayOf: seq<string> -> Option<nat>, m: nat)
    requires rs != [] && 0 < m <= |AfterFirst(ShowAll(rs, overlayOf))|
    requires AfterFirst(ShowAll(rs, overlayOf))[m - 1] == '}'
    ensures var texts := ShowAll(rs, overlayOf); var after := AfterFirst(texts);
            |ParseAll([texts[0] + after[..m]] + Scan(after[m..], 0, None))| < |rs|
  {
    hide Scan, Hits, ParseObject, ToJson, ShowList;
    var texts := ShowAll(rs, overlayOf);
    var after := AfterFirst(texts);
    RestOfList(rs, overlayOf);
    IdsList(rs, overlayOf);
    assert (texts[0] + after[..m]) + after[m..] == Closing(texts);
    RecordStarts(rs[0], overlayOf(rs[0].allowedIps));
    StartHasId(texts[0]);
    assert texts[1..] != [];
    RestOfList(rs[1..], overlayOf);
    RecordStarts(rs[1], overlayOf(rs[1].allowedIps));
    NextStarts(texts, m);
    HitsPlain(",\n", after[2..m], "id", ColonNext);
    assert after[..m] == ",\n" + after[2..m];
    StartHasId(after[2..m]);
    IdsAppend(texts[0], after[..m]);
    TooFew(texts[0] + after[..m], after[m..], |rs|);
  }

  lemma NextStarts(texts: seq<string>, m: nat)
    requires |texts| > 1 && "{\"id\":" <= texts[1]
    requires 0 < m <= |AfterFirst(texts)| && AfterFirst(texts)[m - 1] == '}'
    ensures m >= 2 && "{\"id\":" <= AfterFirst(texts)[2..m]
  {
    hide ShowList;
    ShowListHead(texts[1..]);
    var start := ",\n" + "{\"id\":";
    assert texts[1..][0] == texts[1];
    assert start <= AfterFirst(texts);
    assert forall i :: 0 <= i < 8 ==> AfterFirst(texts)[i] == start[i] && start[i] != '}';
    assert AfterFirst(texts)[2..m][..6] == AfterFirst(texts)[2..8] == start[2..];
  }

  /** A list whose first record is not enclosed does not load back. */
  lemma OpenFirst(rs: seq<Record>, overlayOf: seq<string> -> Option<nat>)
    requires rs != [] && !Enclosed(ShowAll(rs, overlayOf)[0])
    ensures Loaded(ShowAll(rs, overlayOf)) != rs
  {
    hide Scan, ParseObject, ToJson, ShowList, Enclosed;
    var texts := ShowAll(rs, overlayOf);
    var t, after := texts[0], AfterFirst(texts);
    RestOfList(rs, overlayOf);
    RecordStarts(rs[0], overlayOf(rs[0].allowedIps));
    assert t[0] == "{\"id\":"[0] == '{';
    var k := FirstObject(t, after);
    if k > |t| {
      var m := k - |t|;
      assert (t + after)[..k] == t + after[..m] && (t + after)[k..] == after[m..];
      EndsOutside(rs, overlayOf, m);
    } else if k > 0 {
      assert (t + after)[..k] == t[..k] && (t + after)[k..] == t[k..] + after;
      EndsInside(rs, overlayOf, k);
    }
  }

  /** With an enclosed first record, the list loads back exactly when it does and the rest does. */
  lemma EnclosedFirst(rs: seq<Record>, overlayOf: seq<string> -> Option<nat>)
    requires rs != [] && Enclosed(ShowAll(rs, overlayOf)[0])
    ensures Loaded(ShowAll(rs, overlayOf)) == rs <==>
      ParseObject(ShowAll(rs, overlayOf)[0]) == Some(rs[0]) && Loaded(ShowAll(rs[1..], overlayOf)) == rs[1..]
  {
    hide Scan, Ids, ParseObject, ToJson, ShowList, Enclosed;
    var texts := ShowAll(rs, overlayOf);
    RestOfList(rs, overlayOf);
    RecordStarts(rs[0], overlayOf(rs[0].allowedIps));
    ScanEnclosed(texts[0], AfterFirst(texts));
    ScanAfterFirst(texts);
    var rest := Scan(AfterFirst(texts), 0, None);
    ParseAllHead(texts[0], rest);
    EmptyLoads();
    assert rs[1..] == [] ==> ShowAll(rs[1..], overlayOf) == [];
    assert ParseAll(rest) == Loaded(ShowAll(rs[1..], overlayOf));
    assert rs == [rs[0]] + rs[1..];
    if ParseObject(texts[0]) == None {
      assert texts[0] + AfterFirst(texts) == Closing(texts);
      IdsList(rs, overlayOf);
      StartHasId(texts[0]);
      TooFew(texts[0], AfterFirst(texts), |rs|);
    } else {
      var r := ParseObject(texts[0]).value;
      assert Loaded(texts) == [r] + ParseAll(rest);
      assert ([r] + ParseAll(rest))[1..] == ParseAll(rest);
    }
  }

  lemma EmptyLoads()
    ensures Loaded([]) == []
  {
    hide Scan;
    ScanNothing();
    ScanBraceless("\n]", "", 0, None);
    assert "\n]" + "" == "\n]" && Closing([]) == "" + "\n]" == "\n]";
  }

  lemma {:induction false} LoadedExactly(rs: seq<Record>, overlayOf: seq<string> -> Option<nat>)
    ensures Loaded(ShowAll(rs, overlayOf)) == rs <==>
      forall i :: 0 <= i < |rs| ==>
        Enclosed(ShowAll(rs, overlayOf)[i]) && ParseObject(ShowAll(rs, overlayOf)[i]) == Some(rs[i])
    decreases |rs|
  {
    hide Loaded, ParseObject, ToJson, Enclosed;
    var texts := ShowAll(rs, overlayOf);
    if rs == [] {
      EmptyLoads();
      assert texts == [];
    } else {
      LoadedExactly(rs[1..], overlayOf);
      RestOfList(rs, overlayOf);
      assert forall i :: 1 <= i < |rs| ==> texts[i] == texts[1..][i - 1] && rs[i] == rs[1..][i - 1];
      if Enclosed(texts[0]) {
        EnclosedFirst(rs, overlayOf);
      } else {
        OpenFirst(rs, overlayOf);
      }
    }
  }

  /** Loading what was saved gives the same list exactly when every printed record is enclosed in its
      own braces and every record survives. */
  lemma ListRoundTrip(rs: seq<Record>, overlayOf: seq<string> -> Option<nat>)
    ensures LoadSpec(SaveText(rs, overlayOf)) == rs <==>
      forall i :: 0 <= i < |rs| ==>
        Enclosed(ToJson(rs[i], overlayOf(rs[i].allowedIps))) && Survives(rs[i], overlayOf(rs[i].allowedIps))
  {
    hide Scan, Trim, ToJson, ParseObject, Survives, ShowList, Enclosed;
    var texts := ShowAll(rs, overlayOf);
    forall i | 0 <= i < |rs|
      ensures ParseObject(texts[i]) == Some(rs[i]) <==> Survives(rs[i], overlayOf(rs[i].allowedIps))
    {
      RecordRoundTrip(rs[i], overlayOf(rs[i].allowedIps));
    }
    FileLoads(rs, overlayOf);
    LoadedExactly(rs, overlayOf);
  }

  lemma FileLoads(rs: seq<Record>, overlayOf: seq<string> -> Option<nat>)
    ensures LoadSpec(SaveText(rs, overlayOf)) == Loaded(ShowAll(rs, overlayOf))
  {
    hide Scan, Trim, ToJson, ShowList, ParseAll;
    var texts := ShowAll(rs, overlayOf);
    TrimFile(ShowList(texts));
    assert "[\n" + ShowList(texts) + "\n]" == "[\n" + Closing(texts);
    ScanBraceless("[\n", Closing(texts), 0, None);
  }

  /** Loading never yields more wanted records than were saved. */
  lemma LoadedAtMostSaved(rs: seq<Record>, overlayOf: seq<string> -> Option<nat>, want: Record -> bool,
                          j: nat, key: string, test: string -> bool)
    requires Needs(want, key, test) && Lasting(test) && OnlyAtColon(test)
    requires j < 13 && Marks(want, j, test) && forall r, index :: FieldsOf(r, index)[j].key == key
    ensures Count(LoadSpec(SaveText(rs, overlayOf)), want) <= Count(rs, want)
  {
    hide LoadSpec, SaveText, Scan, Hits, Needs, Lasting, OnlyAtColon, Marks, FieldsOf, ParseAll, Count, ToJson;
    var text := Closing(ShowAll(rs, overlayOf));
    FileLoads(rs, overlayOf);
    WantedAtMostHits(text, 0, None, want, key, test);
    assert "" + text == text;
    HitsList(rs, overlayOf, want, j, key, test);
  }

  /** Every printed record is kept apart from its neighbours, and has an identifier. */
  ghost predicate Separable(rs: seq<Record>, overlayOf: seq<string> -> Option<nat>) {
    forall i :: 0 <= i < |rs| ==> rs[i].id != "" && Enclosed(ToJson(rs[i], overlayOf(rs[i].allowedIps)))
  }

  /** Then the list loads record by record. */
  lemma LoadsEach(rs: seq<Record>, overlayOf: seq<string> -> Option<nat>)
    requires Separable(rs, overlayOf)
    ensures var loaded := LoadSpec(SaveText(rs, overlayOf));
            |loaded| == |rs| && forall i :: 0 <= i < |rs| ==>
              ParseObject(ToJson(rs[i], overlayOf(rs[i].allowedIps))) == Some(loaded[i])
  {
    hide LoadSpec, SaveText, Scan, ToJson, ShowList, ParseObject, ParseAll, Enclosed;
    var texts := ShowAll(rs, overlayOf);
    FileLoads(rs, overlayOf);
    forall i | 0 <= i < |rs|
      ensures texts[i] != "" && texts[i][0] == '{' && ParseObject(texts[i]).Some?
    {
      RecordStarts(rs[i], overlayOf(rs[i].allowedIps));
      assert "{\"id\":"[0] == '{';
      RecordRoundTrip(rs[i], overlayOf(rs[i].allowedIps));
    }
    ScanList(texts, "\n]");
    ScanBraceless("\n]", "", 0, None);
    assert "\n]" + "" == "\n]";
    ScanNothing();
    assert texts + [] == texts;
    ParseEach(texts);
  }

  lemma {:induction false} ParseEach(objects: seq<string>)
    requires forall i :: 0 <= i < |objects| ==> ParseObject(objects[i]).Some?
    ensures |ParseAll(objects)| == |objects|
    ensures forall i :: 0 <= i < |objects| ==> ParseObject(objects[i]) == Some(ParseAll(objects)[i])
  {
    hide ParseObject;
    if objects != [] {
      ParseEach(objects[1..]);
      assert forall i :: 1 <= i < |objects| ==> objects[i] == objects[1..][i - 1];
    }
  }

  lemma {:induction false} BracelessDepth(u: string)
    requires Braceless(u)
    ensures Depth(u) == 0 && forall j :: 0 <= j <= |u| ==> Depth(u[..j]) == 0
  {
    if u != "" {
      BracelessDepth(u[1..]);
      forall j | 0 <= j <= |u|
        ensures Depth(u[..j]) == 0
      {
        if j > 0 {
          DepthHead(u, j);
        }
      }
    }
  }

  /** A record whose values have no braces is enclosed. */
  lemma ObjectEnclosed(o: string)
    requires ObjectText(o)
    ensures Enclosed(o)
  {
    hide Enclosed;
    var body := o[1..|o| - 1];
    BracelessDepth(body);
    assert o[1..] == body + "}";
    DepthClose(body);
    forall j | 0 <= j < |o| - 1
      ensures 1 + Depth(o[1..][..j]) >= 1
    {
      assert o[1..][..j] == body[..j];
    }
    EnclosedInside(o);
  }

  lemma {:induction false} DepthClose(u: string)
    ensures Depth(u + "}") == Depth(u) - 1
  {
    if u == "" {
      assert u + "}" == "}";
      assert "}"[1..] == "";
    } else {
      assert (u + "}")[1..] == u[1..] + "}";
      DepthClose(u[1..]);
    }
  }

  /** Records without braces are kept apart. */
  lemma BracelessIsSeparable(rs: seq<Record>, overlayOf: seq<string> -> Option<nat>)
    requires forall i :: 0 <= i < |rs| ==> rs[i].id != "" && BracelessRecord(rs[i])
    ensures Separable(rs, overlayOf)
  {
    hide ToJson, Enclosed, ObjectText, BracelessRecord;
    forall i | 0 <= i < |rs|
      ensures Enclosed(ToJson(rs[i], overlayOf(rs[i].allowedIps)))
    {
      RecordIsObject(rs[i], overlayOf(rs[i].allowedIps));
      ObjectEnclosed(ToJson(rs[i], overlayOf(rs[i].allowedIps)));
    }
  }

  lemma ScanNothing()
    ensures Scan("", 0, None) == []
  {
  }

  // ---- A condition that is easy to meet ------------------------------------

  /** No line break, not a field name, and not ending in a quote followed by one. */
  predicate SafeText(s: string) {
    NoBreaks(s) && forall i :: 0 <= i <= |s| && (i == 0 || s[i - 1] == QUOTE) ==> !FieldName(s[i..])
  }

  predicate SafeRecord(r: Record) {
    && SafeText(r.id) && SafeText(r.name) && SafeText(r.publicKey) && SafeText(r.endpointAddr)
    && (forall i :: 0 <= i < |r.allowedIps| ==> SafeText(r.allowedIps[i]))
    && SafeText(r.addedBy) && SafeText(r.organizationId) && SafeText(r.workspaceId) && SafeText(r.nodeToken)
  }

  lemma SafeDoesNotConfuse(s: string, key: string)
    requires SafeText(s) && FieldName(key)
    ensures !Confuses(s, key)
  {
    if Confuses(s, key) {
      ConfusedIsUnsafe(s, key);
    }
  }

  lemma ConfusedIsUnsafe(s: string, key: string)
    requires Confuses(s, key) && FieldName(key)
    ensures !SafeText(s)
  {
    hide FieldName, Confuses;
    ConfusesSuffix(s, key);
    assert FieldName(s[|s| - |key|..]);
  }

  lemma ConfusesSuffix(s: string, key: string)
    requires Confuses(s, key)
    ensures |key| <= |s| && s[|s| - |key|..] == key
    ensures |s| == |key| || s[|s| - |key| - 1] == QUOTE
  {
    var i := |s| - |key|;
    assert ([QUOTE] + s)[i..][1..] == ([QUOTE] + key)[1..] == key;
    assert ([QUOTE] + s)[i..][1..] == s[i..];
    assert ([QUOTE] + s)[i..][0] == QUOTE;
  }

  lemma OverlayDoesNotConfuse(index: Option<nat>, key: string)
    requires FieldName(key)
    ensures !Confuses(OverlayText(index), key)
  {
    hide FieldName, OverlayText;
    OverlayBraceless(index);
    FieldNameIsWord(key);
    var s := OverlayText(index);
    if Confuses(s, key) {
      ConfusesChar(s, key, 0);
    }
  }

  /** Nothing printed for a record with safe texts is taken for a field name. */
  lemma SafeUnshadowed(r: Record, index: Option<nat>, j: nat)
    requires SafeRecord(r) && j < 13
    ensures !Shadowed(FieldsOf(r, index), j)
  {
    hide FieldName, OverlayText, Confuses, SafeText;
    var fs := FieldsOf(r, index);
    KeyIsFieldName(r, index, j);
    forall i | 0 <= i < j
      ensures !ConfusesValue(fs[i].value, fs[j].key)
    {
      match fs[i].value
      case Text(s) =>
        if i == 4 {
          OverlayDoesNotConfuse(index, fs[j].key);
        } else {
          SafeDoesNotConfuse(s, fs[j].key);
        }
      case Number(_) =>
      case Items(items) =>
        forall k | 0 <= k < |items|
          ensures !Confuses(items[k], fs[j].key)
        {
          SafeDoesNotConfuse(items[k], fs[j].key);
        }
    }
  }

  /** Records whose texts are safe, with a non-empty identifier, survive. */
  lemma SafeSurvives(r: Record, index: Option<nat>)
    requires r.id != "" && SafeRecord(r) && PlainItems(r.allowedIps)
    ensures Survives(r, index)
  {
    hide OverlayText, SafeText, Shadowed;
    var fs := FieldsOf(r, index);
    forall j | 0 <= j < 13
      ensures !Shadowed(fs, j)
    {
      SafeUnshadowed(r, index, j);
    }
    SafeHasNoBreaks(r);
  }

  lemma SafeHasNoBreaks(r: Record)
    requires SafeRecord(r)
    ensures NoBreaks(r.id) && NoBreaks(r.name) && NoBreaks(r.publicKey) && NoBreaks(r.endpointAddr)
    ensures NoBreaks(r.addedBy) && NoBreaks(r.organizationId) && NoBreaks(r.workspaceId) && NoBreaks(r.nodeToken)
  {
  }

  /** Saving then loading a list of safe records returns it unchanged. */
  lemma SafeListLoads(rs: seq<Record>, overlayOf: seq<string> -> Option<nat>)
    requires forall i :: 0 <= i < |rs| ==>
      rs[i].id != "" && BracelessRecord(rs[i]) && PlainItems(rs[i].allowedIps) && SafeRecord(rs[i])
    ensures LoadSpec(SaveText(rs, overlayOf)) == rs
  {
    hide LoadSpec, SaveText, Survives, BracelessRecord, PlainItems, SafeRecord, ToJson, Enclosed;
    ListRoundTrip(rs, overlayOf);
    BracelessIsSeparable(rs, overlayOf);
    forall i | 0 <= i < |rs|
      ensures Survives(rs[i], overlayOf(rs[i].allowedIps))
    {
      SafeSurvives(rs[i], overlayOf(rs[i].allowedIps));
    }
  }
}
