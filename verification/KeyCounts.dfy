/** How often a key stands in a text with something wanted behind it: whatever loads from a text needs
    such a place, and a printed record has one per key. */
module KeyCounts {
  import opened Options
  import opened JsonText
  import opened Endpoints
  import opened EndpointJson

  predicate ColonNext(s: string) {
    var r := TrimStart(s);
    r != "" && r[0] == ':'
  }

  /** The key starts here, quoted, and what follows passes the test. */
  predicate KeyAt(s: string, key: string, test: string -> bool) {
    |s| >= |key| + 2 && s[..|key| + 2] == Needle(key) && test(s[|key| + 2..])
  }

  function Hits(s: string, key: string, test: string -> bool): nat {
    if s == "" then 0 else (if KeyAt(s, key, test) then 1 else 0) + Hits(s[1..], key, test)
  }

  /** The test wants a colon next, as after a field name and never after a value. */
  ghost predicate OnlyAtColon(test: string -> bool) {
    forall t :: test(t) ==> ColonNext(t)
  }

  /** Identifier keys. */
  function Ids(s: string): nat {
    Hits(s, "id", ColonNext)
  }

  // ---- Cutting and joining -------------------------------------------------

  lemma {:induction false} HitsSuffix(a: string, s: string, key: string, test: string -> bool)
    ensures Hits(s, key, test) <= Hits(a + s, key, test)
  {
    hide KeyAt;
    if a == "" {
      assert a + s == s;
    } else {
      assert (a + s)[1..] == a[1..] + s;
      HitsSuffix(a[1..], s, key, test);
    }
  }

  lemma {:induction false} HitsAppend(a: string, b: string, key: string, test: string -> bool)
    requires forall i :: 0 <= i <= |a| && test(a[i..]) ==> test(a[i..] + b)
    ensures Hits(a + b, key, test) >= Hits(a, key, test) + Hits(b, key, test)
  {
    if a == "" {
      assert a + b == b;
    } else {
      assert (a + b)[1..] == a[1..] + b;
      assert forall i :: 0 <= i <= |a[1..]| ==> a[1..][i..] == a[i + 1..];
      HitsAppend(a[1..], b, key, test);
      KeyAtAppend(a, b, key, test);
    }
  }

  lemma KeyAtAppend(a: string, b: string, key: string, test: string -> bool)
    requires forall i :: 0 <= i <= |a| && test(a[i..]) ==> test(a[i..] + b)
    ensures KeyAt(a, key, test) ==> KeyAt(a + b, key, test)
  {
    var n := |key| + 2;
    if KeyAt(a, key, test) {
      assert (a + b)[..n] == a[..n] && (a + b)[n..] == a[n..] + b;
    }
  }

  lemma {:induction false} TrimStartAppend(a: string, b: string)
    ensures TrimStart(a) != "" ==> TrimStart(a + b) == TrimStart(a) + b
  {
    if a != "" && Whitespace(a[0]) {
      assert (a + b)[1..] == a[1..] + b;
      TrimStartAppend(a[1..], b);
    }
  }

  lemma ColonStays(a: string, b: string)
    ensures ColonNext(a) ==> ColonNext(a + b)
  {
    TrimStartAppend(a, b);
  }

  lemma IdsAppend(a: string, b: string)
    ensures Ids(a + b) >= Ids(a) + Ids(b)
  {
    forall i | 0 <= i <= |a|
      ensures ColonNext(a[i..]) ==> ColonNext(a[i..] + b)
    {
      ColonStays(a[i..], b);
    }
    HitsAppend(a, b, "id", ColonNext);
  }

  /** A search that finds the key with what is wanted behind it has found such a place. */
  lemma {:induction false} FoundIsHit(s: string, rest: string, key: string, test: string -> bool)
    requires After(s, Needle(key)) == Some(rest) && test(rest)
    ensures Hits(s, key, test) >= 1
  {
    if s[..|key| + 2] != Needle(key) {
      FoundIsHit(s[1..], rest, key, test);
    }
  }

  /** Whatever parses holds an identifier key. */
  lemma ParsedHasId(o: string)
    ensures ParseObject(o).Some? ==> Ids(o) >= 1
  {
    hide After, Hits, StrEnd, Unescape, ExtractStrArray, ObjU64;
    match After(o, Needle("id"))
    case None =>
    case Some(rest) =>
      if ColonNext(rest) {
        FoundIsHit(o, rest, "id", ColonNext);
      }
  }

  // ---- What a printed record adds ------------------------------------------

  lemma {:induction false} HitsPlain(u: string, t: string, key: string, test: string -> bool)
    requires QUOTE !in u
    ensures Hits(u + t, key, test) == Hits(t, key, test)
  {
    if u == "" {
      assert u + t == t;
    } else {
      var n := |key| + 2;
      assert (u + t)[1..] == u[1..] + t;
      assert |u + t| >= n ==> (u + t)[..n][0] == u[0] && Needle(key)[0] == QUOTE;
      HitsPlain(u[1..], t, key, test);
    }
  }

  lemma HitsQuoted(u: string, t: string, key: string, test: string -> bool)
    requires QUOTE !in u && Word(key) && t != "" && t[0] == QUOTE
    ensures Hits([QUOTE] + u + t, key, test)
         <= (if u == key && test(t[1..]) then 1 else 0) + Hits(t, key, test)
  {
    var s, n := [QUOTE] + u + t, |key| + 2;
    assert s[1..] == u + t;
    HitsPlain(u, t, key, test);
    if |s| >= n && s[..n] == Needle(key) {
      NeedleInFront(u, t, key);
      assert s[n..] == t[1..];
    }
  }

  lemma HitsLoneQuote(x: string, key: string, test: string -> bool)
    requires Word(key) && key != "" && x != "" && !WordChar(x[0])
    ensures Hits([QUOTE] + x, key, test) == Hits(x, key, test)
  {
    var s, n := [QUOTE] + x, |key| + 2;
    assert s[1..] == x;
    assert WordChar(key[0]);
    assert |s| >= n ==> s[..n][1] == x[0] && Needle(key)[1] == key[0];
  }

  /** A quoted text that no colon follows adds nothing. */
  lemma {:induction false} HitsText(s: string, t: string, key: string, test: string -> bool)
    requires OnlyAtColon(test) && Word(key) && !ColonNext(t)
    ensures Hits([QUOTE] + Esc(s) + [QUOTE] + t, key, test) <= Hits([QUOTE] + t, key, test)
    decreases |s|
  {
    hide Esc, Hits, ColonNext;
    WordHasNoSpecials(key);
    var i := FirstQuote(s);
    if i == |s| {
      assert s[..i] == s;
      EscQuoteFree(s);
      assert [QUOTE] + Esc(s) + [QUOTE] + t == [QUOTE] + Esc(s) + ([QUOTE] + t);
      assert ([QUOTE] + t)[1..] == t;
      HitsQuoted(Esc(s), [QUOTE] + t, key, test);
    } else {
      var a, b := s[..i], s[i + 1..];
      assert s == a + ([QUOTE] + b);
      EscAppend(a, [QUOTE] + b);
      EscAppend([QUOTE], b);
      EscOneQuote();
      EscQuoteFree(a);
      var u := Esc(a) + [BACKSLASH];
      var rest := [QUOTE] + Esc(b) + [QUOTE] + t;
      assert [QUOTE] + Esc(s) + [QUOTE] + t == [QUOTE] + u + rest;
      assert u[|u| - 1] == BACKSLASH;
      HitsQuoted(u, rest, key, test);
      HitsText(b, t, key, test);
    }
  }

  /** From the quote before a list, or between its entries. */
  lemma {:induction false} HitsItems(u: string, items: seq<string>, x: string, key: string, test: string -> bool)
    requires OnlyAtColon(test) && Word(key) && key != ""
    requires QUOTE !in u && x != "" && x[0] == ']'
    requires u == "" || u[0] == ':' || u[0] == ','
    requires u == "" ==> items == []
    ensures Hits([QUOTE] + u + ShowItems(items) + x, key, test) <= Hits(x, key, test)
    decreases |items|
  {
    hide Hits, Esc, ShowItems, Word, OnlyAtColon;
    if items == [] {
      NoItems();
      assert [QUOTE] + u + "" + x == [QUOTE] + (u + x);
      assert (u + x)[0] == if u == "" then ']' else u[0];
      HitsLoneQuote(u + x, key, test);
      HitsPlain(u, x, key, test);
    } else {
      var e, rest := items[0], items[1..];
      var u' := if rest == [] then "" else ",";
      var tail := MoreItems(rest) + x;
      ItemHead(items);
      assert [QUOTE] + u + ShowItems(items) + x == [QUOTE] + u + ([QUOTE] + Esc(e) + [QUOTE] + tail);
      assert u[0] in u;
      NotAWord(u, key);
      HitsQuoted(u, [QUOTE] + Esc(e) + [QUOTE] + tail, key, test);
      NoItems();
      assert MoreItems(rest) == u' + ShowItems(rest);
      assert tail[0] == ',' || tail[0] == ']';
      HitsText(e, tail, key, test);
      assert [QUOTE] + tail == [QUOTE] + u' + ShowItems(rest) + x;
      HitsItems(u', rest, x, key, test);
    }
  }

  /** A printed field adds one at most, and only when it is the field of that name. */
  lemma HitsField(f: Field, x: string, key: string, test: string -> bool)
    requires OnlyAtColon(test) && Word(key) && key != ""
    requires Word(f.key) && x != "" && (x[0] == ',' || x[0] == '}')
    ensures Hits(ShowField(f) + x, key, test)
         <= (if f.key == key && test(":" + ShowValue(f.value) + x) then 1 else 0) + Hits(x, key, test)
  {
    hide Hits, ShowValue;
    WordHasNoSpecials(f.key);
    var rest := [QUOTE] + ":" + ShowValue(f.value) + x;
    assert ShowField(f) + x == [QUOTE] + f.key + rest;
    assert rest[1..] == ":" + ShowValue(f.value) + x;
    HitsQuoted(f.key, rest, key, test);
    HitsValue(f.value, x, key, test);
  }

  lemma HitsValue(v: Value, x: string, key: string, test: string -> bool)
    requires OnlyAtColon(test) && Word(key) && key != ""
    requires x != "" && (x[0] == ',' || x[0] == '}')
    ensures Hits([QUOTE] + ":" + ShowValue(v) + x, key, test) <= Hits(x, key, test)
  {
    hide Hits, Esc, JsonEsc, ShowItems, Decimal, Word, OnlyAtColon;
    var rest := [QUOTE] + ":" + ShowValue(v) + x;
    match v
    case Text(s) =>
      EscapesEachCharacter(s);
      assert rest == [QUOTE] + ":" + ([QUOTE] + Esc(s) + [QUOTE] + x);
      assert ":"[0] in ":";
      NotAWord(":", key);
      HitsQuoted(":", [QUOTE] + Esc(s) + [QUOTE] + x, key, test);
      HitsText(s, x, key, test);
      HitsLoneQuote(x, key, test);
    case Number(n) =>
      DigitsOnly(n);
      var digits := ShowValue(v);
      assert rest == [QUOTE] + (":" + digits + x);
      HitsLoneQuote(":" + digits + x, key, test);
      HitsPlain(":" + digits, x, key, test);
    case Items(items) =>
      assert rest == [QUOTE] + ":[" + ShowItems(items) + ("]" + x);
      HitsItems(":[", items, "]" + x, key, test);
      HitsPlain("]", x, key, test);
  }

  lemma {:induction false} HitsOthers(fs: seq<Field>, x: string, key: string, test: string -> bool)
    requires OnlyAtColon(test) && Word(key) && key != ""
    requires forall i :: 0 <= i < |fs| ==> Word(fs[i].key) && fs[i].key != key
    requires x != "" && x[0] == '}'
    ensures Hits(ShowFields(fs) + x, key, test) <= Hits(x, key, test)
  {
    hide Hits, ShowField, Word, OnlyAtColon;
    if fs == [] {
      assert ShowFields(fs) + x == x;
    } else if |fs| == 1 {
      HitsField(fs[0], x, key, test);
    } else {
      var rest := "," + (ShowFields(fs[1..]) + x);
      assert ShowFields(fs) + x == ShowField(fs[0]) + rest;
      HitsField(fs[0], rest, key, test);
      HitsPlain(",", ShowFields(fs[1..]) + x, key, test);
      HitsOthers(fs[1..], x, key, test);
    }
  }

  /** Printed fields add one at most for the name of field j, and only when what is printed for that
      field passes the test. */
  lemma {:induction false} HitsFields(fs: seq<Field>, j: nat, x: string, test: string -> bool) returns (tail: string)
    requires OnlyAtColon(test) && WellFormed(fs) && j < |fs| && fs[j].key != ""
    requires x != "" && x[0] == '}'
    ensures tail != "" && (tail[0] == ',' || tail[0] == '}')
    ensures Hits(ShowFields(fs) + x, fs[j].key, test)
         <= (if test(":" + ShowValue(fs[j].value) + tail) then 1 else 0) + Hits(x, fs[j].key, test)
    decreases |fs|
  {
    hide Hits, ShowField, ShowValue, Word, OnlyAtColon;
    var key := fs[j].key;
    var after := ShowFields(fs[1..]) + x;
    tail := if |fs| == 1 then x else "," + after;
    assert ShowFields(fs) + x == ShowField(fs[0]) + tail;
    HitsField(fs[0], tail, key, test);
    if |fs| > 1 {
      HitsPlain(",", after, key, test);
      if j == 0 {
        HitsOthers(fs[1..], x, key, test);
      } else {
        tail := HitsFields(fs[1..], j - 1, x, test);
      }
    }
  }

  /** The same for a whole record. */
  lemma HitsRecord(r: Record, index: Option<nat>, j: nat, x: string, test: string -> bool) returns (tail: string)
    requires OnlyAtColon(test) && j < 13
    ensures tail != "" && (tail[0] == ',' || tail[0] == '}')
    ensures var f := FieldsOf(r, index)[j];
            Hits(ToJson(r, index) + x, f.key, test)
            <= (if test(":" + ShowValue(f.value) + tail) then 1 else 0) + Hits(x, f.key, test)
  {
    hide Hits, ShowFields, ShowValue, FieldsOf, OnlyAtColon, FieldName;
    var fs := FieldsOf(r, index);
    RecordFieldsWellFormed(r, index);
    KeyIsFieldName(r, index, j);
    FieldNameIsWord(fs[j].key);
    assert ToJson(r, index) + x == "{" + (ShowFields(fs) + ("}" + x));
    HitsPlain("{", ShowFields(fs) + ("}" + x), fs[j].key, test);
    tail := HitsFields(fs, j, "}" + x, test);
    HitsPlain("}", x, fs[j].key, test);
  }

  /** A printed record adds one identifier key at most. */
  lemma IdsRecord(r: Record, index: Option<nat>, x: string)
    ensures Ids(ToJson(r, index) + x) <= 1 + Ids(x)
  {
    hide Hits, ToJson, ShowValue, OverlayText;
    var tail := HitsRecord(r, index, 0, x, ColonNext);
  }

  /** Every printed record starts with its identifier key, before any closing brace. */
  lemma RecordStarts(r: Record, index: Option<nat>)
    ensures "{\"id\":" <= ToJson(r, index)
  {
    hide OverlayText, ShowValue;
    var fs := FieldsOf(r, index);
    assert ToJson(r, index) == "{\"id\":" + ToJson(r, index)[6..];
  }

  lemma StartHasId(o: string)
    requires "{\"id\":" <= o
    ensures Ids(o) >= 1
  {
    hide Hits;
    assert o == "{" + o[1..];
    OneHere(o[1..]);
    HitsPlain("{", o[1..], "id", ColonNext);
  }

  lemma OneHere(s: string)
    requires |s| >= 5 && s[..4] == Needle("id") && s[4] == ':'
    ensures Ids(s) >= 1
  {
    assert s[4..][0] == ':';
    assert KeyAt(s, "id", ColonNext);
  }
}
