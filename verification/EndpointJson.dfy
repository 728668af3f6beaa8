/** The endpoint store of the control plane: each record printed as one flat JSON object, the list
    split back by brace depth, every field found by searching for its quoted name. */
module EndpointJson {
  import opened Words
  import opened Options
  import opened JsonText
  import opened Endpoints
  import opened OverlayAddress

  datatype Value = Text(s: string) | Number(n: u64) | Items(items: seq<string>)
  datatype Field = Field(key: string, value: Value)

  // ---- Printing ------------------------------------------------------------

  function ShowItems(items: seq<string>): string {
    if items == [] then ""
    else if |items| == 1 then [QUOTE] + JsonEsc(items[0]) + [QUOTE]
    else [QUOTE] + JsonEsc(items[0]) + [QUOTE] + "," + ShowItems(items[1..])
  }

  function ShowValue(v: Value): string {
    match v
    case Text(s) => [QUOTE] + JsonEsc(s) + [QUOTE]
    case Number(n) => Decimal(n as nat)
    case Items(items) => "[" + ShowItems(items) + "]"
  }

  function ShowField(f: Field): string {
    [QUOTE] + f.key + [QUOTE] + ":" + ShowValue(f.value)
  }

  function ShowFields(fs: seq<Field>): string {
    if fs == [] then ""
    else if |fs| == 1 then ShowField(fs[0])
    else ShowField(fs[0]) + "," + ShowFields(fs[1..])
  }

  /** The overlay address of an index, or nothing. */
  function OverlayText(index: Option<nat>): string {
    match index
    case Some(i) => AddressText(i)
    case None => ""
  }

  function FieldsOf(r: Record, index: Option<nat>): (fs: seq<Field>)
    ensures |fs| == 13
  {
    [Field("id", Text(r.id)),
     Field("name", Text(r.name)),
     Field("public_key", Text(r.publicKey)),
     Field("endpoint", Text(r.endpointAddr)),
     Field("overlay_ipv4", Text(OverlayText(index))),
     Field("allowed_ips", Items(r.allowedIps)),
     Field("added_by", Text(r.addedBy)),
     Field("added_at", Number(r.addedAt)),
     Field("organization_id", Text(r.organizationId)),
     Field("workspace_id", Text(r.workspaceId)),
     Field("revoked_at", Number(r.revokedAt)),
     Field("token_rotated_at", Number(r.tokenRotatedAt)),
     Field("node_token", Text(r.nodeToken))]
  }

  function ShowObject(fs: seq<Field>): string {
    "{" + ShowFields(fs) + "}"
  }

  function ToJson(r: Record, index: Option<nat>): string {
    ShowObject(FieldsOf(r, index))
  }

  // ---- Parsing -------------------------------------------------------------

  function OrEmpty(r: Option<string>): string {
    if r.Some? then r.value else ""
  }

  function ParseObject(obj: string): Option<Record> {
    var id := OrEmpty(ExtractStr(obj, "id"));
    if id == "" then None
    else
      Some(Record(id,
                  OrEmpty(ExtractStr(obj, "name")),
                  OrEmpty(ExtractStr(obj, "public_key")),
                  OrEmpty(ExtractStr(obj, "endpoint")),
                  ExtractStrArray(obj, "allowed_ips"),
                  OrEmpty(ExtractStr(obj, "added_by")),
                  ObjU64(obj, "added_at"),
                  OrEmpty(ExtractStr(obj, "organization_id")),
                  OrEmpty(ExtractStr(obj, "workspace_id")),
                  ObjU64(obj, "revoked_at"),
                  ObjU64(obj, "token_rotated_at"),
                  OrEmpty(ExtractStr(obj, "node_token"))))
  }

  // ---- Searching for a key -------------------------------------------------

  predicate WordChar(c: char) {
    'a' <= c <= 'z' || '0' <= c <= '9' || c == '_'
  }

  predicate Word(key: string) {
    forall i :: 0 <= i < |key| ==> WordChar(key[i])
  }

  /** An unquoted stretch is passed over. */
  lemma {:induction false} SkipPlain(u: string, t: string, key: string)
    requires QUOTE !in u
    ensures After(u + t, Needle(key)) == After(t, Needle(key))
  {
    if u == "" {
      assert u + t == t;
    } else {
      assert (u + t)[1..] == u[1..] + t;
      assert |u + t| >= |Needle(key)| ==> (u + t)[..|Needle(key)|][0] == u[0] && Needle(key)[0] == QUOTE;
      SkipPlain(u[1..], t, key);
    }
  }

  lemma NeedleInFront(u: string, t: string, key: string)
    requires QUOTE !in u && Word(key) && t != "" && t[0] == QUOTE && |key| < |u + t|
    requires ([QUOTE] + u + t)[..|key| + 2] == Needle(key)
    ensures u == key
  {
    var s, n := [QUOTE] + u + t, Needle(key);
    assert |key| > |u| ==> WordChar(key[|u|]);
    assert s[1 + |u|] == QUOTE;
    assert forall j :: 0 <= j < |u| ==> s[1 + j] == u[j];
    assert s[1 + |key|] == s[..|n|][1 + |key|] == QUOTE;
    assert forall j :: 0 <= j < |key| ==> s[1 + j] == s[..|n|][1 + j] == key[j];
  }

  /** A stretch between two quotes is passed over unless it is the key. */
  lemma SkipQuoted(u: string, t: string, key: string)
    requires QUOTE !in u && Word(key) && u != key && t != "" && t[0] == QUOTE
    ensures After([QUOTE] + u + t, Needle(key)) == After(t, Needle(key))
  {
    var s, n := [QUOTE] + u + t, Needle(key);
    if |s| >= |n| && s[..|n|] == n {
      NeedleInFront(u, t, key);
    }
    assert s[1..] == u + t;
    SkipPlain(u, t, key);
  }

  lemma FindQuoted(t: string, key: string)
    ensures After([QUOTE] + key + [QUOTE] + t, Needle(key)) == Some(t)
  {
    var s := [QUOTE] + key + [QUOTE] + t;
    assert s[..|key| + 2] == Needle(key) && s[|key| + 2..] == t;
  }

  /** A text that is a key, or ends in a quote followed by one, is taken for the key itself. */
  predicate Confuses(s: string, key: string) {
    |key| <= |s| && ([QUOTE] + s)[|s| - |key|..] == [QUOTE] + key
  }

  lemma {:induction false} EscPlain(s: string)
    requires BACKSLASH !in Esc(s)
    ensures Esc(s) == s && QUOTE !in s
  {
    if s != "" {
      assert Esc(s) == EscChar(s[0]) + Esc(s[1..]);
      assert EscChar(s[0])[0] in Esc(s);
      EscPlain(s[1..]);
      assert s == [s[0]] + s[1..];
    }
  }

  lemma {:induction false} EscQuoteFree(s: string)
    requires QUOTE !in s
    ensures QUOTE !in Esc(s)
    ensures BACKSLASH !in s && NoBreaks(s) ==> Esc(s) == s
  {
    if s != "" {
      EscQuoteFree(s[1..]);
      assert s == [s[0]] + s[1..];
    }
  }

  lemma {:induction false} EscAppend(a: string, b: string)
    ensures Esc(a + b) == Esc(a) + Esc(b)
  {
    if a == "" {
      assert a + b == b;
    } else {
      assert (a + b)[1..] == a[1..] + b;
      EscAppend(a[1..], b);
    }
  }

  function FirstQuote(s: string): (i: nat)
    ensures i <= |s| && QUOTE !in s[..i]
    ensures i < |s| ==> s[i] == QUOTE
  {
    if s == "" || s[0] == QUOTE then 0 else 1 + FirstQuote(s[1..])
  }

  lemma WordHasNoSpecials(key: string)
    requires Word(key)
    ensures QUOTE !in key && BACKSLASH !in key && ',' !in key && ':' !in key && ']' !in key && NoBreaks(key)
    ensures '{' !in key && '}' !in key
  {
    forall c | c in key
      ensures WordChar(c)
    {
    }
  }

  /** A quoted value is passed over, or taken for the key. */
  lemma {:induction false} SkipText(s: string, t: string, key: string)
    requires Word(key)
    ensures After([QUOTE] + Esc(s) + [QUOTE] + t, Needle(key))
         == if Confuses(s, key) then Some(t) else After([QUOTE] + t, Needle(key))
    decreases |s|
  {
    hide Esc, After;
    WordHasNoSpecials(key);
    var i := FirstQuote(s);
    if i == |s| {
      assert s[..i] == s;
      EscQuoteFree(s);
      assert [QUOTE] + Esc(s) + [QUOTE] + t == [QUOTE] + Esc(s) + ([QUOTE] + t);
      ConfusesPlain(s, key);
      if s == key {
        EscQuoteFree(key);
        FindQuoted(t, key);
      } else {
        if Esc(s) == key {
          EscPlain(s);
        }
        SkipQuoted(Esc(s), [QUOTE] + t, key);
      }
    } else {
      var a, b := s[..i], s[i + 1..];
      assert s == a + ([QUOTE] + b);
      EscAppend(a, [QUOTE] + b);
      EscAppend([QUOTE], b);
      EscOneQuote();
      EscQuoteFree(a);
      var u := Esc(a) + [BACKSLASH];
      var rest := [QUOTE] + Esc(b) + [QUOTE] + t;
      assert [QUOTE] + Esc(s) + [QUOTE] + t == [QUOTE] + u + rest;
      assert u[|u| - 1] == BACKSLASH;
      SkipQuoted(u, rest, key);
      ConfusesTail(a, b, key);
      SkipText(b, t, key);
    }
  }

  lemma EscOneQuote()
    ensures Esc([QUOTE]) == [BACKSLASH, QUOTE]
  {
    assert Esc([QUOTE]) == EscChar(QUOTE) + Esc([QUOTE][1..]);
  }

  lemma ConfusesPlain(s: string, key: string)
    requires QUOTE !in s
    ensures Confuses(s, key) <==> s == key
  {
    assert |s| > |key| ==> ([QUOTE] + s)[|s| - |key|] == s[|s| - |key| - 1];
    if Confuses(s, key) {
      assert ([QUOTE] + s)[|s| - |key|..][0] == QUOTE;
      assert ([QUOTE] + s)[1..] == s && ([QUOTE] + key)[1..] == key;
    }
  }

  lemma ConfusesTail(a: string, b: string, key: string)
    requires QUOTE !in key
    ensures Confuses(a + ([QUOTE] + b), key) <==> Confuses(b, key)
  {
    var s := a + ([QUOTE] + b);
    if |key| <= |b| {
      assert [QUOTE] + s == ([QUOTE] + a) + ([QUOTE] + b);
      DropInto([QUOTE] + a, [QUOTE] + b, |key| + 1);
    } else if Confuses(s, key) {
      ConfusesChar(s, key, |key| - |b| - 1);
    }
  }

  lemma DropInto(x: string, y: string, k: nat)
    requires k <= |y|
    ensures (x + y)[|x| + |y| - k..] == y[|y| - k..]
  {
  }

  lemma ConfusesChar(s: string, key: string, k: nat)
    requires Confuses(s, key) && k < |key|
    ensures key[k] == s[|s| - |key| + k]
  {
    assert key[k] == ([QUOTE] + key)[k + 1] == ([QUOTE] + s)[|s| - |key|..][k + 1];
  }

  // ---- Passing a whole field -----------------------------------------------

  predicate PlainItem(s: string) {
    ',' !in s && QUOTE !in s && ']' !in s && BACKSLASH !in s && NoBreaks(s)
  }

  predicate PlainItems(items: seq<string>) {
    forall i :: 0 <= i < |items| ==> PlainItem(items[i])
  }

  /** A printed value in which a search for the key stops too early. */
  predicate ConfusesValue(v: Value, key: string) {
    match v
    case Text(s) => Confuses(s, key)
    case Number(_) => false
    case Items(items) => AnyConfuses(items, key)
  }

  predicate AnyConfuses(items: seq<string>, key: string) {
    exists i :: 0 <= i < |items| && Confuses(items[i], key)
  }

  /** Where a search that stopped inside a value goes on: never at a colon. */
  ghost predicate Astray(r: Option<string>) {
    r.Some? && r.value != "" && (r.value[0] == ',' || r.value[0] == ']')
  }

  /** What is left to print of a list, with the comma before it. */
  function MoreItems(items: seq<string>): string {
    if items == [] then "" else "," + ShowItems(items)
  }

  lemma ItemHead(items: seq<string>)
    requires items != []
    ensures ShowItems(items) == [QUOTE] + Esc(items[0]) + [QUOTE] + MoreItems(items[1..])
  {
    hide JsonEsc, Esc;
    EscapesEachCharacter(items[0]);
    assert |items| == 1 ==> items[1..] == [];
    assert [QUOTE] + Esc(items[0]) + [QUOTE] + "" == [QUOTE] + Esc(items[0]) + [QUOTE];
  }

  lemma SkipItem(u: string, e: string, tail: string, key: string)
    requires QUOTE !in u && Word(key) && u != key
    ensures After([QUOTE] + u + ([QUOTE] + Esc(e) + [QUOTE] + tail), Needle(key))
         == if Confuses(e, key) then Some(tail) else After([QUOTE] + tail, Needle(key))
  {
    hide After, Esc, Confuses;
    SkipQuoted(u, [QUOTE] + Esc(e) + [QUOTE] + tail, key);
    SkipText(e, tail, key);
  }

  lemma NotAWord(u: string, key: string)
    requires Word(key) && (',' in u || ':' in u || ']' in u)
    ensures u != key
  {
    WordHasNoSpecials(key);
  }

  lemma ItemsText(u: string, e: string, more: string, t: string)
    ensures [QUOTE] + u + ([QUOTE] + e + [QUOTE] + more) + "]," + t
         == [QUOTE] + u + ([QUOTE] + e + [QUOTE] + (more + "]," + t))
  {
  }

  lemma MoreText(u: string, items: seq<string>, t: string)
    requires u == if items == [] then "" else ","
    ensures [QUOTE] + (MoreItems(items) + "]," + t) == [QUOTE] + u + ShowItems(items) + "]," + t
  {
    assert MoreItems(items) == u + ShowItems(items);
  }

  /** From the quote that closes an item (or the field name, u being what follows it). */
  lemma {:induction false} SkipItems(u: string, items: seq<string>, t: string, key: string)
    requires Word(key) && QUOTE !in u && t != "" && t[0] == QUOTE
    requires u == "" || u[0] == ':' || u[0] == ','
    requires u == "" ==> items == []
    ensures var r := After([QUOTE] + u + ShowItems(items) + "]," + t, Needle(key));
            if AnyConfuses(items, key) then Astray(r) else r == After(t, Needle(key))
    decreases |items|
  {
    hide After, ShowItems, Word, Needle, MoreItems, Esc, Confuses;
    if items == [] {
      NoItems();
      assert [QUOTE] + u + "" + "]," + t == [QUOTE] + (u + "],") + t;
      assert ']' in u + "],";
      NotAWord(u + "],", key);
      SkipQuoted(u + "],", t, key);
    } else {
      var e, rest := items[0], items[1..];
      var u' := if rest == [] then "" else ",";
      var tail := MoreItems(rest) + "]," + t;
      ItemHead(items);
      ItemsText(u, Esc(e), MoreItems(rest), t);
      assert u[0] in u;
      NotAWord(u, key);
      SkipItem(u, e, tail, key);
      AnyConfusesHead(items, key);
      if Confuses(e, key) {
        MoreStarts(rest, t);
      } else {
        MoreText(u', rest, t);
        SkipItems(u', rest, t, key);
      }
    }
  }

  lemma MoreStarts(items: seq<string>, t: string)
    ensures Astray(Some(MoreItems(items) + "]," + t))
  {
  }

  lemma NoItems()
    ensures ShowItems([]) == ""
  {
  }

  lemma AnyConfusesHead(items: seq<string>, key: string)
    requires items != []
    ensures AnyConfuses(items, key) <==> Confuses(items[0], key) || AnyConfuses(items[1..], key)
  {
    hide Confuses;
    if AnyConfuses(items, key) && !Confuses(items[0], key) {
      var i :| 0 <= i < |items| && Confuses(items[i], key);
      assert Confuses(items[1..][i - 1], key);
    }
  }

  /** A search for another key passes over a field, or goes astray inside its value. */
  lemma SkipField(f: Field, t: string, key: string)
    requires Word(f.key) && Word(key) && f.key != key && t != "" && t[0] == QUOTE
    ensures var r := After(ShowField(f) + "," + t, Needle(key));
            if ConfusesValue(f.value, key) then Astray(r) else r == After(t, Needle(key))
  {
    hide After, ShowItems, Esc, JsonEsc, Decimal, Confuses;
    WordHasNoSpecials(f.key);
    WordHasNoSpecials(key);
    var v := ShowValue(f.value);
    var rest := [QUOTE] + ":" + v + "," + t;
    assert ShowField(f) + "," + t == [QUOTE] + f.key + rest;
    SkipQuoted(f.key, rest, key);
    match f.value
    case Text(s) =>
      EscapesEachCharacter(s);
      var quoted := [QUOTE] + Esc(s) + [QUOTE] + ("," + t);
      assert rest == [QUOTE] + ":" + quoted;
      assert ":"[0] in ":";
      SkipQuoted(":", quoted, key);
      SkipText(s, "," + t, key);
      assert [QUOTE] + ("," + t) == [QUOTE] + "," + t;
      assert ","[0] in ",";
      SkipQuoted(",", t, key);
    case Number(n) =>
      var u := ":" + v + ",";
      assert rest == [QUOTE] + u + t;
      assert u[0] in u;
      DigitsOnly(n);
      SkipQuoted(u, t, key);
    case Items(items) =>
      assert rest == [QUOTE] + ":[" + ShowItems(items) + "]," + t;
      SkipItems(":[", items, t, key);
  }

  lemma DigitsOnly(n: u64)
    ensures QUOTE !in Decimal(n as nat) && '{' !in Decimal(n as nat) && '}' !in Decimal(n as nat)
  {
    forall c | c in Decimal(n as nat)
      ensures Digit(c)
    {
    }
  }

  /** Fields with pairwise different word keys. */
  ghost predicate WellFormed(fs: seq<Field>) {
    && (forall i :: 0 <= i < |fs| ==> Word(fs[i].key))
    && (forall i, j :: 0 <= i < j < |fs| ==> fs[i].key != fs[j].key)
  }

  /** A field before this one is taken for its name. */
  ghost predicate Shadowed(fs: seq<Field>, j: nat)
    requires j < |fs|
  {
    exists i :: 0 <= i < j && ConfusesValue(fs[i].value, fs[j].key)
  }

  /** What a search for field j finds: its value, unless it is shadowed. */
  lemma {:induction false} Lookup(fs: seq<Field>, j: nat) returns (rest: string)
    requires WellFormed(fs) && j < |fs|
    ensures var r := After(ShowFields(fs) + "}", Needle(fs[j].key));
            if Shadowed(fs, j) then Astray(r)
            else rest != "" && (rest[0] == ',' || rest[0] == '}') && r == Some(":" + ShowValue(fs[j].value) + rest)
    decreases |fs|
  {
    hide After, ShowValue, ConfusesValue;
    var tail := if |fs| == 1 then "}" else "," + ShowFields(fs[1..]) + "}";
    assert ShowFields(fs) + "}" == ShowField(fs[0]) + tail;
    var key := fs[j].key;
    if j == 0 {
      rest := tail;
      assert ShowField(fs[0]) + tail == [QUOTE] + key + [QUOTE] + (":" + ShowValue(fs[0].value) + tail);
      FindQuoted(":" + ShowValue(fs[0].value) + tail, key);
    } else {
      var t := ShowFields(fs[1..]) + "}";
      assert t[0] == ShowField(fs[1])[0] == QUOTE;
      assert ShowField(fs[0]) + tail == ShowField(fs[0]) + "," + t;
      SkipField(fs[0], t, key);
      rest := Lookup(fs[1..], j - 1);
      ShadowedTail(fs, j);
    }
  }

  lemma ShadowedTail(fs: seq<Field>, j: nat)
    requires 0 < j < |fs|
    ensures Shadowed(fs, j) <==> ConfusesValue(fs[0].value, fs[j].key) || Shadowed(fs[1..], j - 1)
  {
    hide ConfusesValue;
    if Shadowed(fs, j) && !ConfusesValue(fs[0].value, fs[j].key) {
      var i :| 0 <= i < j && ConfusesValue(fs[i].value, fs[j].key);
      assert ConfusesValue(fs[1..][i - 1].value, fs[1..][j - 1].key);
    }
    if Shadowed(fs[1..], j - 1) {
      var i :| 0 <= i < j - 1 && ConfusesValue(fs[1..][i].value, fs[1..][j - 1].key);
      assert ConfusesValue(fs[i + 1].value, fs[j].key);
    }
  }

  /** The same from the opening brace. */
  lemma LookupObject(fs: seq<Field>, j: nat) returns (rest: string)
    requires WellFormed(fs) && j < |fs|
    ensures var r := AfterColon(ShowObject(fs), fs[j].key);
            if Shadowed(fs, j) then r == None
            else rest != "" && (rest[0] == ',' || rest[0] == '}') && r == Some(ShowValue(fs[j].value) + rest)
  {
    hide After, ShowFields, ShowValue, ConfusesValue;
    rest := Lookup(fs, j);
    assert ShowObject(fs) == "{" + (ShowFields(fs) + "}");
    assert QUOTE !in "{";
    SkipPlain("{", ShowFields(fs) + "}", fs[j].key);
    if !Shadowed(fs, j) {
      var v := ShowValue(fs[j].value);
      ValueStart(fs[j].value);
      assert (":" + v + rest)[1..] == v + rest;
    }
  }

  lemma ValueStart(v: Value)
    ensures ShowValue(v) != "" && !Whitespace(ShowValue(v)[0])
  {
    if v.Number? {
      assert Digit(Decimal(v.n as nat)[0]);
    }
  }

  // ---- Reading a value back ------------------------------------------------

  lemma {:induction false} EndOfEsc(s: string, t: string)
    ensures StrEnd(Esc(s) + [QUOTE] + t) == Some(|Esc(s)|)
  {
    hide Shift, StrEnd;
    if s == "" {
      assert Esc(s) + [QUOTE] + t == [QUOTE] + t;
      EndHere(t);
    } else {
      var rest := Esc(s[1..]) + [QUOTE] + t;
      EndOfEsc(s[1..], t);
      EndOfEscChar(s[0], rest);
      assert Esc(s) + [QUOTE] + t == EscChar(s[0]) + rest;
      ShiftSome(|EscChar(s[0])|, |Esc(s[1..])|);
    }
  }

  lemma EndHere(t: string)
    ensures StrEnd([QUOTE] + t) == Some(0)
  {
  }

  lemma ShiftSome(k: nat, n: nat)
    ensures Shift(k, Some(n)) == Some(k + n)
  {
  }

  lemma EndOfEscChar(c: char, rest: string)
    ensures StrEnd(EscChar(c) + rest) == Shift(|EscChar(c)|, StrEnd(rest))
  {
    var s := EscChar(c) + rest;
    assert s[|EscChar(c)|..] == rest;
  }

  lemma ReadText(fs: seq<Field>, j: nat)
    requires WellFormed(fs) && j < |fs| && fs[j].value.Text?
    ensures OrEmpty(ExtractStr(ShowObject(fs), fs[j].key)) == if Shadowed(fs, j) then "" else Lossy(fs[j].value.s)
  {
    hide AfterColon, Unescape, StrEnd, Esc, JsonEsc, Shadowed, WellFormed, ShowObject;
    var rest := LookupObject(fs, j);
    if !Shadowed(fs, j) {
      var s := fs[j].value.s;
      EscapesEachCharacter(s);
      var shown := ShowValue(fs[j].value) + rest;
      assert shown[1..] == Esc(s) + [QUOTE] + rest;
      EndOfEsc(s, rest);
      assert shown[1..][..|Esc(s)|] == Esc(s);
      UnescapeUndoesEsc(s);
    }
  }

  lemma {:induction false} DigitsStop(d: string, rest: string)
    requires forall i :: 0 <= i < |d| ==> Digit(d[i])
    requires rest != "" && !Digit(rest[0])
    ensures Digits(d + rest) == d
  {
    if d == "" {
      assert d + rest == rest;
    } else {
      assert (d + rest)[1..] == d[1..] + rest;
      DigitsStop(d[1..], rest);
    }
  }

  lemma ReadNumber(fs: seq<Field>, j: nat)
    requires WellFormed(fs) && j < |fs| && fs[j].value.Number?
    ensures ObjU64(ShowObject(fs), fs[j].key) == if Shadowed(fs, j) then 0 else fs[j].value.n
  {
    hide AfterColon, Decimal, DecimalValue, Digits, Shadowed, WellFormed, ShowObject;
    var rest := LookupObject(fs, j);
    if !Shadowed(fs, j) {
      var n := fs[j].value.n;
      DigitsStop(Decimal(n as nat), rest);
      DecimalRoundTrip(n as nat);
    }
  }

  lemma QuotedPiece(e: string)
    ensures StripQuotes(Trim([QUOTE] + e + [QUOTE])) == Some(e)
  {
    var s := [QUOTE] + e + [QUOTE];
    assert s[1..|s| - 1] == e;
  }

  predicate ListFree(s: string) {
    ',' !in s && ']' !in s
  }

  lemma ListFreeEsc(e: string)
    requires ListFree(e)
    ensures ListFree([QUOTE] + Esc(e) + [QUOTE])
  {
    EscListFree(e);
  }

  lemma {:induction false} EscListFree(e: string)
    requires ListFree(e)
    ensures ListFree(Esc(e))
  {
    if e != "" {
      EscListFree(e[1..]);
    }
  }

  function EscAll(items: seq<string>): (r: seq<string>)
    ensures |r| == |items| && forall i :: 0 <= i < |r| ==> r[i] == Esc(items[i])
  {
    seq(|items|, i requires 0 <= i < |items| => Esc(items[i]))
  }

  /** Entries without list punctuation come back one for one, still escaped. */
  lemma {:induction false} ItemsSplitBack(items: seq<string>)
    requires forall i :: 0 <= i < |items| ==> ListFree(items[i])
    ensures Unquoted(SplitOn(ShowItems(items), ',')) == EscAll(items)
    ensures ']' !in ShowItems(items)
    decreases |items|
  {
    hide Unquoted, SplitOn, ShowItems, Esc, ListFree;
    if items == [] {
      NoItems();
      EmptyPiece();
    } else {
      var e, rest := Esc(items[0]), items[1..];
      ItemHead(items);
      ItemsSplitBack(rest);
      var piece := [QUOTE] + e + [QUOTE];
      ListFreeEsc(items[0]);
      ListFreeFacts(piece);
      assert EscAll(items) == [e] + EscAll(rest);
      if rest == [] {
        assert piece + "" == piece;
        SplitPiece(piece, ',');
        assert [piece] + [] == [piece];
        UnquotedFirst(e, []);
        NoPieces();
      } else {
        assert piece + ("," + ShowItems(rest)) == piece + [','] + ShowItems(rest);
        SplitFirst(piece, ShowItems(rest), ',');
        UnquotedFirst(e, SplitOn(ShowItems(rest), ','));
      }
    }
  }

  lemma ListFreeFacts(s: string)
    requires ListFree(s)
    ensures ',' !in s && ']' !in s
  {
  }

  lemma UnquotedFirst(e: string, pieces: seq<string>)
    ensures Unquoted([[QUOTE] + e + [QUOTE]] + pieces) == [e] + Unquoted(pieces)
  {
    QuotedPiece(e);
    assert ([[QUOTE] + e + [QUOTE]] + pieces)[1..] == pieces;
  }

  lemma NoPieces()
    ensures Unquoted([]) == []
  {
  }

  lemma EmptyPiece()
    ensures Unquoted(SplitOn("", ',')) == []
  {
    assert Trim("") == "";
    assert Unquoted([""][1..]) == [];
  }

  /** What the array extraction makes of a text that starts after the bracket. */
  function ReadList(s: string): seq<string> {
    Unquoted(SplitOn(Before(s, ']'), ','))
  }

  /** No entry that comes back has list punctuation. */
  lemma ReadListFree(s: string)
    ensures forall i :: 0 <= i < |ReadList(s)| ==> ListFree(ReadList(s)[i])
  {
    hide Unquoted, SplitOn, Before;
    var t := Before(s, ']');
    BeforeStops(s, "]", ']');
    SplitParts(t, ',', ']');
    PiecesFree(SplitOn(t, ','));
  }

  lemma {:induction false} SplitParts(s: string, sep: char, c: char)
    requires c !in s
    ensures forall i :: 0 <= i < |SplitOn(s, sep)| ==> sep !in SplitOn(s, sep)[i] && c !in SplitOn(s, sep)[i]
  {
    if s != "" {
      SplitParts(s[1..], sep, c);
    }
  }

  lemma {:induction false} PiecesFree(pieces: seq<string>)
    requires forall i :: 0 <= i < |pieces| ==> ListFree(pieces[i])
    ensures forall i :: 0 <= i < |Unquoted(pieces)| ==> ListFree(Unquoted(pieces)[i])
  {
    hide StripQuotes, Trim, ListFree;
    if pieces != [] {
      PiecesFree(pieces[1..]);
      StrippedFree(pieces[0]);
    }
  }

  lemma StrippedFree(p: string)
    requires ListFree(p)
    ensures StripQuotes(Trim(p)).Some? ==> ListFree(StripQuotes(Trim(p)).value)
  {
    TrimFree(p);
  }

  lemma TrimFree(p: string)
    requires ListFree(p)
    ensures ListFree(Trim(p))
  {
    hide TrimStart, TrimEnd;
    TrimStartFree(p);
    TrimEndFree(TrimStart(p));
  }

  lemma {:induction false} TrimStartFree(p: string)
    requires ListFree(p)
    ensures ListFree(TrimStart(p))
  {
    if p != "" && Whitespace(p[0]) {
      TrimStartFree(p[1..]);
    }
  }

  lemma {:induction false} TrimEndFree(p: string)
    requires ListFree(p)
    ensures ListFree(TrimEnd(p))
  {
    if p != "" && Whitespace(p[|p| - 1]) {
      TrimEndFree(p[..|p| - 1]);
    }
  }

  lemma {:induction false} EscGrows(s: string)
    ensures |Esc(s)| >= |s|
    ensures |Esc(s)| == |s| ==> QUOTE !in s && BACKSLASH !in s && NoBreaks(s)
  {
    if s != "" {
      EscGrows(s[1..]);
      assert s == [s[0]] + s[1..];
    }
  }

  /** A printed list comes back exactly when its entries are plain. */
  lemma ListReadsBack(items: seq<string>)
    ensures ReadList(ShowItems(items)) == items <==> PlainItems(items)
  {
    hide Unquoted, SplitOn, ShowItems, Before, Esc, ListFree, PlainItem;
    if forall i :: 0 <= i < |items| ==> ListFree(items[i]) {
      ItemsSplitBack(items);
      BeforeStops(ShowItems(items), "]", ']');
      forall i | 0 <= i < |items|
        ensures EscAll(items)[i] == items[i] <==> PlainItem(items[i])
      {
        PlainIsFixed(items[i]);
      }
      assert EscAll(items) == items <==> forall i :: 0 <= i < |items| ==> EscAll(items)[i] == items[i];
    } else {
      ReadListFree(ShowItems(items));
      var i :| 0 <= i < |items| && !ListFree(items[i]);
      PlainIsListFree(items[i]);
    }
  }

  lemma PlainIsFixed(e: string)
    requires ListFree(e)
    ensures Esc(e) == e <==> PlainItem(e)
  {
    EscGrows(e);
    if QUOTE !in e {
      EscQuoteFree(e);
    }
  }

  lemma PlainIsListFree(e: string)
    ensures PlainItem(e) ==> ListFree(e)
  {
  }

  lemma ReadItems(fs: seq<Field>, j: nat)
    requires WellFormed(fs) && j < |fs| && fs[j].value.Items?
    ensures ExtractStrArray(ShowObject(fs), fs[j].key)
         == if Shadowed(fs, j) then [] else ReadList(ShowItems(fs[j].value.items))
  {
    hide AfterColon, ShowItems, SplitOn, Unquoted, Shadowed, ShowObject, Before;
    var rest := LookupObject(fs, j);
    if !Shadowed(fs, j) {
      var items := fs[j].value.items;
      var shown := ShowValue(fs[j].value) + rest;
      assert shown[1..] == ShowItems(items) + ("]" + rest);
      BeforeStops(ShowItems(items), "]" + rest, ']');
    }
  }

  // ---- One record ----------------------------------------------------------

  /** Field j comes back: it holds the default already, or nothing before it is taken for its name
      and it has no line break, or only plain entries. */
  ghost predicate KeptAt(fs: seq<Field>, j: nat)
    requires j < |fs|
  {
    match fs[j].value
    case Text(s) => s == "" || (!Shadowed(fs, j) && NoBreaks(s))
    case Number(n) => n == 0 || !Shadowed(fs, j)
    case Items(items) => items == [] || (!Shadowed(fs, j) && PlainItems(items))
  }

  ghost predicate Survives(r: Record, index: Option<nat>) {
    && r.id != ""
    && forall j :: 0 <= j < 13 && j != 4 ==> KeptAt(FieldsOf(r, index), j)
  }

  lemma TextKept(fs: seq<Field>, j: nat)
    requires WellFormed(fs) && j < |fs| && fs[j].value.Text?
    ensures OrEmpty(ExtractStr(ShowObject(fs), fs[j].key)) == fs[j].value.s <==> KeptAt(fs, j)
    ensures fs[j].value.s == "" ==> OrEmpty(ExtractStr(ShowObject(fs), fs[j].key)) == ""
  {
    hide ExtractStr, ShowObject, Shadowed, WellFormed, Lossy;
    ReadText(fs, j);
    UnescapeUndoesEsc(fs[j].value.s);
    EmptyLossy();
  }

  lemma EmptyLossy()
    ensures Lossy("") == ""
  {
  }

  lemma NumberKept(fs: seq<Field>, j: nat)
    requires WellFormed(fs) && j < |fs| && fs[j].value.Number?
    ensures ObjU64(ShowObject(fs), fs[j].key) == fs[j].value.n <==> KeptAt(fs, j)
  {
    hide ObjU64, ShowObject, Shadowed, WellFormed;
    ReadNumber(fs, j);
  }

  lemma ItemsKept(fs: seq<Field>, j: nat)
    requires WellFormed(fs) && j < |fs| && fs[j].value.Items?
    ensures ExtractStrArray(ShowObject(fs), fs[j].key) == fs[j].value.items <==> KeptAt(fs, j)
  {
    hide ExtractStrArray, ShowObject, Shadowed, WellFormed, ReadList, ShowItems;
    ReadItems(fs, j);
    ListReadsBack(fs[j].value.items);
  }

  predicate FieldName(s: string) {
    NodeField(s) || TenantField(s)
  }

  predicate NodeField(s: string) {
    s in ["id", "name", "public_key", "endpoint", "overlay_ipv4", "allowed_ips", "node_token"]
  }

  predicate TenantField(s: string) {
    s in ["added_by", "added_at", "organization_id", "workspace_id", "revoked_at", "token_rotated_at"]
  }

  lemma KeyIsFieldName(r: Record, index: Option<nat>, j: nat)
    requires j < 13
    ensures FieldName(FieldsOf(r, index)[j].key)
  {
  }

  lemma FieldNameIsWord(key: string)
    requires FieldName(key)
    ensures Word(key) && key != "" && 'a' <= key[0] <= 'z'
  {
    hide NodeField, TenantField, Word;
    if NodeField(key) {
      NodeFieldIsWord(key);
    } else {
      TenantFieldIsWord(key);
    }
  }

  lemma NodeFieldIsWord(key: string)
    requires NodeField(key)
    ensures Word(key) && key != "" && 'a' <= key[0] <= 'z'
  {
  }

  lemma TenantFieldIsWord(key: string)
    requires TenantField(key)
    ensures Word(key) && key != "" && 'a' <= key[0] <= 'z'
  {
  }

  lemma RecordFieldsWellFormed(r: Record, index: Option<nat>)
    ensures WellFormed(FieldsOf(r, index))
  {
    hide FieldsOf, Word;
    var fs := FieldsOf(r, index);
    forall i | 0 <= i < |fs|
      ensures Word(fs[i].key)
    {
      KeyIsFieldName(r, index, i);
      FieldNameIsWord(fs[i].key);
    }
    forall i, j | 0 <= i < j < |fs|
      ensures fs[i].key != fs[j].key
    {
      KeysDiffer(r, index, i, j);
    }
  }

  lemma KeysDiffer(r: Record, index: Option<nat>, i: nat, j: nat)
    requires i < j < 13
    ensures FieldsOf(r, index)[i].key != FieldsOf(r, index)[j].key
  {
    hide OverlayText;
    assert "public_key"[0] != "revoked_at"[0] && "public_key"[0] != "node_token"[0];
    assert "revoked_at"[0] != "node_token"[0];
    assert "endpoint"[0] != "added_by"[0] && "added_by"[6] != "added_at"[6];
    assert "overlay_ipv4"[0] != "workspace_id"[0];
  }

  lemma EachField(r: Record, index: Option<nat>)
    ensures var fs := FieldsOf(r, index);
            Survives(r, index) <==>
              (r.id != "" && KeptAt(fs, 0) && KeptAt(fs, 1) && KeptAt(fs, 2) && KeptAt(fs, 3) && KeptAt(fs, 5)
               && KeptAt(fs, 6) && KeptAt(fs, 7) && KeptAt(fs, 8) && KeptAt(fs, 9) && KeptAt(fs, 10)
               && KeptAt(fs, 11) && KeptAt(fs, 12))
  {
    hide FieldsOf, KeptAt;
  }

  /** Printing and parsing a record returns it exactly when its identifier is not empty and every
      field is kept. */
  lemma RecordRoundTrip(r: Record, index: Option<nat>)
    ensures ParseObject(ToJson(r, index)) == Some(r) <==> Survives(r, index)
    ensures ParseObject(ToJson(r, index)).Some? <==> r.id != ""
  {
    hide ExtractStr, ExtractStrArray, ObjU64, ToJson, FieldsOf, KeptAt, Survives, OrEmpty;
    EachField(r, index);
    IdPresent(r, index);
    NodeFieldsRead(r, index);
    TenantFieldsRead(r, index);
  }

  lemma NodeFieldsRead(r: Record, index: Option<nat>)
    ensures var obj, fs := ToJson(r, index), FieldsOf(r, index);
            && (OrEmpty(ExtractStr(obj, "id")) == r.id <==> KeptAt(fs, 0))
            && (OrEmpty(ExtractStr(obj, "name")) == r.name <==> KeptAt(fs, 1))
            && (OrEmpty(ExtractStr(obj, "public_key")) == r.publicKey <==> KeptAt(fs, 2))
            && (OrEmpty(ExtractStr(obj, "endpoint")) == r.endpointAddr <==> KeptAt(fs, 3))
            && (ExtractStrArray(obj, "allowed_ips") == r.allowedIps <==> KeptAt(fs, 5))
            && (OrEmpty(ExtractStr(obj, "node_token")) == r.nodeToken <==> KeptAt(fs, 12))
  {
    hide ExtractStr, ExtractStrArray, ShowObject, KeptAt, WellFormed, OverlayText, OrEmpty;
    var fs := FieldsOf(r, index);
    RecordFieldsWellFormed(r, index);
    TextKept(fs, 0);
    TextKept(fs, 1);
    TextKept(fs, 2);
    TextKept(fs, 3);
    ItemsKept(fs, 5);
    TextKept(fs, 12);
  }

  lemma TenantFieldsRead(r: Record, index: Option<nat>)
    ensures var obj, fs := ToJson(r, index), FieldsOf(r, index);
            && (OrEmpty(ExtractStr(obj, "added_by")) == r.addedBy <==> KeptAt(fs, 6))
            && (ObjU64(obj, "added_at") == r.addedAt <==> KeptAt(fs, 7))
            && (OrEmpty(ExtractStr(obj, "organization_id")) == r.organizationId <==> KeptAt(fs, 8))
            && (OrEmpty(ExtractStr(obj, "workspace_id")) == r.workspaceId <==> KeptAt(fs, 9))
            && (ObjU64(obj, "revoked_at") == r.revokedAt <==> KeptAt(fs, 10))
            && (ObjU64(obj, "token_rotated_at") == r.tokenRotatedAt <==> KeptAt(fs, 11))
  {
    hide ExtractStr, ObjU64, ShowObject, KeptAt, WellFormed, OverlayText, OrEmpty;
    var fs := FieldsOf(r, index);
    RecordFieldsWellFormed(r, index);
    TextKept(fs, 6);
    NumberKept(fs, 7);
    TextKept(fs, 8);
    TextKept(fs, 9);
    NumberKept(fs, 10);
    NumberKept(fs, 11);
  }

  /** The identifier comes first, so nothing shadows it: it reads as empty only when it is. */
  lemma IdPresent(r: Record, index: Option<nat>)
    ensures OrEmpty(ExtractStr(ToJson(r, index), "id")) == "" <==> r.id == ""
  {
    hide ExtractStr, ShowObject, WellFormed, OverlayText;
    RecordFieldsWellFormed(r, index);
    ReadText(FieldsOf(r, index), 0);
    LossyExactly(r.id);
  }

  /** The two fields that decide who may connect and from where, as a record reads back. */
  lemma FieldsRead(r: Record, index: Option<nat>)
    requires r.id != ""
    ensures var fs := FieldsOf(r, index); var read := ParseObject(ToJson(r, index));
            && read.Some?
            && read.value.revokedAt == (if Shadowed(fs, 10) then 0 else r.revokedAt)
            && read.value.allowedIps == (if Shadowed(fs, 5) then [] else ReadList(ShowItems(r.allowedIps)))
            && (read.value.allowedIps == r.allowedIps <==> KeptAt(fs, 5))
  {
    hide ExtractStr, ExtractStrArray, ObjU64, ShowObject, Shadowed, WellFormed, OverlayText, OrEmpty, KeptAt, ReadList;
    var fs := FieldsOf(r, index);
    RecordFieldsWellFormed(r, index);
    IdPresent(r, index);
    ReadNumber(fs, 10);
    ReadItems(fs, 5);
    ItemsKept(fs, 5);
  }
}
