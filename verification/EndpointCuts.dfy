/** Parts of printed records: a record cut short inside a value never reads back as itself. */
module EndpointCuts {
  import opened Words
  import opened Options
  import opened JsonText
  import opened Endpoints
  import opened EndpointJson

  // ---- A record cut short --------------------------------------------------

  /** The fields before field j, each with its comma. */
  function Lead(fs: seq<Field>, j: nat): string
    requires j < |fs|
  {
    if j == 0 then "" else ShowField(fs[0]) + "," + Lead(fs[1..], j - 1)
  }

  lemma {:induction false} SkipLead(fs: seq<Field>, j: nat, t: string)
    requires WellFormed(fs) && j < |fs| && t != "" && t[0] == QUOTE
    ensures var r := After(Lead(fs, j) + t, Needle(fs[j].key));
            if Shadowed(fs, j) then Astray(r) else r == After(t, Needle(fs[j].key))
    decreases j
  {
    hide After, ShowField, ConfusesValue, Word;
    if j == 0 {
      assert Lead(fs, 0) + t == t;
    } else {
      var rest := Lead(fs[1..], j - 1) + t;
      LeadStarts(fs[1..], j - 1, t);
      assert Lead(fs, j) + t == ShowField(fs[0]) + "," + rest;
      SkipField(fs[0], rest, fs[j].key);
      SkipLead(fs[1..], j - 1, t);
      ShadowedTail(fs, j);
    }
  }

  lemma LeadStarts(fs: seq<Field>, j: nat, t: string)
    requires j < |fs| && t != "" && t[0] == QUOTE
    ensures Lead(fs, j) + t != "" && (Lead(fs, j) + t)[0] == QUOTE
  {
    if j > 0 {
      assert ShowField(fs[0])[0] == QUOTE;
    }
  }

  /** An object cut inside the value of field j. */
  function CutObject(fs: seq<Field>, j: nat, partial: string): string
    requires j < |fs|
  {
    "{" + (Lead(fs, j) + ([QUOTE] + fs[j].key + [QUOTE] + (":" + partial)))
  }

  /** A printed value cut before its end, where the text has a closing brace. */
  ghost predicate CutValue(v: Value, partial: string) {
    && partial != "" && partial[|partial| - 1] == '}'
    && |partial| < |ShowValue(v)| && partial == ShowValue(v)[..|partial|]
  }

  lemma CutLookup(fs: seq<Field>, j: nat, partial: string)
    requires WellFormed(fs) && j < |fs| && CutValue(fs[j].value, partial)
    ensures AfterColon(CutObject(fs, j, partial), fs[j].key) == if Shadowed(fs, j) then None else Some(partial)
  {
    hide After, ShowValue, Lead, ConfusesValue, WellFormed, Shadowed;
    var key := fs[j].key;
    var t := [QUOTE] + key + [QUOTE] + (":" + partial);
    SkipLead(fs, j, t);
    FindQuoted(":" + partial, key);
    assert QUOTE !in "{";
    SkipPlain("{", Lead(fs, j) + t, key);
    ValueStart(fs[j].value);
    assert partial[0] == ShowValue(fs[j].value)[0];
    assert (":" + partial)[1..] == partial;
  }

  /** Nothing closes an escaped text before its end. */
  lemma {:induction false} EscStaysOpen(s: string, m: nat)
    requires m <= |Esc(s)|
    ensures StrEnd(Esc(s)[..m]) == None
  {
    hide StrEnd, Shift;
    if m == 0 {
      OpenAtEnd("");
      assert Esc(s)[..m] == "";
    } else {
      var e := EscChar(s[0]);
      assert Esc(s) == e + Esc(s[1..]);
      if m < |e| {
        OpenAtEnd([BACKSLASH]);
        assert Esc(s)[..m] == [BACKSLASH];
      } else {
        EscStaysOpen(s[1..], m - |e|);
        assert Esc(s)[..m] == e + Esc(s[1..])[..m - |e|];
        EndOfEscChar(s[0], Esc(s[1..])[..m - |e|]);
        ShiftNone(|e|);
      }
    }
  }

  lemma OpenAtEnd(s: string)
    requires s == "" || s == [BACKSLASH]
    ensures StrEnd(s) == None
  {
  }

  lemma ShiftNone(k: nat)
    ensures Shift(k, None) == None
  {
  }

  /** A text field cut short reads as empty, which it is not. */
  lemma CutText(fs: seq<Field>, j: nat, partial: string)
    requires WellFormed(fs) && j < |fs| && fs[j].value.Text? && CutValue(fs[j].value, partial)
    ensures OrEmpty(ExtractStr(CutObject(fs, j, partial), fs[j].key)) == "" && fs[j].value.s != ""
  {
    hide AfterColon, Esc, JsonEsc, CutObject, Shadowed, WellFormed, StrEnd, Unescape;
    var s := fs[j].value.s;
    CutLookup(fs, j, partial);
    EscapesEachCharacter(s);
    var m := |partial| - 1;
    assert partial[1..] == Esc(s)[..m];
    EscStaysOpen(s, m);
    EmptyEsc();
  }

  lemma EmptyEsc()
    ensures Esc("") == ""
  {
  }

  /** Cut inside an entry, a list comes back with fewer entries. */
  lemma {:induction false} CutEntries(items: seq<string>, m: nat)
    requires forall i :: 0 <= i < |items| ==> ListFree(items[i])
    requires 0 < m <= |ShowItems(items)| && ShowItems(items)[m - 1] == '}'
    ensures |Unquoted(SplitOn(ShowItems(items)[..m], ','))| < |items|
    decreases |items|
  {
    hide Unquoted, SplitOn, ShowItems, Esc, ListFree;
    NoItems();
    var e, rest := Esc(items[0]), items[1..];
    var piece := [QUOTE] + e + [QUOTE];
    ItemHead(items);
    ListFreeEsc(items[0]);
    ListFreeFacts(piece);
    var all := ShowItems(items);
    assert all == piece + MoreItems(rest);
    if m <= |piece| {
      assert all[..m] == piece[..m];
      SplitPiece(piece[..m], ',');
      OpenPiece(piece[..m]);
    } else {
      assert rest != [];
      var k := m - |piece| - 1;
      assert all[..m] == piece + [','] + ShowItems(rest)[..k];
      assert all[m - 1] == MoreItems(rest)[k];
      assert k > 0 && ShowItems(rest)[k - 1] == '}';
      SplitFirst(piece, ShowItems(rest)[..k], ',');
      CutEntries(rest, k);
      UnquotedFirst(e, SplitOn(ShowItems(rest)[..k], ','));
    }
  }

  lemma OpenPiece(p: string)
    requires p != "" && p[0] == QUOTE && p[|p| - 1] == '}'
    ensures Unquoted([p]) == []
  {
    assert Unquoted([p][1..]) == [];
    assert Trim(p) == p;
  }

  lemma CutItems(fs: seq<Field>, j: nat, partial: string)
    requires WellFormed(fs) && j < |fs| && fs[j].value.Items? && CutValue(fs[j].value, partial)
    ensures ExtractStrArray(CutObject(fs, j, partial), fs[j].key) != fs[j].value.items
  {
    hide AfterColon, CutObject, Shadowed, WellFormed, ShowItems, Unquoted, SplitOn, Before, ListFree;
    var items := fs[j].value.items;
    CutLookup(fs, j, partial);
    NoItems();
    var m := |partial| - 1;
    assert partial[1..] == ShowItems(items)[..m] by { assert ShowValue(fs[j].value) == "[" + ShowItems(items) + "]"; }
    if forall i :: 0 <= i < |items| ==> ListFree(items[i]) {
      ItemsSplitBack(items);
      BeforeStops(ShowItems(items)[..m], "]", ']');
      assert ShowItems(items)[m - 1] == partial[1..][m - 1];
      CutEntries(items, m);
    } else {
      ReadListFree(partial[1..]);
      var i :| 0 <= i < |items| && !ListFree(items[i]);
      assert |ReadList(partial[1..])| == |items| ==> ReadList(partial[1..])[i] != items[i];
    }
  }

  lemma CutNumber(n: u64, partial: string)
    ensures !CutValue(Number(n), partial)
  {
    if CutValue(Number(n), partial) {
      assert Digit(Decimal(n as nat)[|partial| - 1]);
    }
  }

  predicate Braceless(s: string) {
    '{' !in s && '}' !in s
  }

  lemma {:induction false} EscBraceless(s: string)
    requires Braceless(s)
    ensures Braceless(Esc(s))
  {
    if s != "" {
      EscBraceless(s[1..]);
    }
  }

  lemma TextBraceless(s: string)
    requires Braceless(s)
    ensures Braceless(ShowValue(Text(s)))
  {
    EscapesEachCharacter(s);
    EscBraceless(s);
  }

  lemma OverlayBraceless(index: Option<nat>)
    ensures Braceless(OverlayText(index))
    ensures forall i :: 0 <= i < |OverlayText(index)| ==> Digit(OverlayText(index)[i]) || OverlayText(index)[i] == '.'
  {
    var t := OverlayText(index);
    if index.Some? {
      var a, b := Decimal(index.value / 256), Decimal(index.value % 256);
      var head := "100.88.";
      forall i | 0 <= i < |t|
        ensures Digit(t[i]) || t[i] == '.'
      {
        if i < |head| {
          assert t[i] == head[i];
        } else if i < |head| + |a| {
          assert t[i] == a[i - |head|];
        } else if i > |head| + |a| {
          assert t[i] == b[i - |head| - |a| - 1];
        }
      }
    }
  }

  lemma ValueEnds(v: Value)
    ensures ShowValue(v)[|ShowValue(v)| - 1] != '}'
  {
    hide ShowItems, JsonEsc;
    if v.Number? {
      assert Digit(Decimal(v.n as nat)[|Decimal(v.n as nat)| - 1]);
    }
  }

  /** A record cut inside a value is not read back as the record. */
  lemma CutNotRead(r: Record, index: Option<nat>, j: nat, partial: string)
    requires j < 13 && CutValue(FieldsOf(r, index)[j].value, partial)
    ensures ParseObject(CutObject(FieldsOf(r, index), j, partial)) != Some(r)
  {
    hide ExtractStr, ExtractStrArray, ObjU64, CutObject, WellFormed, CutValue, OverlayText, OrEmpty;
    var fs := FieldsOf(r, index);
    RecordFieldsWellFormed(r, index);
    OverlayNotCut(index, partial);
    match fs[j].value
    case Text(s) => CutText(fs, j, partial);
    case Number(n) => CutNumber(n, partial);
    case Items(items) => CutItems(fs, j, partial);
  }

  lemma OverlayNotCut(index: Option<nat>, partial: string)
    ensures !CutValue(Text(OverlayText(index)), partial)
  {
    hide OverlayText, ShowValue;
    OverlayBraceless(index);
    TextBraceless(OverlayText(index));
    var v := ShowValue(Text(OverlayText(index)));
    if 0 < |partial| < |v| && partial == v[..|partial|] {
      assert partial[|partial| - 1] == v[|partial| - 1] && v[|partial| - 1] in v;
    }
  }

  /** A closing brace among the printed fields is inside a value. */
  lemma {:induction false} FindCut(fs: seq<Field>, p: nat) returns (j: nat, partial: string)
    requires WellFormed(fs) && p < |ShowFields(fs)| && ShowFields(fs)[p] == '}'
    ensures j < |fs| && CutValue(fs[j].value, partial)
    ensures ShowFields(fs)[..p + 1] == Lead(fs, j) + ([QUOTE] + fs[j].key + [QUOTE] + (":" + partial))
    decreases |fs|
  {
    hide ShowValue, Word;
    var f := fs[0];
    var head := [QUOTE] + f.key + [QUOTE] + ":";
    var all := ShowFields(fs);
    if p < |ShowField(f)| {
      j := 0;
      KeyHasNoBrace(f.key);
      assert all[p] == ShowField(f)[p];
      assert p >= |head|;
      partial := ShowValue(f.value)[..p + 1 - |head|];
      ValueEnds(f.value);
      assert all[..p + 1] == head + partial;
    } else {
      var q := p - |ShowField(f)| - 1;
      assert all == ShowField(f) + "," + ShowFields(fs[1..]);
      j, partial := FindCut(fs[1..], q);
      j := j + 1;
      assert all[..p + 1] == ShowField(f) + "," + ShowFields(fs[1..])[..q + 1];
    }
  }

  lemma KeyHasNoBrace(key: string)
    requires Word(key)
    ensures '}' !in [QUOTE] + key + [QUOTE] + ":"
  {
    WordHasNoSpecials(key);
  }

  /** A printed record cut at a closing brace before its last is not read back as the record. */
  lemma PrefixNotRead(r: Record, index: Option<nat>, k: nat)
    requires 0 < k < |ToJson(r, index)| && ToJson(r, index)[k - 1] == '}'
    ensures ParseObject(ToJson(r, index)[..k]) != Some(r)
  {
    hide FieldsOf, ShowFields, ParseObject, WellFormed, CutValue;
    var fs := FieldsOf(r, index);
    RecordFieldsWellFormed(r, index);
    var fields := ShowFields(fs);
    assert ToJson(r, index) == "{" + fields + "}";
    var j, partial := FindCut(fs, k - 2);
    CutNotRead(r, index, j, partial);
    assert ToJson(r, index)[..k] == "{" + fields[..k - 1];
  }
}
