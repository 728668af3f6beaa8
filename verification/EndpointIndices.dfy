/** Overlay indices across a save and a load. Whatever the records hold, and however badly the file splits,
    no endpoint comes back with an index that its saved record did not carry, and no index comes back
    more often than it was saved. */
module EndpointIndices {
  import opened Options
  import opened JsonText
  import opened Endpoints
  import opened OverlayAddress
  import opened EndpointJson
  import opened KeyCounts
  import opened EndpointList
  import opened Ipam

  // ---- Splitting -----------------------------------------------------------

  lemma {:induction false} SplitJoin(a: string, b: string, sep: char)
    ensures SplitOn(a + [sep] + b, sep) == SplitOn(a, sep) + SplitOn(b, sep)
  {
    if a == "" {
      assert a + [sep] + b == [sep] + b;
    } else {
      assert (a + [sep] + b)[1..] == a[1..] + [sep] + b;
      SplitJoin(a[1..], b, sep);
    }
  }

  lemma {:induction false} UnquotedAppend(a: seq<string>, b: seq<string>)
    ensures Unquoted(a + b) == Unquoted(a) + Unquoted(b)
  {
    hide StripQuotes, Trim;
    if a == [] {
      assert a + b == b;
    } else {
      assert (a + b)[1..] == a[1..] + b;
      UnquotedAppend(a[1..], b);
    }
  }

  lemma {:induction false} IndicesAppend(a: seq<string>, b: seq<string>)
    ensures Indices(a + b) == Indices(a) + Indices(b)
  {
    hide ParseEntry;
    if a == [] {
      assert a + b == b;
    } else {
      assert (a + b)[1..] == a[1..] + b;
      IndicesAppend(a[1..], b);
    }
  }

  lemma IndicesOne(e: string)
    ensures Indices([e]) == if ParseEntry(e).Some? then {ParseEntry(e).value} else {}
  {
    hide ParseEntry;
    assert Indices([e][1..]) == {};
  }

  /** The entries that a list text yields, before it is cut at the bracket. */
  function Entries(s: string): seq<string> {
    Unquoted(SplitOn(s, ','))
  }

  lemma EntriesJoin(a: string, b: string)
    ensures Entries(a + "," + b) == Entries(a) + Entries(b)
  {
    SplitJoin(a, b, ',');
    UnquotedAppend(SplitOn(a, ','), SplitOn(b, ','));
  }

  lemma EntriesOne(s: string)
    requires ',' !in s
    ensures Entries(s) == match StripQuotes(Trim(s)) case Some(p) => [p] case None => []
  {
    hide StripQuotes, Trim, SplitOn;
    SplitPiece(s, ',');
    assert Unquoted([s][1..]) == [];
  }

  /** A text up to its first occurrence of a character, and what is behind it. */
  lemma {:induction false} CutAt(s: string, c: char) returns (rest: string)
    ensures c !in Before(s, c)
    ensures c in s ==> s == Before(s, c) + [c] + rest
    ensures c !in s ==> Before(s, c) == s
    ensures Before(s, c) <= s
  {
    rest := "";
    if s != "" {
      if s[0] == c {
        rest := s[1..];
      } else {
        rest := CutAt(s[1..], c);
      }
    }
  }

  // ---- Trimming ------------------------------------------------------------

  lemma {:induction false} TrimEndPrefix(s: string)
    ensures TrimEnd(s) <= s
  {
    if s != "" && Whitespace(s[|s| - 1]) {
      TrimEndPrefix(s[..|s| - 1]);
    }
  }

  lemma {:induction false} TrimStartCut(s: string) returns (j: nat)
    ensures j <= |s| && TrimStart(s) == s[j..] && (j > 0 ==> Whitespace(s[j - 1]))
  {
    if s != "" && Whitespace(s[0]) {
      j := TrimStartCut(s[1..]);
      j := j + 1;
    } else {
      j := 0;
    }
  }

  // ---- One entry -----------------------------------------------------------

  /** Every quote but a last one stands behind a backslash. */
  ghost predicate Tame(s: string) {
    forall i :: 0 <= i < |s| - 1 && s[i] == QUOTE ==> i > 0 && s[i - 1] == BACKSLASH
  }

  lemma {:induction false} EscIsTame(e: string)
    ensures Tame(Esc(e) + [QUOTE])
  {
    if e != "" {
      EscIsTame(e[1..]);
      var c, t := EscChar(e[0]), Esc(e[1..]) + [QUOTE];
      assert Esc(e) + [QUOTE] == c + t;
    } else {
      assert Esc(e) + [QUOTE] == [QUOTE];
    }
  }

  /** A piece of a tame text never starts with a quote and ends with another. */
  lemma TamePiece(s: string, rest: string)
    requires Tame(s + rest)
    ensures StripQuotes(Trim(s)) == None
  {
    hide TrimStart, TrimEnd;
    var j := TrimStartCut(s);
    var t := s[j..];
    TrimEndPrefix(t);
    if |Trim(s)| >= 2 {
      assert Trim(s)[0] == t[0] == (s + rest)[j];
      assert j > 0 ==> (s + rest)[j - 1] == s[j - 1];
    }
  }

  lemma TameAfterComma(a: string, b: string, t: string)
    requires Tame(a + "," + b + t)
    ensures Tame(b)
  {
    var s := a + "," + b + t;
    forall i | 0 <= i < |b| - 1 && b[i] == QUOTE
      ensures i > 0 && b[i - 1] == BACKSLASH
    {
      assert s[|a| + 1 + i] == b[i];
      assert s[|a| + i] == if i == 0 then ',' else b[i - 1];
    }
  }

  lemma {:induction false} TameYieldsNothing(s: string)
    requires Tame(s)
    ensures Entries(s) == []
    decreases |s|
  {
    hide Entries, StripQuotes, Trim, Before, Tame;
    var rest := CutAt(s, ',');
    var piece := Before(s, ',');
    assert s == piece + s[|piece|..];
    TamePiece(piece, s[|piece|..]);
    EntriesOne(piece);
    if ',' in s {
      EntriesJoin(piece, rest);
      assert s == piece + "," + rest == piece + "," + rest + "";
      TameAfterComma(piece, rest, "");
      TameYieldsNothing(rest);
    }
  }

  /** An address has no backslash. */
  lemma AddressIsPlain(s: string)
    requires ParseAddress(s).Some?
    ensures BACKSLASH !in s
  {
    hide SplitOn;
    var parts := SplitOn(s, '.');
    forall i | 0 <= i < 4
      ensures BACKSLASH !in parts[i]
    {
      DigitsHaveNone(parts[i]);
    }
    SplitKeeps(s, '.', BACKSLASH);
  }

  lemma {:induction false} DigitsHaveNone(s: string)
    requires Digits(s) == s
    ensures BACKSLASH !in s
  {
    if s != "" {
      DigitsHaveNone(s[1..]);
    }
  }

  lemma {:induction false} SplitKeeps(s: string, sep: char, c: char)
    requires c != sep && forall i :: 0 <= i < |SplitOn(s, sep)| ==> c !in SplitOn(s, sep)[i]
    ensures c !in s
  {
    if s != "" {
      var rest := SplitOn(s[1..], sep);
      if s[0] == sep {
        assert forall i :: 0 <= i < |rest| ==> rest[i] == SplitOn(s, sep)[i + 1];
      } else {
        assert SplitOn(s, sep)[0] == [s[0]] + rest[0];
        assert forall i :: 1 <= i < |rest| ==> rest[i] == SplitOn(s, sep)[i];
        assert s[0] in SplitOn(s, sep)[0];
      }
      SplitKeeps(s[1..], sep, c);
    }
  }

  lemma {:induction false} TrimStartKeeps(s: string)
    ensures BACKSLASH in s ==> BACKSLASH in TrimStart(s)
  {
    if s != "" && Whitespace(s[0]) {
      TrimStartKeeps(s[1..]);
    }
  }

  lemma {:induction false} TrimEndKeeps(s: string)
    ensures BACKSLASH in s ==> BACKSLASH in TrimEnd(s)
  {
    if s != "" && Whitespace(s[|s| - 1]) {
      assert s == s[..|s| - 1] + [s[|s| - 1]];
      TrimEndKeeps(s[..|s| - 1]);
    }
  }

  lemma {:induction false} EscBefore(e: string, c: char)
    requires BACKSLASH !in Before(Esc(e), c) && c != BACKSLASH
    ensures Before(Esc(e), c) == Before(e, c)
  {
    if e != "" {
      var t := EscChar(e[0]);
      assert Esc(e) == t + Esc(e[1..]);
      assert Before(Esc(e), c) == if Esc(e)[0] == c then "" else [Esc(e)[0]] + Before(Esc(e)[1..], c);
      assert t == [e[0]] && Esc(e)[1..] == Esc(e[1..]);
      if e[0] != c {
        EscBefore(e[1..], c);
      }
    }
  }

  /** A part of an escaped entry, whole or cut behind a backslash: any index it holds is the entry's. */
  lemma PartOfEntry(e: string, p: string)
    requires p <= Esc(e) && (p == Esc(e) || (p != "" && p[|p| - 1] == BACKSLASH))
    ensures ParseEntry(p).Some? ==> ParseEntry(p) == ParseEntry(e)
  {
    hide ParseAddress, TrimStart, TrimEnd, Esc, Before;
    if ParseEntry(p).Some? {
      var head := Before(p, '/');
      AddressIsPlain(Trim(head));
      TrimEndKeeps(TrimStart(head));
      TrimStartKeeps(head);
      var rest := CutAt(p, '/');
      if '/' in p {
        assert p == head + ("/" + rest) && Esc(e) == head + ("/" + rest + Esc(e)[|p|..]);
        BeforeStops(head, "/" + rest + Esc(e)[|p|..], '/');
      } else {
        assert head == p && (p == "" || p[|p| - 1] in p);
      }
      assert Before(Esc(e), '/') == head;
      EscBefore(e, '/');
    }
  }

  lemma FirstPiece(e: string, w: string)
    requires w <= Esc(e) + [QUOTE]
    ensures var p := StripQuotes(Trim([QUOTE] + w));
            p.Some? && ParseEntry(p.value).Some? ==> ParseEntry(p.value) == ParseEntry(e)
  {
    hide TrimEnd, ParseEntry, Esc;
    var s := [QUOTE] + w;
    assert TrimStart(s) == s;
    TrimEndPrefix(s);
    var t := Trim(s);
    if StripQuotes(t).Some? {
      var p := StripQuotes(t).value;
      var n := |t| - 2;
      var all := Esc(e) + [QUOTE];
      assert p == w[..n] == all[..n] && all[n] == w[n] == t[n + 1] == QUOTE;
      assert p <= Esc(e);
      EscIsTame(e);
      if n < |Esc(e)| {
        assert all[n - 1] == BACKSLASH;
      }
      PartOfEntry(e, p);
    }
  }

  /** A printed entry, whole or cut, yields its own index or none. */
  lemma EntryYields(e: string, w: string)
    requires w <= Esc(e) + [QUOTE]
    ensures Indices(Entries([QUOTE] + w)) <= Indices([e])
  {
    hide Entries, Esc, Trim, StripQuotes, ParseEntry, Before, Indices, Tame;
    var s := [QUOTE] + w;
    var rest := CutAt(s, ',');
    var piece := Before(s, ',');
    assert piece == [QUOTE] + piece[1..] && piece[1..] <= w by { assert piece != "" by { FirstOf(s); } }
    FirstPiece(e, piece[1..]);
    EntriesOne(piece);
    IndicesOne(e);
    match StripQuotes(Trim(piece)) {
      case Some(p) => IndicesOne(p);
      case None => NoIndices();
    }
    if ',' in s {
      assert s == piece + "," + rest;
      EntriesJoin(piece, rest);
      var all := Esc(e) + [QUOTE];
      EscIsTame(e);
      assert w == piece[1..] + "," + rest by { assert w == s[1..]; }
      assert all == piece[1..] + "," + rest + all[|w|..];
      TameAfterComma(piece[1..], rest, all[|w|..]);
      TameYieldsNothing(rest);
      IndicesAppend(Entries(piece), []);
      NoIndices();
    }
  }

  lemma FirstOf(s: string)
    requires s != "" && s[0] == QUOTE
    ensures Before(s, ',') != "" && Before(s, ',')[0] == QUOTE
  {
  }

  lemma NoIndices()
    ensures Indices([]) == {}
  {
  }

  // ---- A printed list ------------------------------------------------------

  /** A printed list cut anywhere holds no index that its entries did not. */
  lemma {:induction false} CutListYields(items: seq<string>, m: nat)
    requires m <= |ShowItems(items)|
    ensures Indices(Entries(ShowItems(items)[..m])) <= Indices(items)
    decreases |items|
  {
    hide Entries, ShowItems, Esc, Indices;
    if m == 0 {
      assert ShowItems(items)[..0] == "";
      EntriesOne("");
      assert Trim("") == "";
      NoIndices();
    } else {
      NoItems();
      var e, rest := items[0], items[1..];
      var printed := Esc(e) + [QUOTE];
      var n := |printed| + 1;
      ItemHead(items);
      var all := ShowItems(items);
      assert all == [QUOTE] + printed + MoreItems(rest);
      assert items == [e] + rest;
      IndicesAppend([e], rest);
      if m <= n {
        assert all[..m] == [QUOTE] + printed[..m - 1];
        EntryYields(e, printed[..m - 1]);
      } else {
        var k := m - n - 1;
        assert all[..m] == ([QUOTE] + printed) + "," + ShowItems(rest)[..k];
        EntriesJoin([QUOTE] + printed, ShowItems(rest)[..k]);
        IndicesAppend(Entries([QUOTE] + printed), Entries(ShowItems(rest)[..k]));
        EntryYields(e, printed);
        CutListYields(rest, k);
      }
    }
  }

  /** What is read of a printed list, whatever stands behind it, holds no index that its entries did not. */
  lemma IndicesRead(items: seq<string>, t: string)
    ensures Indices(ReadList(ShowItems(items) + ("]" + t))) <= Indices(items)
  {
    hide Unquoted, SplitOn, ShowItems, Before, Indices;
    BeforeStops(ShowItems(items), "]" + t, ']');
    var rest := CutAt(ShowItems(items), ']');
    var head := Before(ShowItems(items), ']');
    CutListYields(items, |head|);
    assert head == ShowItems(items)[..|head|];
  }

  /** A plain entry in front comes back in front, whatever the others hold. */
  lemma FirstEntryReads(items: seq<string>)
    requires items != [] && PlainItem(items[0])
    ensures ReadList(ShowItems(items)) != [] && ReadList(ShowItems(items))[0] == items[0]
  {
    hide Unquoted, SplitOn, ShowItems, Before, Esc, Trim, StripQuotes;
    var e, rest := items[0], items[1..];
    EscQuoteFree(e);
    ItemHead(items);
    var piece := [QUOTE] + e + [QUOTE];
    QuotedPiece(e);
    EntriesOne(piece);
    if rest == [] {
      assert ShowItems(items) == piece;
      BeforeStops(piece, "]", ']');
    } else {
      assert ShowItems(items) == piece + ("," + ShowItems(rest));
      BeforeLater(piece, "," + ShowItems(rest), ']');
      BeforeLater(",", ShowItems(rest), ']');
      var more := Before(ShowItems(rest), ']');
      assert piece + ("," + more) == piece + "," + more;
      EntriesJoin(piece, more);
    }
  }

  // ---- A list cut at a closing brace ---------------------------------------

  lemma BracePiece(s: string)
    requires s != "" && s[|s| - 1] == '}'
    ensures StripQuotes(Trim(s)) == None
  {
    hide TrimStart;
    var j := TrimStartCut(s);
    assert !Whitespace('}');
    assert s[j..][|s| - j - 1] == '}';
  }

  /** A text that ends in a brace yields no entry that it would not yield with more text behind it. */
  lemma {:induction false} EntriesLast(s: string, t: string)
    requires s != "" && s[|s| - 1] == '}'
    ensures Indices(Entries(s)) <= Indices(Entries(s + t))
    decreases |s|
  {
    hide Entries, StripQuotes, Trim, Before, Indices;
    if ',' in s {
      var rest := CutAt(s, ',');
      var piece := Before(s, ',');
      assert rest[|rest| - 1] == s[|s| - 1] by { assert s == piece + "," + rest; }
      assert s + t == piece + "," + (rest + t);
      EntriesJoin(piece, rest);
      EntriesJoin(piece, rest + t);
      IndicesAppend(Entries(piece), Entries(rest));
      IndicesAppend(Entries(piece), Entries(rest + t));
      EntriesLast(rest, t);
    } else {
      BracePiece(s);
      EntriesOne(s);
      NoIndices();
    }
  }

  lemma {:induction false} BeforeLater(s: string, t: string, c: char)
    requires c !in s
    ensures Before(s + t, c) == s + Before(t, c)
  {
    if s == "" {
      assert s + t == t;
    } else {
      assert (s + t)[1..] == s[1..] + t;
      BeforeLater(s[1..], t, c);
    }
  }

  lemma ReadListLasts(s: string, t: string)
    requires s != "" && s[|s| - 1] == '}'
    ensures Indices(ReadList(s)) <= Indices(ReadList(s + t))
  {
    hide Before, Unquoted, SplitOn, Indices;
    var rest := CutAt(s, ']');
    if ']' in s {
      var head := Before(s, ']');
      assert s == head + ("]" + rest) && s + t == head + ("]" + rest + t);
      BeforeStops(head, "]" + rest + t, ']');
      assert Before(head, ']') == head;
    } else {
      BeforeLater(s, t, ']');
      EntriesLast(s, Before(t, ']'));
    }
  }

  // ---- Who carries an index ------------------------------------------------

  predicate Carries(r: Record, x: nat) {
    x in Indices(r.allowedIps)
  }

  function CarrierOf(x: nat): Record -> bool {
    r => Carries(r, x)
  }

  /** A list with the index follows, behind a colon. */
  predicate Lists(s: string, x: nat) {
    && ColonNext(s)
    && var r := TrimStart(TrimStart(s)[1..]); r != "" && r[0] == '[' && x in Indices(ReadList(r[1..]))
  }

  function ListerOf(x: nat): string -> bool {
    s => Lists(s, x)
  }

  lemma ListsLasts(o: string, t: string, x: nat)
    requires o != "" && o[|o| - 1] == '}' && Lists(o, x)
    ensures Lists(o + t, x)
  {
    hide TrimStart, ReadList, Indices;
    var r := TrimStart(o);
    TrimStartAppend(o, t);
    assert (r + t)[1..] == r[1..] + t;
    var list := TrimStart(r[1..]);
    TrimStartAppend(r[1..], t);
    assert (list + t)[1..] == list[1..] + t;
    var j := TrimStartCut(o);
    var k := TrimStartCut(r[1..]);
    assert list[|list| - 1] == r[|r| - 1] == o[|o| - 1];
    ReadListLasts(list[1..], t);
  }

  lemma CarrierLists(o: string, x: nat)
    requires ParseObject(o).Some? && Carries(ParseObject(o).value, x)
    ensures Hits(o, "allowed_ips", ListerOf(x)) >= 1
  {
    hide After, Hits, TrimStart, Unquoted, SplitOn, Before, ExtractStr, ObjU64, Indices;
    NoIndices();
    var rest := After(o, Needle("allowed_ips")).value;
    FoundIsHit(o, rest, "allowed_ips", ListerOf(x));
  }

  lemma PrintedLists(r: Record, index: Option<nat>, t: string, x: nat)
    requires t != "" && Lists(":" + ShowValue(FieldsOf(r, index)[5].value) + t, x)
    ensures Carries(r, x)
  {
    hide ShowItems, ReadList, Indices, OverlayText;
    var v := "[" + ShowItems(r.allowedIps) + "]";
    assert ShowValue(FieldsOf(r, index)[5].value) == v;
    assert (":" + v + t)[1..] == v + t;
    assert TrimStart(":" + v + t) == ":" + v + t && TrimStart(v + t) == v + t;
    assert (v + t)[1..] == ShowItems(r.allowedIps) + ("]" + t);
    IndicesRead(r.allowedIps, t);
  }

  lemma ListingIsWhatCarriersNeed(x: nat)
    ensures Needs(CarrierOf(x), "allowed_ips", ListerOf(x))
    ensures Lasting(ListerOf(x)) && OnlyAtColon(ListerOf(x)) && Marks(CarrierOf(x), 5, ListerOf(x))
  {
    hide ParseObject, Hits, Lists, Carries, FieldsOf, ShowValue;
    forall o | ParseObject(o).Some? && CarrierOf(x)(ParseObject(o).value)
      ensures Hits(o, "allowed_ips", ListerOf(x)) >= 1
    {
      CarrierLists(o, x);
    }
    forall o, t | o != "" && o[|o| - 1] == '}' && ListerOf(x)(o)
      ensures ListerOf(x)(o + t)
    {
      ListsLasts(o, t, x);
    }
    forall t | ListerOf(x)(t)
      ensures ColonNext(t)
    {
      ListsAtColon(t, x);
    }
    forall r, index, t | t != "" && ListerOf(x)(":" + ShowValue(FieldsOf(r, index)[5].value) + t)
      ensures CarrierOf(x)(r)
    {
      PrintedLists(r, index, t, x);
    }
  }

  lemma ListsAtColon(s: string, x: nat)
    requires Lists(s, x)
    ensures ColonNext(s)
  {
  }

  /** For every list of records, each index comes back at most as often as it was saved. */
  lemma NoIndexMultiplies(rs: seq<Record>, overlayOf: seq<string> -> Option<nat>, x: nat)
    ensures Count(LoadSpec(SaveText(rs, overlayOf)), CarrierOf(x)) <= Count(rs, CarrierOf(x))
  {
    hide LoadSpec, SaveText, Count, Needs, Lasting, OnlyAtColon, Marks, OverlayText;
    ListingIsWhatCarriersNeed(x);
    LoadedAtMostSaved(rs, overlayOf, CarrierOf(x), 5, "allowed_ips", ListerOf(x));
  }

  // ---- Disjointness --------------------------------------------------------

  lemma {:induction false} CountAtLeast(rs: seq<Record>, want: Record -> bool, i: nat)
    requires i < |rs| && want(rs[i])
    ensures Count(rs, want) >= 1
  {
    if i > 0 {
      CountAtLeast(rs[1..], want, i - 1);
    }
  }

  lemma {:induction false} CountPair(rs: seq<Record>, want: Record -> bool, i: nat, j: nat)
    requires i < j < |rs| && want(rs[i]) && want(rs[j])
    ensures Count(rs, want) >= 2
  {
    if i > 0 {
      CountPair(rs[1..], want, i - 1, j - 1);
    } else {
      CountAtLeast(rs[1..], want, j - 1);
    }
  }

  lemma {:induction false} CountOne(rs: seq<Record>, want: Record -> bool)
    requires forall i, j :: 0 <= i < j < |rs| ==> !want(rs[i]) || !want(rs[j])
    ensures Count(rs, want) <= 1
  {
    if rs != [] {
      var rest := rs[1..];
      assert forall i :: 0 <= i < |rest| ==> rest[i] == rs[i + 1];
      if want(rs[0]) {
        NoneCounted(rest, want);
      } else {
        CountOne(rest, want);
      }
    }
  }

  lemma {:induction false} NoneCounted(rs: seq<Record>, want: Record -> bool)
    requires forall i :: 0 <= i < |rs| ==> !want(rs[i])
    ensures Count(rs, want) == 0
  {
    if rs != [] {
      NoneCounted(rs[1..], want);
    }
  }

  lemma DisjointIsCounted(rs: seq<Record>)
    ensures Disjoint(rs) <==> forall x :: Count(rs, CarrierOf(x)) <= 1
  {
    hide Indices, Count;
    if Disjoint(rs) {
      forall x: nat
        ensures Count(rs, CarrierOf(x)) <= 1
      {
        CountOne(rs, CarrierOf(x));
      }
    }
    if forall x :: Count(rs, CarrierOf(x)) <= 1 {
      forall i, j, x | 0 <= i < j < |rs| && x in Indices(rs[i].allowedIps)
        ensures x !in Indices(rs[j].allowedIps)
      {
        if Carries(rs[j], x) {
          CountPair(rs, CarrierOf(x), i, j);
        }
      }
    }
  }

  /** Loading a saved list keeps indices apart, whatever else it loses. */
  lemma LoadKeepsDisjoint(rs: seq<Record>, overlayOf: seq<string> -> Option<nat>)
    requires Disjoint(rs)
    ensures Disjoint(LoadSpec(SaveText(rs, overlayOf)))
  {
    hide Disjoint, Count, LoadSpec, SaveText, CarrierOf;
    DisjointIsCounted(rs);
    DisjointIsCounted(LoadSpec(SaveText(rs, overlayOf)));
    forall x: nat
      ensures Count(LoadSpec(SaveText(rs, overlayOf)), CarrierOf(x)) <= 1
    {
      NoIndexMultiplies(rs, overlayOf, x);
    }
  }
}
