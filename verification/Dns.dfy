/** The DNS message codec of section 4.1 of RFC 1035: one question in, at most one answer out.
    A name is the bytes of its UTF-8 text. */
module Dns {
  import opened Words
  import opened Bits
  import opened Options

  const DOT: u8 := 46
  const TYPE_A: u16 := 1
  const CLASS_IN: u16 := 1
  const FLAG_RD: int := 0x0100

  datatype Query = Query(id: u16, name: Bytes, qtype: u16, qclass: u16, recursionDesired: bool)

  // ---- Names ---------------------------------------------------------------

  ghost predicate Ascii(s: Bytes) {
    forall i :: 0 <= i < |s| ==> s[i] < 128
  }

  /** `char::from(b)` pushed onto a string: one byte below 128, two above. */
  function Latin(b: u8): Bytes {
    if b >= 128 then [192 + b / 64, 128 + b % 64] else [b]
  }

  function Expand(part: Bytes): Bytes {
    if part == [] then [] else Expand(part[..|part| - 1]) + Latin(part[|part| - 1])
  }

  /** `str::split('.')`: always at least one piece, possibly empty ones. */
  function Split(name: Bytes): (labels: seq<Bytes>)
    ensures |labels| >= 1
  {
    if name == [] then [[]]
    else
      var rest := Split(name[1..]);
      if name[0] == DOT then [[]] + rest else [[name[0]] + rest[0]] + rest[1..]
  }

  function Join(labels: seq<Bytes>): Bytes {
    if labels == [] then [] else if |labels| == 1 then labels[0] else labels[0] + [DOT] + Join(labels[1..])
  }

  /** What the encoder keeps of the labels: empty ones are skipped, long ones cut to 63 bytes. */
  function Kept(labels: seq<Bytes>): seq<Bytes> {
    if labels == [] then []
    else if labels[0] == [] then Kept(labels[1..])
    else [Clamp(labels[0])] + Kept(labels[1..])
  }

  function Clamp(part: Bytes): (r: Bytes)
    ensures |r| == if |part| < 63 then |part| else 63
  {
    if |part| < 63 then part else part[..63]
  }

  /** Every label has 1 to 63 bytes, or the name is empty. */
  ghost predicate LabelsOk(name: Bytes) {
    name == [] || forall i :: 0 <= i < |Split(name)| ==> 1 <= |Split(name)[i]| <= 63
  }

  /** The only run of bytes that is its own expansion from a byte above 127 on: it begins with 195, and
      bytes 2 i and 2 i + 1 are byte i written as a character. */
  function Tail(i: nat): (b: u8)
    ensures b >= 128
  {
    if i == 0 then 195 else Latin(Tail(i / 2))[i % 2]
  }

  /** A label the encoder and the parser give back: 1 to 63 ASCII bytes, or a longer label whose cut
      grows back to it, k ASCII bytes and then 2 (63 - k) bytes of the tail. */
  ghost predicate Readable(part: Bytes) {
    if |part| <= 63 then part != [] && Ascii(part)
    else
      && |part| <= 126 && Ascii(part[..126 - |part|])
      && forall i :: 126 - |part| <= i < |part| ==> part[i] == Tail(i - (126 - |part|))
  }

  ghost predicate NameReads(name: Bytes) {
    name == [] || forall i :: 0 <= i < |Split(name)| ==> Readable(Split(name)[i])
  }

  function EncodeLabels(labels: seq<Bytes>): Bytes
    requires forall i :: 0 <= i < |labels| ==> |labels[i]| <= 63
  {
    if labels == [] then [] else [|labels[0]| as u8] + labels[0] + EncodeLabels(labels[1..])
  }

  lemma {:induction false} KeptShort(labels: seq<Bytes>)
    ensures forall i :: 0 <= i < |Kept(labels)| ==> 1 <= |Kept(labels)[i]| <= 63
  {
    if labels != [] {
      KeptShort(labels[1..]);
    }
  }

  /** A name on the wire: length-prefixed labels and a zero. */
  function NameBytes(name: Bytes): Bytes {
    KeptShort(Split(name));
    EncodeLabels(Kept(Split(name))) + [0]
  }

  // ---- Reading a name ------------------------------------------------------

  /** A label appended to a dotted name. */
  function PushLabel(name: Bytes, part: Bytes): Bytes {
    (if name == [] then [] else name + [DOT]) + Expand(part)
  }

  datatype Parsed = Parsed(name: Bytes, pos: nat)

  /** The label loop from a position, with the name read so far. */
  function ParseLabels(buf: Bytes, pos: nat, name: Bytes): (r: Option<Parsed>)
    ensures r.Some? ==> |r.value.name| <= 255 || r.value.name == name
    decreases |buf| - pos
  {
    if pos >= |buf| then None
    else
      var len := buf[pos] as int;
      if len == 0 then Some(Parsed(name, pos + 1))
      else if len >= 64 || pos + 1 + len > |buf| then None
      else
        var name' := PushLabel(name, buf[pos + 1..pos + 1 + len]);
        if |name'| > 255 then None else ParseLabels(buf, pos + 1 + len, name')
  }

  function U16At(buf: Bytes, pos: nat): u16
    requires pos + 2 <= |buf|
  {
    256 * buf[pos] as u16 + buf[pos + 1] as u16
  }

  function ParseQuerySpec(buf: Bytes): Option<Query> {
    if |buf| < 12 || U16At(buf, 4) == 0 then None
    else
      match ParseLabels(buf, 12, [])
      case None => None
      case Some(p) =>
        if p.pos + 4 > |buf| then None
        else Some(Query(U16At(buf, 0), p.name, U16At(buf, p.pos), U16At(buf, p.pos + 2),
                        And(U16At(buf, 2) as int, FLAG_RD) != 0))
  }

  method ParseQuery(buf: Bytes) returns (q: Option<Query>)
    ensures q == ParseQuerySpec(buf)
  {
    hide PushLabel, Bitwise;
    if |buf| < 12 {
      return None;
    }
    var id, flags, qdcount := U16At(buf, 0), U16At(buf, 2), U16At(buf, 4);
    if qdcount == 0 {
      return None;
    }
    var pos, name := 12, [];
    while true
      invariant 0 <= pos <= |buf|
      invariant ParseLabels(buf, 12, []) == ParseLabels(buf, pos, name)
      decreases |buf| - pos
    {
      if pos >= |buf| {
        return None;
      }
      var len := buf[pos] as int;
      if len == 0 {
        pos := pos + 1;
        break;
      }
      if len >= 64 {
        return None;
      }
      var end := pos + 1 + len;
      if end > |buf| {
        return None;
      }
      name := PushLabel(name, buf[pos + 1..end]);
      if |name| > 255 {
        return None;
      }
      pos := end;
    }
    if pos + 4 > |buf| {
      return None;
    }
    q := Some(Query(id, name, U16At(buf, pos), U16At(buf, pos + 2), And(flags as int, FLAG_RD) != 0));
  }

  // ---- Writing -------------------------------------------------------------

  function Be16(x: u16): (b: Bytes)
    ensures |b| == 2 && U16At(b, 0) == x
  {
    [(x / 256) as u8, (x % 256) as u8]
  }

  method EncodeName(name: Bytes) returns (out: Bytes)
    ensures out == NameBytes(name)
  {
    var labels := Split(name);
    out := [];
    KeptShort(labels);
    for i := 0 to |labels|
      invariant forall k :: 0 <= k < |Kept(labels[i..])| ==> |Kept(labels[i..])[k]| <= 63
      invariant out + EncodeLabels(Kept(labels[i..])) == EncodeLabels(Kept(labels))
    {
      KeptShort(labels[i + 1..]);
      var part := labels[i];
      assert labels[i..][0] == part && labels[i..][1..] == labels[i + 1..];
      if part != [] {
        var len := if |part| < 63 then |part| else 63;
        assert Kept(labels[i..]) == [Clamp(part)] + Kept(labels[i + 1..]);
        assert ([Clamp(part)] + Kept(labels[i + 1..]))[1..] == Kept(labels[i + 1..]);
        out := out + [len as u8] + part[..len];
      }
    }
    assert labels[|labels|..] == [];
    out := out + [0];
  }

  function Header(id: u16, flags: u16, answers: u16): (h: Bytes)
    ensures |h| == 12
  {
    Be16(id) + Be16(flags) + Be16(1) + Be16(answers) + Be16(0) + Be16(0)
  }

  function Question(name: Bytes, qtype: u16, qclass: u16): Bytes {
    NameBytes(name) + Be16(qtype) + Be16(qclass)
  }

  method BuildQuery(id: u16, name: Bytes, qtype: u16) returns (out: Bytes)
    ensures out == Header(id, 0x0100, 0) + Question(name, qtype, CLASS_IN)
  {
    hide NameBytes, Be16;
    out := Be16(id);
    out := out + Be16(0x0100);
    out := out + Be16(1);
    out := out + Be16(0);
    out := out + Be16(0);
    out := out + Be16(0);
    var encoded := EncodeName(name);
    out := out + encoded;
    out := out + Be16(qtype);
    out := out + Be16(CLASS_IN);
  }

  /** `0x8400 | RD | rcode`. */
  function ResponseFlags(rd: bool, rcode: u16): (f: u16)
    requires rcode == 0 || rcode == 3
    ensures f as int == 0x8400 + (if rd then 0x0100 else 0) + rcode as int
  {
    hide Bitwise, Pow2;
    FlagSums(rd, rcode as int);
    Or(if rd then Or(0x8400, FLAG_RD) else 0x8400, rcode as int) as u16
  }

  lemma FlagSums(rd: bool, rcode: int)
    requires rcode == 0 || rcode == 3
    ensures Or(if rd then Or(0x8400, FLAG_RD) else 0x8400, rcode) == 0x8400 + (if rd then 0x0100 else 0) + rcode
  {
    hide Bitwise, Pow2;
    Pow2Eight();
    Pow2Two();
    Pow2Add(8, 2);
    OrDisjoint(0x0100, 33, 10);
    OrDisjoint(rcode, 132, 8);
    OrDisjoint(rcode, 133, 8);
  }

  /** The recursion bit read back from flags that carry it at bit 8. */
  lemma RecursionBit(flags: nat, high: nat, low: nat, rd: bool)
    requires flags == 512 * high + (if rd then 256 else 0) + low && low < 256
    ensures And(flags, FLAG_RD) != 0 <==> rd
  {
    hide Bitwise, Pow2;
    Pow2Eight();
    AndOneBit(flags, 8);
    assert flags / 256 == 2 * high + (if rd then 1 else 0);
  }

  function Answer(ip: Bytes, ttl: Bytes): Bytes
    requires |ip| == 4 && |ttl| == 4
  {
    [0xC0, 0x0C] + Be16(TYPE_A) + Be16(CLASS_IN) + ttl + Be16(4) + ip
  }

  /** NXDOMAIN exactly when the name does not resolve, an answer exactly for a resolved A query. */
  function ResponseSpec(q: Query, resolved: Option<Bytes>, ttl: Bytes): Bytes
    requires resolved.Some? ==> |resolved.value| == 4
    requires |ttl| == 4
  {
    var answered := resolved.Some? && q.qtype == TYPE_A;
    Header(q.id, ResponseFlags(q.recursionDesired, if resolved.Some? then 0 else 3), if answered then 1 else 0)
    + Question(q.name, q.qtype, q.qclass)
    + (if answered then Answer(resolved.value, ttl) else [])
  }

  method BuildResponse(q: Query, resolved: Option<Bytes>, ttl: Bytes) returns (out: Bytes)
    requires resolved.Some? ==> |resolved.value| == 4
    requires |ttl| == 4
    ensures out == ResponseSpec(q, resolved, ttl)
  {
    hide NameBytes, Be16, Bitwise, Split, Kept, EncodeLabels;
    var answer: Option<Bytes>;
    var rcode: u16;
    if q.qtype == TYPE_A {
      match resolved {
        case Some(ip) => answer, rcode := Some(ip), 0;
        case None => answer, rcode := None, 3;
      }
    } else {
      match resolved {
        case Some(_) => answer, rcode := None, 0;
        case None => answer, rcode := None, 3;
      }
    }
    var ancount: u16 := if answer.Some? then 1 else 0;
    out := Be16(q.id);
    FlagSums(q.recursionDesired, rcode as int);
    var flags := if q.recursionDesired then Or(0x8400, FLAG_RD) else 0x8400;
    flags := Or(flags, rcode as int);
    out := out + Be16(flags as u16);
    out := out + Be16(1);
    out := out + Be16(ancount);
    out := out + Be16(0);
    out := out + Be16(0);
    assert out == Header(q.id, flags as u16, ancount);
    ghost var header := out;
    var encoded := EncodeName(q.name);
    out := out + encoded;
    out := out + Be16(q.qtype);
    out := out + Be16(q.qclass);
    assert out == header + Question(q.name, q.qtype, q.qclass);
    ghost var asked := out;
    if answer.Some? {
      out := out + [0xC0, 0x0C];
      out := out + Be16(TYPE_A);
      out := out + Be16(CLASS_IN);
      out := out + ttl;
      out := out + Be16(4);
      out := out + answer.value;
      assert out == asked + Answer(answer.value, ttl);
    }
  }

  // ---- Splitting and joining -----------------------------------------------

  lemma {:induction false} JoinSplit(name: Bytes)
    ensures Join(Split(name)) == name
  {
    if name != [] {
      JoinSplit(name[1..]);
      var rest := Split(name[1..]);
      if name[0] == DOT {
        assert ([[]] + rest)[1..] == rest;
      } else {
        var labels := [[name[0]] + rest[0]] + rest[1..];
        assert labels[1..] == rest[1..];
        if |rest| > 1 {
          assert name == [name[0]] + (rest[0] + [DOT] + Join(rest[1..]));
        }
      }
    }
  }

  lemma {:induction false} SplitAscii(name: Bytes)
    requires Ascii(name)
    ensures forall i :: 0 <= i < |Split(name)| ==> Ascii(Split(name)[i])
  {
    if name != [] {
      SplitAscii(name[1..]);
      var rest := Split(name[1..]);
      assert Ascii(rest[0]);
      assert Ascii([name[0]] + rest[0]);
      forall i | 0 <= i < |Split(name)|
        ensures Ascii(Split(name)[i])
      {
        if name[0] == DOT {
          assert i > 0 ==> Split(name)[i] == rest[i - 1];
        } else {
          assert i > 0 ==> Split(name)[i] == rest[i];
        }
      }
    }
  }

  lemma {:induction false} SplitHasNoDots(name: Bytes)
    ensures forall i :: 0 <= i < |Split(name)| ==> DOT !in Split(name)[i]
  {
    if name != [] {
      SplitHasNoDots(name[1..]);
    }
  }

  lemma {:induction false} SplitLabel(part: Bytes, rest: Bytes)
    requires DOT !in part
    ensures Split(part) == [part]
    ensures Split(part + [DOT] + rest) == [part] + Split(rest)
  {
    if part == [] {
      assert part + [DOT] + rest == [DOT] + rest && ([DOT] + rest)[1..] == rest;
    } else {
      SplitLabel(part[1..], rest);
      assert (part + [DOT] + rest)[1..] == part[1..] + [DOT] + rest;
      assert [part[0]] + part[1..] == part;
      assert ([part[1..]] + Split(rest))[1..] == Split(rest);
    }
  }

  lemma {:induction false} SplitJoin(labels: seq<Bytes>)
    requires labels != [] && forall i :: 0 <= i < |labels| ==> DOT !in labels[i]
    ensures Split(Join(labels)) == labels
    decreases |labels|
  {
    hide Split, Join;
    JoinHead(labels);
    if |labels| == 1 {
      SplitLabel(labels[0], []);
      assert labels == [labels[0]];
    } else {
      SplitLabel(labels[0], Join(labels[1..]));
      SplitJoin(labels[1..]);
      assert labels == [labels[0]] + labels[1..];
    }
  }

  lemma JoinHead(labels: seq<Bytes>)
    requires labels != []
    ensures |labels| == 1 ==> Join(labels) == labels[0]
    ensures |labels| > 1 ==> Join(labels) == labels[0] + [DOT] + Join(labels[1..])
  {
  }

  lemma {:induction false} KeptLength(labels: seq<Bytes>)
    ensures |Kept(labels)| <= |labels|
    ensures |Kept(labels)| == |labels| <==> forall i :: 0 <= i < |labels| ==> labels[i] != []
    ensures |Kept(labels)| == |labels| ==> forall i :: 0 <= i < |labels| ==> Kept(labels)[i] == Clamp(labels[i])
  {
    if labels != [] {
      KeptLength(labels[1..]);
      assert forall i :: 1 <= i < |labels| ==> labels[i] == labels[1..][i - 1];
    }
  }

  lemma ExpandLast(part: Bytes)
    ensures part == [] ==> Expand(part) == []
    ensures part != [] ==> Expand(part) == Expand(part[..|part| - 1]) + Latin(part[|part| - 1])
  {
    hide Latin;
  }

  lemma {:induction false} ExpandAscii(part: Bytes)
    requires Ascii(part)
    ensures Expand(part) == part
  {
    hide Expand;
    ExpandLast(part);
    if part != [] {
      var init := part[..|part| - 1];
      assert Ascii(init);
      ExpandAscii(init);
      assert part == init + [part[|part| - 1]];
    }
  }


  lemma {:induction false} ExpandAppend(a: Bytes, b: Bytes)
    ensures Expand(a + b) == Expand(a) + Expand(b)
  {
    if b == [] {
      assert a + b == a;
    } else {
      var init := b[..|b| - 1];
      assert (a + b)[..|a + b| - 1] == a + init;
      ExpandAppend(a, init);
    }
  }

  lemma {:induction false} ExpandLength(part: Bytes)
    ensures |part| <= |Expand(part)| <= 2 * |part|
    ensures |Expand(part)| == |part| ==> Ascii(part)
    ensures DOT !in part ==> DOT !in Expand(part)
  {
    if part != [] {
      ExpandLength(part[..|part| - 1]);
    }
  }

  // ---- Labels that read back -----------------------------------------------

  function Tails(m: nat): (t: Bytes)
    ensures |t| == m && forall i :: 0 <= i < m ==> t[i] == Tail(i)
  {
    seq(m, i requires 0 <= i < m => Tail(i))
  }

  lemma TailPair(i: nat)
    ensures Latin(Tail(i)) == [Tail(2 * i), Tail(2 * i + 1)]
  {
    assert 2 * i / 2 == i && (2 * i + 1) / 2 == i;
  }

  lemma {:induction false} TailsExpand(m: nat)
    ensures Expand(Tails(m)) == Tails(2 * m)
  {
    hide Tail, Latin, Expand;
    if m == 0 {
      ExpandLast([]);
      assert Tails(0) == [];
    } else {
      TailsExpand(m - 1);
      TailPair(m - 1);
      ExpandLast(Tails(m));
      assert Tails(m)[..m - 1] == Tails(m - 1);
      assert Tails(2 * m) == Tails(2 * m - 2) + [Tail(2 * m - 2), Tail(2 * m - 1)];
    }
  }

  lemma FixedStart(w: Bytes)
    requires w != [] && w[0] >= 128 && Expand(w) != [] && w[0] == Expand(w)[0]
    ensures w[0] == Tail(0)
  {
    hide Expand;
    ExpandAppend(w[..1], w[1..]);
    assert w == w[..1] + w[1..];
    ExpandLast(w[..1]);
    ExpandLast([]);
    assert w[..1][..0] == [];
    assert Expand(w)[0] == Latin(w[0])[0];
  }

  /** Bytes that begin above 127 and are the start of their own expansion are the tail. */
  lemma {:induction false} FixedIsTail(w: Bytes, n: nat)
    requires w != [] && w[0] >= 128 && n <= |w| && |w| <= |Expand(w)| && w == Expand(w)[..|w|]
    ensures w[..n] == Tails(n)
  {
    hide Tail, Latin, Expand;
    if n == 1 {
      FixedStart(w);
    } else if n > 1 {
      FixedIsTail(w, n - 1);
      var i := n - 1;
      ExpandAppend(w[..i], w[i..]);
      assert w == w[..i] + w[i..];
      TailsExpand(i);
      assert w[i] == Expand(w)[i] == Tails(2 * i)[i];
      assert w[..n] == w[..i] + [w[i]];
    }
  }

  function FirstHigh(part: Bytes): (k: nat)
    ensures k <= |part| && Ascii(part[..k]) && (k < |part| ==> part[k] >= 128)
  {
    if part == [] || part[0] >= 128 then 0
    else
      var k := 1 + FirstHigh(part[1..]);
      assert forall i :: 0 <= i < k ==> part[..k][i] == if i == 0 then part[0] else part[1..][..k - 1][i - 1];
      k
  }

  lemma ReadableGrowsBack(part: Bytes)
    requires 63 < |part| && Readable(part)
    ensures Expand(part[..63]) == part
  {
    hide Expand, Tail;
    var k := 126 - |part|;
    var w := part[k..63];
    assert part[..63] == part[..k] + w;
    ExpandAppend(part[..k], w);
    ExpandAscii(part[..k]);
    assert w == Tails(63 - k);
    TailsExpand(63 - k);
    assert part[k..] == Tails(2 * (63 - k));
    assert part == part[..k] + part[k..];
  }

  lemma GrownBackIsReadable(part: Bytes)
    requires 63 < |part| && Expand(part[..63]) == part
    ensures Readable(part)
  {
    hide Expand, Tail;
    var cut := part[..63];
    var k := FirstHigh(cut);
    var a, w := cut[..k], cut[k..];
    assert cut == a + w;
    ExpandAppend(a, w);
    ExpandAscii(a);
    ExpandLength(w);
    ExpandLast([]);
    assert part == a + Expand(w);
    assert w == Expand(w)[..|w|] by { StartsAlike(part, a, w, Expand(w)); }
    FixedIsTail(w, |w|);
    assert w[..|w|] == w;
    TailsExpand(|w|);
    ReadableShape(part, a, Tails(2 * |w|));
  }

  lemma StartsAlike(part: Bytes, a: Bytes, w: Bytes, long: Bytes)
    requires part == a + long && |w| <= |long| && part[..|a| + |w|] == a + w
    ensures w == long[..|w|]
  {
    assert part[..|a| + |w|][|a|..] == w;
    assert part[|a|..] == long;
  }

  lemma ReadableShape(part: Bytes, a: Bytes, t: Bytes)
    requires part == a + t && Ascii(a) && |a| < 63 && |t| == 2 * (63 - |a|) && t == Tails(|t|)
    ensures Readable(part)
  {
    hide Tail;
    assert 126 - |part| == |a| && part[..|a|] == a;
  }

  /** What comes back of a non-empty label is the label exactly when it is readable. */
  lemma LabelReadsBack(part: Bytes)
    ensures part != [] ==> (Expand(Clamp(part)) == part <==> Readable(part))
  {
    hide Expand, Tail;
    if |part| > 63 {
      if Readable(part) {
        ReadableGrowsBack(part);
      }
      if Expand(part[..63]) == part {
        GrownBackIsReadable(part);
      }
    } else if Ascii(part) {
      ExpandAscii(part);
      assert part[..|part|] == part;
    } else {
      ExpandLength(part);
      assert part[..|part|] == part;
    }
  }

  // ---- Reading back what was written ---------------------------------------

  ghost predicate WireLabels(labels: seq<Bytes>) {
    forall i :: 0 <= i < |labels| ==> 1 <= |labels[i]| <= 63
  }

  function ExpandAll(labels: seq<Bytes>): (r: seq<Bytes>)
    ensures |r| == |labels| && forall i :: 0 <= i < |r| ==> r[i] == Expand(labels[i])
  {
    seq(|labels|, i requires 0 <= i < |labels| => Expand(labels[i]))
  }

  function PushAll(name: Bytes, labels: seq<Bytes>): Bytes
    decreases |labels|
  {
    if labels == [] then name else PushAll(PushLabel(name, labels[0]), labels[1..])
  }

  lemma {:induction false} PushAllGrows(name: Bytes, labels: seq<Bytes>)
    ensures |PushAll(name, labels)| >= |name|
    decreases |labels|
  {
    if labels != [] {
      PushAllGrows(PushLabel(name, labels[0]), labels[1..]);
    }
  }

  lemma {:induction false} PushAllJoins(name: Bytes, labels: seq<Bytes>)
    requires WireLabels(labels) && labels != []
    ensures PushAll(name, labels)
         == (if name == [] then Join(ExpandAll(labels)) else name + [DOT] + Join(ExpandAll(labels)))
    decreases |labels|
  {
    hide Expand;
    var first, rest := Expand(labels[0]), labels[1..];
    ExpandLength(labels[0]);
    var name' := PushLabel(name, labels[0]);
    assert PushAll(name, labels) == PushAll(name', rest);
    assert ExpandAll(labels)[1..] == ExpandAll(rest);
    if rest != [] {
      PushAllJoins(name', rest);
      var tail := Join(ExpandAll(rest));
      assert Join(ExpandAll(labels)) == first + [DOT] + tail;
      if name != [] {
        assert name + [DOT] + first + [DOT] + tail == name + [DOT] + (first + [DOT] + tail);
      }
    }
  }

  /** What reading labels ends with: an over-long name is refused. */
  function Outcome(labels: seq<Bytes>, name: Bytes, pos: nat): Option<Parsed> {
    if labels == [] || |name| <= 255 then Some(Parsed(name, pos)) else None
  }

  /** Reading the encoding of plain labels gives them expanded and joined, unless that is over long. */
  lemma {:induction false} ParseEncodedLabels(pre: Bytes, labels: seq<Bytes>, post: Bytes, name: Bytes)
    requires WireLabels(labels)
    ensures ParseLabels(pre + EncodeLabels(labels) + [0] + post, |pre|, name)
         == Outcome(labels, PushAll(name, labels), |pre| + |EncodeLabels(labels)| + 1)
    decreases |labels|
  {
    hide PushLabel;
    var buf := pre + EncodeLabels(labels) + [0] + post;
    if labels != [] {
      var first, rest := labels[0], labels[1..];
      var pre' := pre + ([|first| as u8] + first);
      assert buf == pre' + EncodeLabels(rest) + [0] + post;
      assert buf[|pre|] == |first| as u8;
      assert buf[|pre| + 1..|pre| + 1 + |first|] == first;
      var name' := PushLabel(name, first);
      PushAllGrows(name', rest);
      ParseEncodedLabels(pre', rest, post, name');
      if |name'| <= 255 {
        assert rest == [] ==> PushAll(name', rest) == name';
      }
    }
  }

  /** The name that comes back: the labels that were kept, expanded and joined. */
  function ReadBack(name: Bytes): Bytes {
    Join(ExpandAll(Kept(Split(name))))
  }

  lemma ParseMessage(id: u16, flags: u16, answers: u16, name: Bytes, qtype: u16, qclass: u16, tail: Bytes)
    ensures ParseQuerySpec(Header(id, flags, answers) + Question(name, qtype, qclass) + tail)
         == if |ReadBack(name)| > 255 then None
            else Some(Query(id, ReadBack(name), qtype, qclass, And(flags as int, FLAG_RD) != 0))
  {
    hide Bitwise, EncodeLabels, Join, ParseLabels, Header, Be16, Kept, Split, U16At, ExpandAll;
    var labels := Kept(Split(name));
    KeptShort(Split(name));
    assert WireLabels(labels);
    var head := Header(id, flags, answers);
    var names := EncodeLabels(labels) + [0];
    var rest := Be16(qclass) + tail;
    var buf := head + Question(name, qtype, qclass) + tail;
    assert buf == head + EncodeLabels(labels) + [0] + (Be16(qtype) + Be16(qclass) + tail);
    ParseEncodedLabels(head, labels, Be16(qtype) + Be16(qclass) + tail, []);
    JoinOfKept(labels);
    HeaderReads(id, flags, answers, Question(name, qtype, qclass) + tail);
    assert buf == head + (Question(name, qtype, qclass) + tail);
    assert buf == (head + names) + Be16(qtype) + rest;
    U16AtPut(head + names, qtype, rest);
    assert buf == (head + names + Be16(qtype)) + Be16(qclass) + tail;
    U16AtPut(head + names + Be16(qtype), qclass, tail);
  }

  lemma U16AtPut(pre: Bytes, x: u16, post: Bytes)
    ensures U16At(pre + Be16(x) + post, |pre|) == x
  {
    var buf := pre + Be16(x) + post;
    assert buf[|pre|] == Be16(x)[0] && buf[|pre| + 1] == Be16(x)[1];
  }

  lemma HeaderReads(id: u16, flags: u16, answers: u16, post: Bytes)
    ensures var buf := Header(id, flags, answers) + post;
            U16At(buf, 0) == id && U16At(buf, 2) == flags && U16At(buf, 4) == 1
  {
    hide Be16, U16At;
    var buf := Header(id, flags, answers) + post;
    var tail := Be16(answers) + Be16(0) + Be16(0) + post;
    assert buf == [] + Be16(id) + (Be16(flags) + Be16(1) + tail);
    U16AtPut([], id, Be16(flags) + Be16(1) + tail);
    assert buf == Be16(id) + Be16(flags) + (Be16(1) + tail);
    U16AtPut(Be16(id), flags, Be16(1) + tail);
    assert buf == (Be16(id) + Be16(flags)) + Be16(1) + tail;
    U16AtPut(Be16(id) + Be16(flags), 1, tail);
  }

  lemma JoinOfKept(labels: seq<Bytes>)
    requires WireLabels(labels)
    ensures PushAll([], labels) == Join(ExpandAll(labels))
    ensures labels == [] ==> Join(ExpandAll(labels)) == []
  {
    if labels != [] {
      PushAllJoins([], labels);
    }
  }

  /** The name comes back exactly when each of its labels does. */
  lemma ReadBackExactly(name: Bytes)
    ensures ReadBack(name) == name <==> NameReads(name)
  {
    hide Kept, Split, Join, Expand, Readable;
    var labels := Split(name);
    var kept := Kept(labels);
    var back := ExpandAll(kept);
    JoinSplit(name);
    KeptLength(labels);
    KeptShort(labels);
    SplitHasNoDots(name);
    EmptyName();
    forall i | 0 <= i < |labels|
      ensures labels[i] != [] ==> (Expand(Clamp(labels[i])) == labels[i] <==> Readable(labels[i]))
      ensures Readable(labels[i]) ==> labels[i] != []
    {
      LabelReadsBack(labels[i]);
      ReadableIsNotEmpty(labels[i]);
    }
    if NameReads(name) && name != [] {
      assert forall i :: 0 <= i < |labels| ==> back[i] == labels[i];
      assert back == labels;
    }
    if ReadBack(name) == name && name != [] {
      assert kept != [];
      KeptHasNoDots(labels);
      SplitJoin(back);
    }
  }

  lemma EmptyName()
    ensures Kept(Split([])) == [] && Join([]) == []
  {
    assert Split([]) == [[]] && Kept([[]]) == Kept([[]][1..]) == [];
  }

  lemma ReadableIsNotEmpty(part: Bytes)
    ensures Readable(part) ==> part != []
  {
  }

  lemma {:induction false} KeptHasNoDots(labels: seq<Bytes>)
    requires forall i :: 0 <= i < |labels| ==> DOT !in labels[i]
    ensures forall i :: 0 <= i < |Kept(labels)| ==> DOT !in Expand(Kept(labels)[i])
  {
    hide Expand;
    if labels != [] {
      KeptHasNoDots(labels[1..]);
      ExpandLength(Clamp(labels[0]));
    }
  }

  /** For ASCII names the condition is the one of the wire format: labels of 1 to 63 bytes. */
  lemma AsciiNameReads(name: Bytes)
    requires Ascii(name)
    ensures NameReads(name) <==> LabelsOk(name)
  {
    hide Split, Tail;
    SplitAscii(name);
    forall i | 0 <= i < |Split(name)|
      ensures Readable(Split(name)[i]) <==> 1 <= |Split(name)[i]| <= 63
    {
      if |Split(name)[i]| > 63 {
        LongIsNotAscii(Split(name)[i]);
      }
    }
  }

  lemma LongIsNotAscii(part: Bytes)
    requires |part| > 63
    ensures Readable(part) ==> !Ascii(part)
  {
    hide Tail;
    if |part| <= 126 {
      assert Readable(part) ==> part[126 - |part|] == Tail(0);
    }
  }

  /** A query reads back as it was asked exactly when the name is empty or every label comes back, and
      the whole has at most 255 bytes. */
  lemma QueryRoundTrip(id: u16, name: Bytes, qtype: u16)
    ensures ParseQuerySpec(Header(id, 0x0100, 0) + Question(name, qtype, CLASS_IN))
            == Some(Query(id, name, qtype, CLASS_IN, true))
       <==> (NameReads(name) && |name| <= 255)
  {
    hide Bitwise, ParseQuerySpec, ReadBack, Question, Header, NameReads;
    ParseMessage(id, 0x0100, 0, name, qtype, CLASS_IN, []);
    assert Header(id, 0x0100, 0) + Question(name, qtype, CLASS_IN) + []
        == Header(id, 0x0100, 0) + Question(name, qtype, CLASS_IN);
    ReadBackExactly(name);
    RecursionBit(0x0100, 0, 0, true);
  }

  /** A response carries the query it answers, on the same condition, whatever the answer. */
  lemma ResponseRoundTrip(q: Query, resolved: Option<Bytes>, ttl: Bytes)
    requires resolved.Some? ==> |resolved.value| == 4
    requires |ttl| == 4
    ensures ParseQuerySpec(ResponseSpec(q, resolved, ttl)) == Some(q)
       <==> (NameReads(q.name) && |q.name| <= 255)
  {
    hide Bitwise, ParseQuerySpec, ReadBack, Question, Header, NameReads, Answer, ResponseFlags;
    var rcode: u16 := if resolved.Some? then 0 else 3;
    var flags := ResponseFlags(q.recursionDesired, rcode);
    var answered := resolved.Some? && q.qtype == TYPE_A;
    ParseMessage(q.id, flags, if answered then 1 else 0, q.name, q.qtype, q.qclass,
                 if answered then Answer(resolved.value, ttl) else []);
    ReadBackExactly(q.name);
    RecursionBit(flags as int, 66, rcode as int, q.recursionDesired);
  }

  /** What a resolver reads from a response: the identifier and question back, authority and recursion
      bits, one answer exactly for a resolved A query, its owner a pointer to the name at offset 12. */
  lemma ResponseReads(q: Query, resolved: Option<Bytes>, ttl: Bytes)
    requires resolved.Some? ==> |resolved.value| == 4
    requires |ttl| == 4
    ensures var out := ResponseSpec(q, resolved, ttl); var n := 12 + |NameBytes(q.name)| + 4;
            && |out| == n + (if resolved.Some? && q.qtype == TYPE_A then 16 else 0)
            && out[12..n - 4] == NameBytes(q.name)
            && U16At(out, 0) == q.id && U16At(out, 4) == 1 && U16At(out, 8) == 0 && U16At(out, 10) == 0
            && U16At(out, 2) as int
               == 0x8400 + (if q.recursionDesired then 0x100 else 0) + (if resolved.Some? then 0 else 3)
            && U16At(out, 6) == (if resolved.Some? && q.qtype == TYPE_A then 1 else 0)
            && (resolved.Some? && q.qtype == TYPE_A ==>
                  U16At(out, n) == 0xC000 + 12 && U16At(out, n + 2) == TYPE_A && U16At(out, n + 4) == CLASS_IN
                  && out[n + 6..n + 10] == ttl && U16At(out, n + 10) == 4 && out[n + 12..] == resolved.value)
  {
    hide NameBytes, Bitwise;
    var name := NameBytes(q.name);
    var n := 12 + |name| + 4;
    var out := ResponseSpec(q, resolved, ttl);
    var answered := resolved.Some? && q.qtype == TYPE_A;
    var tail := if answered then Answer(resolved.value, ttl) else [];
    var flags := ResponseFlags(q.recursionDesired, if resolved.Some? then 0 else 3);
    var front := Header(q.id, flags, if answered then 1 else 0) + Question(q.name, q.qtype, q.qclass);
    assert out == front + tail && |front| == n && out[n..] == tail;
    assert front[12..n - 4] == name;
    if answered {
      assert tail[0] == 0xC0 && tail[1] == 0x0C && tail[6..10] == ttl && tail[12..] == resolved.value;
      assert out[n + 6..n + 10] == tail[6..10] && out[n + 12..] == tail[12..];
    }
  }

  lemma {:induction false} EncodedLength(labels: seq<Bytes>)
    requires labels != []
    ensures (KeptShort(labels); |EncodeLabels(Kept(labels))| <= |Join(labels)| + 1)
    decreases |labels|
  {
    KeptShort(labels);
    if |labels| > 1 {
      EncodedLength(labels[1..]);
      KeptShort(labels[1..]);
      if labels[0] != [] {
        assert Kept(labels)[1..] == Kept(labels[1..]);
      }
    } else if labels[0] != [] {
      assert Kept(labels[1..]) == [];
      assert Kept(labels)[1..] == [];
    } else {
      assert Kept(labels) == Kept(labels[1..]) == [];
    }
  }

  /** The response to any query that parses fits 289 bytes. */
  lemma ResponseFits(buf: Bytes, resolved: Option<Bytes>, ttl: Bytes)
    requires resolved.Some? ==> |resolved.value| == 4
    requires |ttl| == 4
    ensures ParseQuerySpec(buf).Some? ==> |ResponseSpec(ParseQuerySpec(buf).value, resolved, ttl)| <= 289
  {
    hide Bitwise, EncodeLabels, ParseLabels, Join, Kept, Split, ResponseFlags;
    if ParseQuerySpec(buf).Some? {
      var name := ParseQuerySpec(buf).value.name;
      assert |name| <= 255;
      JoinSplit(name);
      EncodedLength(Split(name));
    }
  }
}
