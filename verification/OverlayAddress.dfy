/** Overlay addresses as text: 100.88.x.y stands for the index 256 x + y. An allowed-IP entry may carry a
    prefix length. */
module OverlayAddress {
  import opened Options
  import opened JsonText

  // ---- Reading -------------------------------------------------------------

  /** A decimal octet: one to three digits without a leading zero, at most 255. */
  function ParseOctet(s: string): (r: Option<nat>)
    ensures r.Some? ==> r.value < 256
  {
    if s == "" || |s| > 3 || Digits(s) != s || (|s| > 1 && s[0] == '0') || DecimalValue(s) > 255 then None
    else Some(DecimalValue(s))
  }

  /** Dotted-quad text in 100.88.0.0/16, as the index of its host. */
  function ParseAddress(s: string): (r: Option<nat>)
    ensures r.Some? ==> r.value <= 65535
  {
    var parts := SplitOn(s, '.');
    if |parts| != 4 then None
    else
      var a, b, c, d := ParseOctet(parts[0]), ParseOctet(parts[1]), ParseOctet(parts[2]), ParseOctet(parts[3]);
      if a.None? || b.None? || c.None? || d.None? || a.value != 100 || b.value != 88 then None
      else Some(256 * c.value + d.value)
  }

  /** An allowed-IP entry: what stands before the first slash, trimmed. */
  function ParseEntry(entry: string): (r: Option<nat>)
    ensures r.Some? ==> r.value <= 65535
  {
    ParseAddress(Trim(Before(entry, '/')))
  }

  // ---- Writing -------------------------------------------------------------

  function AddressText(i: nat): string {
    "100.88." + Decimal(i / 256) + "." + Decimal(i % 256)
  }

  function Cidr(i: nat): string {
    AddressText(i) + "/32"
  }

  // ---- Round trip ----------------------------------------------------------

  lemma AllDigits(s: string)
    requires forall i :: 0 <= i < |s| ==> Digit(s[i])
    ensures Digits(s) == s
  {
    if s != "" {
      AllDigits(s[1..]);
      assert s == [s[0]] + s[1..];
    }
  }

  lemma DecimalShape(n: nat)
    requires n < 256
    ensures |Decimal(n)| <= 3
    ensures |Decimal(n)| > 1 ==> Decimal(n)[0] != '0'
  {
    var m := n / 10;
    if n >= 10 {
      assert Decimal(n)[0] == Decimal(m)[0];
      if m >= 10 {
        assert Decimal(m)[0] == Decimal(m / 10)[0];
        assert Decimal(m / 10) == [('0' as int + m / 10) as char];
      } else {
        assert Decimal(m) == [('0' as int + m) as char];
      }
    }
  }

  lemma OctetReads(n: nat)
    requires n < 256
    ensures ParseOctet(Decimal(n)) == Some(n)
  {
    hide Decimal, DecimalValue, Digits;
    AllDigits(Decimal(n));
    DecimalShape(n);
    DecimalRoundTrip(n);
  }

  lemma NoDotsInDecimal(n: nat)
    ensures '.' !in Decimal(n) && '/' !in Decimal(n)
  {
    hide Decimal;
  }

  lemma AddressParts(i: nat)
    ensures SplitOn(AddressText(i), '.') == ["100", "88", Decimal(i / 256), Decimal(i % 256)]
  {
    hide Decimal, SplitOn;
    var x, y := Decimal(i / 256), Decimal(i % 256);
    NoDotsInDecimal(i / 256);
    NoDotsInDecimal(i % 256);
    assert AddressText(i) == "100" + ['.'] + ("88" + ['.'] + (x + ['.'] + y));
    SplitFirst("100", "88" + ['.'] + (x + ['.'] + y), '.');
    SplitFirst("88", x + ['.'] + y, '.');
    SplitFirst(x, y, '.');
    SplitPiece(y, '.');
    assert ["100"] + (["88"] + ([x] + [y])) == ["100", "88", x, y];
  }

  lemma ConstantOctets()
    ensures ParseOctet("100") == Some(100) && ParseOctet("88") == Some(88)
  {
    DecimalOf();
    OctetReads(100);
    OctetReads(88);
  }

  lemma DecimalOf()
    ensures Decimal(100) == "100" && Decimal(88) == "88"
  {
    assert Decimal(1) == "1" && Decimal(8) == "8";
    assert Decimal(10) == "10";
  }

  lemma AddressReads(i: nat)
    requires i <= 65535
    ensures ParseAddress(AddressText(i)) == Some(i)
  {
    hide ParseOctet, SplitOn, AddressText, Decimal;
    AddressParts(i);
    ConstantOctets();
    OctetReads(i / 256);
    OctetReads(i % 256);
  }

  /** The entry written for an index reads back as that index. */
  lemma CidrReads(i: nat)
    requires i <= 65535
    ensures ParseEntry(Cidr(i)) == Some(i)
  {
    hide Decimal, ParseAddress, Before;
    var t := AddressText(i);
    NoDotsInDecimal(i / 256);
    NoDotsInDecimal(i % 256);
    assert '/' !in "100.88." && '/' !in ".";
    BeforeStops(t, "/32", '/');
    assert t[0] == '1' && Digit(t[|t| - 1]);
    assert Trim(t) == t;
    AddressReads(i);
  }
}
