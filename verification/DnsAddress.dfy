/** Internet addresses as dotted decimal text, what `inet_ntop` writes for an address record. */
module DnsAddress {
  import opened DnsNames

  /** An octet in decimal, without leading zeros. */
  function Decimal(b: byte): (r: Bytes)
    ensures 1 <= |r| <= 3 && DOT !in r
  {
    if b < 10 then [0x30 + b]
    else if b < 100 then [0x30 + b / 10, 0x30 + b % 10]
    else [0x30 + b / 100, 0x30 + b / 10 % 10, 0x30 + b % 10]
  }

  /** The number a string of decimal digits stands for. */
  function Value(digits: Bytes): int {
    if digits == [] then 0
    else 10 * Value(digits[..|digits| - 1]) + digits[|digits| - 1] - 0x30
  }

  lemma DecimalReadsBack(b: byte)
    ensures Value(Decimal(b)) == b
  {
    var d := Decimal(b);
    var none: Bytes := [];
    assert Value(none) == 0;
    if b < 10 {
      assert d[..0] == none;
    } else if b < 100 {
      assert d[..1] == [d[0]] && d[..1][..0] == none;
      assert Value(d[..1]) == d[0] - 0x30;
    } else {
      assert d[..2] == [d[0], d[1]] && d[..2][..1] == [d[0]] && d[..2][..1][..0] == none;
      assert Value(d[..2][..1]) == d[0] - 0x30;
      assert Value(d[..2]) == 10 * (d[0] - 0x30) + d[1] - 0x30;
    }
  }

  function Decimals(octets: Bytes): (r: Labels)
    requires |octets| == 4
    ensures |r| == 4
  {
    [Decimal(octets[0]), Decimal(octets[1]), Decimal(octets[2]), Decimal(octets[3])]
  }

  /** The four octets in decimal, joined by dots. */
  function DottedQuad(octets: Bytes): Bytes
    requires |octets| == 4
  {
    Join(Decimals(octets))
  }

  /** The text and its terminator take 8 to 16 octets. */
  lemma DottedQuadSize(octets: Bytes)
    requires |octets| == 4
    ensures 8 <= |DottedQuad(octets)| + 1 <= 16
  {
    var d := Decimals(octets);
    assert Join(d[3..]) == d[3];
    assert Join(d[2..]) == d[2] + [DOT] + Join(d[3..]) by {
      assert d[2..][1..] == d[3..];
    }
    assert Join(d[1..]) == d[1] + [DOT] + Join(d[2..]) by {
      assert d[1..][1..] == d[2..];
    }
  }

  /** The text determines the address: its four pieces are the octets in decimal. */
  lemma DottedQuadReadsBack(octets: Bytes)
    requires |octets| == 4
    ensures var pieces := Split(DottedQuad(octets));
      |pieces| == 4 && forall i :: 0 <= i < 4 ==> Value(pieces[i]) == octets[i]
  {
    SplitJoin(Decimals(octets));
    forall i | 0 <= i < 4
      ensures Value(Decimals(octets)[i]) == octets[i]
    {
      DecimalReadsBack(octets[i]);
    }
  }
}
