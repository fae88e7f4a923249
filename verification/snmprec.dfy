/** The snmprec record grammar: one managed object per line, written as
    `OID|TAG|VALUE`, where TAG is the key of the value's kind in the tag
    table and VALUE is either printable text or its hexadecimal form. */
module Snmprec {
  import opened Wrappers
  import Text
  import Hex
  import opened TagTable

  /** `build`: the three fields joined by `|`, closed by a line feed. */
  function Build(oid: string, tag: string, value: string): (line: string)
    ensures |line| > 0 && line[|line| - 1] == '\n'
    ensures line[..|line| - 1] == Text.Join([oid, tag, value], "|")
  {
    var fields := [oid, tag, value];
    assert Text.Join(fields, "|") == oid + "|" + Text.Join([tag, value], "|") by {
      assert fields[1..] == [tag, value];
    }
    assert Text.Join([tag, value], "|") == tag + "|" + value by {
      assert [tag, value][1..] == [value];
    }
    var line := oid + "|" + tag + "|" + value + "\n";
    assert line[..|line| - 1] == oid + "|" + tag + "|" + value;
    line
  }

  /** Cutting any text at its first two `|`: at most three fields, one
      more than the separators up to two, joining back to the text, and
      `|` left only in the last field. */
  lemma {:induction false} SplitBars(s: string)
    ensures var fields := Text.Split(s, "|", 2);
      && |fields| == 1 + Text.Min(2, multiset(s)['|'])
      && Text.Join(fields, "|") == s
      && (forall i :: 0 <= i < |fields| - 1 ==> '|' !in fields[i])
      && (|fields| < 3 ==> '|' !in fields[|fields| - 1])
  {
    Text.SplitJoin(s, "|", 2);
    Text.SplitCount(s, "|", 2);
    Text.CountChar(s, '|');
    Text.SplitPieces(s, "|", 2);
    var fields := Text.Split(s, "|", 2);
    forall i | 0 <= i < |fields|
      ensures Text.Contains(fields[i], "|") <==> '|' in fields[i]
    {
      Text.ContainsChar(fields[i], '|');
    }
  }

  /** Stripping keeps every `|` of the line. */
  lemma StripKeepsBars(line: string)
    ensures multiset(Text.Strip(line))['|'] == multiset(line)['|']
  {
    Text.StripCounts(line);
    assert !Text.IsSpace('|');
  }

  /** `parse`: strip the line, then cut it at the first two `|`; the value
      keeps any further `|`. A line with fewer separators gives fewer
      fields, and no line is refused. */
  function Parse(line: string): (fields: seq<string>)
    ensures 1 <= |fields| <= 3
    ensures |fields| == 1 + Text.Min(2, multiset(line)['|'])
    ensures Text.Join(fields, "|") == Text.Strip(line)
    ensures forall i :: 0 <= i < |fields| - 1 ==> '|' !in fields[i]
    ensures |fields| < 3 ==> '|' !in fields[|fields| - 1]
  {
    var s := Text.Strip(line);
    SplitBars(s);
    StripKeepsBars(line);
    Text.Split(s, "|", 2)
  }

  /** Stripping a built record removes only its line feed. */
  lemma StripBuild(oid: string, tag: string, value: string)
    requires Text.NoLeadingSpace(oid) && Text.NoTrailingSpace(value)
    ensures Text.Strip(Build(oid, tag, value)) == oid + "|" + tag + "|" + value
  {
    var s := oid + "|" + tag + "|" + value;
    assert s[0] == if |oid| > 0 then oid[0] else '|';
    assert s[|s| - 1] == if |value| > 0 then value[|value| - 1] else '|';
    Text.StripNoSpace(s);
    Text.StripTrailingSpace(s, '\n');
  }

  /** Cutting at the first two `|` gives back fields free of `|`. */
  lemma SplitRecord(oid: string, tag: string, value: string)
    requires '|' !in oid && '|' !in tag
    ensures Text.Split(oid + "|" + tag + "|" + value, "|", 2) == [oid, tag, value]
  {
    var rest := tag + "|" + value;
    assert oid + "|" + tag + "|" + value == oid + ['|'] + rest;
    Text.SplitAfterField(oid, '|', rest, 1);
    Text.SplitAfterField(tag, '|', value, 0);
  }

  /** A record built from an OID and a tag free of `|`, an OID without
      leading blanks and a value without trailing blanks parses back into
      its three fields. */
  lemma ParseBuild(oid: string, tag: string, value: string)
    requires '|' !in oid && '|' !in tag
    requires Text.NoLeadingSpace(oid) && Text.NoTrailingSpace(value)
    ensures Parse(Build(oid, tag, value)) == [oid, tag, value]
  {
    StripBuild(oid, tag, value);
    SplitRecord(oid, tag, value);
  }

  /** For instance a value holding `|` survives the round trip. */
  lemma ParseKeepsValueBars()
    ensures Parse("1.3.6.1|4|a|b\n") == ["1.3.6.1", "4", "a|b"]
  {
    assert Build("1.3.6.1", "4", "a|b") == "1.3.6.1|4|a|b\n";
    ParseBuild("1.3.6.1", "4", "a|b");
  }

  /** The tag sets whose values may need the hexadecimal form. */
  predicate IsOctetKind(tagSet: TagSet) {
    SameTagSet(tagSet, TagSetOf(OctetString)) || SameTagSet(tagSet, TagSetOf(Opaque))
    || SameTagSet(tagSet, TagSetOf(IpAddress))
  }

  /** Of the thirteen kinds, exactly OctetString, Opaque and IpAddress
      are octet kinds. */
  lemma OctetKindsExactly(k: Kind)
    ensures IsOctetKind(TagSetOf(k)) <==> k == OctetString || k == Opaque || k == IpAddress
  {
    var first := TagSetOf(k)[0];
    assert SameTagSet(TagSetOf(k), TagSetOf(OctetString)) ==> SameTag(first, TagSetOf(OctetString)[0]);
    assert SameTagSet(TagSetOf(k), TagSetOf(Opaque)) ==> SameTag(first, TagSetOf(Opaque)[0]);
    assert SameTagSet(TagSetOf(k), TagSetOf(IpAddress)) ==> SameTag(first, TagSetOf(IpAddress)[0]);
  }

  predicate Unprintable(b: Hex.byte) {
    b < 32 || b > 126
  }

  /** Octets that cannot be written out as they are: a trailing space (it
      would be lost to the stripping in `parse`) or any byte outside the
      printable ASCII range. */
  predicate NeedsHex(octets: seq<Hex.byte>) {
    (|octets| > 0 && octets[|octets| - 1] == 32)
    || exists i :: 0 <= i < |octets| && Unprintable(octets[i])
  }

  /** `[x for x in nval if x < 32 or x > 126]`. */
  function UnprintableOctets(octets: seq<Hex.byte>): (r: seq<Hex.byte>)
    ensures |r| > 0 <==> exists i :: 0 <= i < |octets| && Unprintable(octets[i])
    ensures forall i :: 0 <= i < |r| ==> Unprintable(r[i])
    decreases |octets|
  {
    if |octets| == 0 then []
    else
      var rest := UnprintableOctets(octets[1..]);
      assert forall i :: 0 < i < |octets| ==> octets[i] == octets[1..][i - 1];
      if Unprintable(octets[0]) then [octets[0]] + rest else rest
  }

  /** `hexifyValue`: the lowercase hexadecimal text of an octet-string,
      opaque or IP-address value whose octets need it, and None otherwise
      (the function then falls off its end). */
  function HexifyValue(tagSet: TagSet, octets: seq<Hex.byte>): (r: Option<string>)
    ensures r.Some? <==> IsOctetKind(tagSet) && NeedsHex(octets)
    ensures r.Some? ==> |r.value| == 2 * |octets| > 0
    ensures r.Some? ==> forall i :: 0 <= i < |r.value| ==> Hex.IsHexDigit(r.value[i])
    ensures r.Some? ==> Hex.Decode(r.value) == Some(octets)
  {
    if IsOctetKind(tagSet)
       && ((|octets| > 0 && octets[|octets| - 1] == 32) || |UnprintableOctets(octets)| > 0)
    then
      Hex.DecodeEncode(octets);
      Some(Hex.Encode(octets))
    else None
  }

  /** Octets whose last byte is not a space and that are all printable are
      written out as they are; so is the empty value. */
  lemma PrintableNotHexified(tagSet: TagSet, octets: seq<Hex.byte>)
    requires |octets| == 0 || octets[|octets| - 1] != 32
    requires forall i :: 0 <= i < |octets| ==> 32 <= octets[i] <= 126
    ensures HexifyValue(tagSet, octets) == None
  {
  }

  /** A value ending in a space is hexified. */
  lemma HexifyTrailingSpace()
    ensures HexifyValue(TagSetOf(OctetString), [0x41, 0x20]) == Some("4120")
  {
    var bs: seq<Hex.byte> := [0x41, 0x20];
    assert Hex.EncodeByte(0x41) == "41" && Hex.EncodeByte(0x20) == "20";
    assert Hex.Encode(bs[1..]) == "20";
    assert Hex.Encode(bs) == "41" + Hex.Encode(bs[1..]);
    assert "41" + "20" == "4120";
  }

  /** Binary octets such as an IP address are hexified. */
  lemma HexifyBinary()
    ensures HexifyValue(TagSetOf(IpAddress), [10, 0, 0, 1]) == Some("0a000001")
  {
    var bs: seq<Hex.byte> := [10, 0, 0, 1];
    assert Unprintable(bs[0]);
    assert Hex.EncodeByte(10) == "0a" && Hex.EncodeByte(0) == "00" && Hex.EncodeByte(1) == "01";
    assert Hex.Encode(bs[3..]) == "01";
    assert Hex.Encode(bs[2..]) == "00" + Hex.Encode(bs[3..]);
    assert Hex.Encode(bs[1..]) == "00" + Hex.Encode(bs[2..]);
    assert Hex.Encode(bs) == "0a" + Hex.Encode(bs[1..]);
    assert "0a" + ("00" + ("00" + "01")) == "0a000001";
  }

  /** Printable text, and values of other kinds, are left alone. */
  lemma HexifyLeavesAlone()
    ensures HexifyValue(TagSetOf(OctetString), [0x41, 0x42]) == None
    ensures HexifyValue(TagSetOf(Integer32), [0]) == None
  {
    PrintableNotHexified(TagSetOf(OctetString), [0x41, 0x42]);
    assert !SameTag(TagSetOf(Integer32)[0], TagSetOf(OctetString)[0]);
    assert !SameTag(TagSetOf(Integer32)[0], TagSetOf(Opaque)[0]);
    assert !SameTag(TagSetOf(Integer32)[0], TagSetOf(IpAddress)[0]);
  }
}
