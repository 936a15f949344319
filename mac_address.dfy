/**
 * `generateRandomMAC` of proxmox-k8s/main.go: six random bytes, the first one forced to
 * a locally administered unicast octet, printed as six two-digit lower-case hex
 * groups joined by colons.
 */
module MacAddress {
  import opened Results

  /** Go's `byte`. */
  type Byte = bv8

  /** Length of the buffer the generator fills: a 48-bit address. */
  const OctetCount: nat := 6

  /** Length of the printed address: six groups of two digits and five colons. */
  const TextLength: nat := 17

  /**
   * `(b | 0x02) & 0xfe`: sets the locally administered bit (0x02), clears the
   * multicast bit (0x01) and keeps the six upper bits.
   */
  function LocallyAdministeredUnicast(b: Byte): (r: Byte)
    ensures r & 0x02 == 0x02
    ensures r & 0x01 == 0
    ensures r & 0xfc == b & 0xfc
    ensures b & 0x03 == 0x02 ==> r == b
  {
    (b | 0x02) & 0xfe
  }

  /**
   * The address the generator prints for the random bytes it read: only the two low
   * bits of the first byte differ from the random input.
   */
  function AddressFrom(random: seq<Byte>): (a: seq<Byte>)
    requires |random| == OctetCount
    ensures |a| == OctetCount
    ensures a[0] & 0x02 == 0x02 && a[0] & 0x01 == 0
    ensures a[0] & 0xfc == random[0] & 0xfc
    ensures a[1..] == random[1..]
  {
    [LocallyAdministeredUnicast(random[0])] + random[1..]
  }

  /** A character Go's `%x` verb prints. */
  predicate IsLowerHexDigit(c: char) {
    '0' <= c <= '9' || 'a' <= c <= 'f'
  }

  /** The lower-case hex digit of a nibble. */
  function HexDigit(n: Byte): (c: char)
    requires n < 16
    ensures IsLowerHexDigit(c)
  {
    if n == 0x0 then '0' else if n == 0x1 then '1' else if n == 0x2 then '2' else if n == 0x3 then '3'
    else if n == 0x4 then '4' else if n == 0x5 then '5' else if n == 0x6 then '6' else if n == 0x7 then '7'
    else if n == 0x8 then '8' else if n == 0x9 then '9' else if n == 0xa then 'a' else if n == 0xb then 'b'
    else if n == 0xc then 'c' else if n == 0xd then 'd' else if n == 0xe then 'e' else 'f'
  }

  /** The nibble a lower-case hex digit stands for. */
  function HexValue(c: char): (n: Byte)
    requires IsLowerHexDigit(c)
    ensures n < 16
  {
    if c == '0' then 0x0 else if c == '1' then 0x1 else if c == '2' then 0x2 else if c == '3' then 0x3
    else if c == '4' then 0x4 else if c == '5' then 0x5 else if c == '6' then 0x6 else if c == '7' then 0x7
    else if c == '8' then 0x8 else if c == '9' then 0x9 else if c == 'a' then 0xa else if c == 'b' then 0xb
    else if c == 'c' then 0xc else if c == 'd' then 0xd else if c == 'e' then 0xe else 0xf
  }

  lemma HexValueOfDigit(n: Byte)
    requires n < 16
    ensures HexValue(HexDigit(n)) == n
  {
  }

  lemma HexDigitOfValue(c: char)
    requires IsLowerHexDigit(c)
    ensures HexDigit(HexValue(c)) == c
  {
  }

  /** A byte is its high nibble shifted up, joined with its low nibble. */
  lemma Halves(b: Byte)
    ensures b >> 4 < 16 && ((b >> 4) << 4) | (b & 0x0f) == b
  {
  }

  /** Joining two nibbles into a byte keeps each of them. */
  lemma Nibbles(hi: Byte, lo: Byte)
    requires hi < 16 && lo < 16
    ensures ((hi << 4) | lo) >> 4 == hi && ((hi << 4) | lo) & 0x0f == lo
  {
  }

  /** Go's `%02x` on one byte: high nibble first, zero-padded, lower case. */
  function FormatOctet(b: Byte): (s: string)
    ensures |s| == 2 && IsLowerHexDigit(s[0]) && IsLowerHexDigit(s[1])
  {
    [HexDigit(b >> 4), HexDigit(b & 0x0f)]
  }

  /** Reads back two lower-case hex digits, high nibble first. */
  function ParseOctet(s: string): (r: Option<Byte>)
  {
    if |s| == 2 && IsLowerHexDigit(s[0]) && IsLowerHexDigit(s[1])
    then Some((HexValue(s[0]) << 4) | HexValue(s[1]))
    else None
  }

  /** The two printed digits read back as the byte. */
  lemma {:induction false} ParseFormatOctet(b: Byte)
    ensures ParseOctet(FormatOctet(b)) == Some(b)
  {
    Halves(b);
    HexValueOfDigit(b >> 4);
    HexValueOfDigit(b & 0x0f);
  }

  /** Only the text `FormatOctet` prints parses as an octet. */
  lemma {:induction false} ParseOctetCanonical(s: string, b: Byte)
    requires ParseOctet(s) == Some(b)
    ensures FormatOctet(b) == s
  {
    Nibbles(HexValue(s[0]), HexValue(s[1]));
    HexDigitOfValue(s[0]);
    HexDigitOfValue(s[1]);
  }

  /** The octets of `m` printed with `%02x` and joined by colons. */
  function JoinOctets(m: seq<Byte>): (s: string)
    requires |m| >= 1
    ensures |s| == 3 * |m| - 1
    decreases |m|
  {
    if |m| == 1 then FormatOctet(m[0]) else FormatOctet(m[0]) + ":" + JoinOctets(m[1..])
  }

  /** Reads back colon-joined two-digit groups, one octet per group. */
  function ParseOctets(s: string): (r: Option<seq<Byte>>)
    decreases |s|
  {
    if |s| < 2 then None
    else match ParseOctet(s[..2])
      case None => None
      case Some(b) =>
        if |s| == 2 then Some([b])
        else if s[2] != ':' then None
        else match ParseOctets(s[3..])
          case None => None
          case Some(rest) => Some([b] + rest)
  }

  /**
   * Where each octet lands in the joined text: every group but the last is two
   * digits and a colon at `3 * k`, and the last group is the final two characters.
   */
  lemma {:induction false} JoinOctetsLayout(m: seq<Byte>)
    requires |m| >= 1
    ensures forall k :: 0 <= k < |m| - 1 ==> JoinOctets(m)[3 * k..3 * k + 3] == FormatOctet(m[k]) + ":"
    ensures JoinOctets(m)[3 * (|m| - 1)..] == FormatOctet(m[|m| - 1])
    decreases |m|
  {
    var s := JoinOctets(m);
    if |m| > 1 {
      var t := JoinOctets(m[1..]);
      JoinOctetsLayout(m[1..]);
      assert s == FormatOctet(m[0]) + ":" + t;
      forall k | 1 <= k < |m| - 1 ensures s[3 * k..3 * k + 3] == FormatOctet(m[k]) + ":" {
        assert s[3 * k..3 * k + 3] == t[3 * (k - 1)..3 * (k - 1) + 3];
        assert m[1..][k - 1] == m[k];
      }
      assert s[3 * (|m| - 1)..] == t[3 * (|m| - 2)..];
    }
  }

  /** Parsing the joined text gives back the octets. */
  lemma {:induction false} ParseJoinOctets(m: seq<Byte>)
    requires |m| >= 1
    ensures ParseOctets(JoinOctets(m)) == Some(m)
    decreases |m|
  {
    var s := JoinOctets(m);
    ParseFormatOctet(m[0]);
    assert s[..2] == FormatOctet(m[0]);
    if |m| == 1 {
      assert m == [m[0]];
    } else {
      ParseJoinOctets(m[1..]);
      assert s[3..] == JoinOctets(m[1..]);
      assert m == [m[0]] + m[1..];
    }
  }

  /** A text that parses as octets is the joined text of those octets. */
  lemma {:induction false} JoinParseOctets(s: string, m: seq<Byte>)
    requires ParseOctets(s) == Some(m)
    ensures |m| >= 1 && JoinOctets(m) == s
    decreases |s|
  {
    ParseOctetCanonical(s[..2], m[0]);
    if |s| == 2 {
      assert s == s[..2];
    } else {
      var rest := ParseOctets(s[3..]).value;
      JoinParseOctets(s[3..], rest);
      assert m[1..] == rest;
      assert s == s[..2] + ":" + s[3..];
    }
  }

  /** `fmt.Sprintf("%02x:%02x:%02x:%02x:%02x:%02x", ...)` over the six bytes. */
  function FormatMac(m: seq<Byte>): (s: string)
    requires |m| == OctetCount
    ensures |s| == TextLength
    ensures forall k :: 0 <= k < OctetCount - 1 ==> s[3 * k..3 * k + 3] == FormatOctet(m[k]) + ":"
    ensures s[15..] == FormatOctet(m[5])
  {
    JoinOctetsLayout(m);
    JoinOctets(m)
  }

  /** Reads back a printed address: six two-digit lower-case hex groups joined by colons. */
  function ParseMac(s: string): (r: Option<seq<Byte>>)
  {
    if |s| != TextLength then None else ParseOctets(s)
  }

  /** Parsing the printed address gives back the six bytes. */
  lemma ParseFormatMac(m: seq<Byte>)
    requires |m| == OctetCount
    ensures ParseMac(FormatMac(m)) == Some(m)
  {
    ParseJoinOctets(m);
  }

  /** Every text that parses as an address is the one `FormatMac` prints for it. */
  lemma FormatParseMac(s: string, m: seq<Byte>)
    requires ParseMac(s) == Some(m)
    ensures |m| == OctetCount && FormatMac(m) == s
  {
    JoinParseOctets(s, m);
  }

  /** The printed address holds only lower-case hex digits and colons. */
  lemma {:induction false} JoinOctetsCharacters(m: seq<Byte>)
    requires |m| >= 1
    ensures forall c :: c in JoinOctets(m) ==> IsLowerHexDigit(c) || c == ':'
    decreases |m|
  {
    if |m| > 1 {
      JoinOctetsCharacters(m[1..]);
    }
  }

  /**
   * `generateRandomMAC`: `random` is what `crypto/rand.Read` put in the six-byte
   * buffer, or `None` when the read failed.
   */
  method GenerateRandomMac(random: Option<seq<Byte>>) returns (r: Result<string>)
    requires random.Some? ==> |random.value| == OctetCount
    ensures random.None? ==> r == Err(RandomSourceError)
    ensures random.Some? ==> r == Ok(FormatMac(AddressFrom(random.value)))
    ensures random.Some? ==> ParseMac(r.value) == Some(AddressFrom(random.value))
  {
    if random.None? {
      return Err(RandomSourceError);
    }
    var bytes := random.value;
    var mac := new Byte[OctetCount](i requires 0 <= i < OctetCount => bytes[i]);
    mac[0] := LocallyAdministeredUnicast(mac[0]);
    assert mac[..] == AddressFrom(bytes);
    ParseFormatMac(mac[..]);
    return Ok(FormatMac(mac[..]));
  }
}
