/**
 * 20-byte account addresses and their text form. The Python code turns addresses
 * into text with Web3.to_checksum_address, which accepts 40 hex digits (with or
 * without a "0x"/"0X" prefix, in any case) and raises ValueError otherwise. The
 * EIP-55 per-letter casing it applies is computed with Keccak-256 and is not
 * modelled: ChecksumAddress renders the digits in lower case, which keeps the one
 * property the program relies on, that the rendering is injective and parses back.
 */
module Address {
  import opened Wrappers
  import opened BigEndian

  type Address = s: seq<uint8> | |s| == 20 witness seq(20, _ => 0)

  /** The hex digit for d. */
  function HexChar(d: nat): (c: char)
    requires d < 16
    ensures '0' <= c <= '9' || 'a' <= c <= 'f'
  {
    if d < 10 then ('0' as int + d) as char else ('a' as int + d - 10) as char
  }

  /** The value of a hex digit of either case; None for any other character. */
  function DigitValue(c: char): (r: Option<nat>)
    ensures r.Some? ==> r.value < 16
    ensures r.Some? <==> ('0' <= c <= '9' || 'a' <= c <= 'f' || 'A' <= c <= 'F')
  {
    if '0' <= c <= '9' then Some(c as int - '0' as int)
    else if 'a' <= c <= 'f' then Some(c as int - 'a' as int + 10)
    else if 'A' <= c <= 'F' then Some(c as int - 'A' as int + 10)
    else None
  }

  lemma DigitValueHexChar(d: nat)
    requires d < 16
    ensures DigitValue(HexChar(d)) == Some(d)
  {
  }

  /** Two hex digits per byte, high nibble first. */
  function ToHex(bytes: seq<uint8>): (s: string)
    ensures |s| == 2 * |bytes|
  {
    if |bytes| == 0 then ""
    else [HexChar(bytes[0] / 16), HexChar(bytes[0] % 16)] + ToHex(bytes[1..])
  }

  /** The bytes spelled by an even-length string of hex digits. */
  function FromHex(s: string): (r: Option<seq<uint8>>)
    ensures r.Some? ==> 2 * |r.value| == |s|
    decreases |s|
  {
    if |s| == 0 then Some([])
    else if |s| == 1 then None
    else
      match (DigitValue(s[0]), DigitValue(s[1]), FromHex(s[2..]))
      case (Some(hi), Some(lo), Some(rest)) => Some([hi * 16 + lo] + rest)
      case _ => None
  }

  lemma {:induction false} FromHexToHex(bytes: seq<uint8>)
    ensures FromHex(ToHex(bytes)) == Some(bytes)
  {
    if |bytes| > 0 {
      var b := bytes[0];
      var s := ToHex(bytes);
      DigitValueHexChar(b / 16);
      DigitValueHexChar(b % 16);
      assert s[2..] == ToHex(bytes[1..]);
      FromHexToHex(bytes[1..]);
      assert bytes == [b] + bytes[1..];
    }
  }

  /** FromHex accepts exactly the even-length strings of hex digits. */
  lemma {:induction false} FromHexAccepts(s: string)
    ensures FromHex(s).Some? <==>
      |s| % 2 == 0 && forall i :: 0 <= i < |s| ==> DigitValue(s[i]).Some?
    decreases |s|
  {
    if |s| >= 2 {
      FromHexAccepts(s[2..]);
      assert forall i :: 2 <= i < |s| ==> s[i] == s[2..][i - 2];
    }
  }

  /** Byte i of the result is spelled by digits 2i (high nibble) and 2i + 1. */
  lemma {:induction false} FromHexByte(s: string, i: nat)
    requires FromHex(s).Some? && i < |s| / 2
    ensures DigitValue(s[2 * i]).Some? && DigitValue(s[2 * i + 1]).Some?
    ensures FromHex(s).value[i] == 16 * DigitValue(s[2 * i]).value + DigitValue(s[2 * i + 1]).value
    decreases |s|
  {
    if i > 0 {
      FromHexByte(s[2..], i - 1);
    }
  }

  /** s without a leading "0x" or "0X". */
  function StripHexPrefix(s: string): (r: string)
    ensures |r| <= |s|
  {
    if |s| >= 2 && s[0] == '0' && (s[1] == 'x' || s[1] == 'X') then s[2..] else s
  }

  /** The address spelled by s, or None where to_checksum_address raises ValueError. */
  function ParseAddress(s: string): (r: Option<Address>)
    ensures r.Some? ==> |StripHexPrefix(s)| == 40
  {
    var digits := StripHexPrefix(s);
    if |digits| != 40 then None
    else
      match FromHex(digits)
      case Some(bytes) => Some(bytes)
      case None => None
  }

  /** The canonical text of an address: "0x" followed by 40 hex digits. */
  function ChecksumAddress(a: Address): (s: string)
    ensures |s| == 42 && s[..2] == "0x"
  {
    "0x" + ToHex(a)
  }

  /** The canonical text parses back to the address it was made from. */
  lemma ParseChecksumAddress(a: Address)
    ensures ParseAddress(ChecksumAddress(a)) == Some(a)
  {
    var s := ChecksumAddress(a);
    assert StripHexPrefix(s) == ToHex(a);
    FromHexToHex(a);
  }

  /** Two different addresses never share a text form. */
  lemma ChecksumAddressInjective(a: Address, b: Address)
    requires ChecksumAddress(a) == ChecksumAddress(b)
    ensures a == b
  {
    ParseChecksumAddress(a);
    ParseChecksumAddress(b);
  }

  /** to_checksum_address accepts exactly the texts that hold 40 hex digits of
      either case after an optional "0x"/"0X" prefix, and byte i of the address
      is spelled by digits 2i and 2i + 1. */
  lemma ParseAddressAccepts(s: string)
    ensures var d := StripHexPrefix(s);
      ParseAddress(s).Some? <==> |d| == 40 && forall i :: 0 <= i < 40 ==> DigitValue(d[i]).Some?
    ensures var d := StripHexPrefix(s);
      ParseAddress(s).Some? ==> forall i :: 0 <= i < 20 ==>
        ParseAddress(s).value[i] == 16 * DigitValue(d[2 * i]).value + DigitValue(d[2 * i + 1]).value
  {
    var d := StripHexPrefix(s);
    FromHexAccepts(d);
    if ParseAddress(s).Some? {
      forall i | 0 <= i < 20
        ensures ParseAddress(s).value[i] == 16 * DigitValue(d[2 * i]).value + DigitValue(d[2 * i + 1]).value
      {
        FromHexByte(d, i);
      }
    }
  }

  /** Mixed case is accepted and read case-insensitively: "0xFf..." and
      "0xff..." spell the same address. */
  lemma ParseAddressIgnoresCase(s: string, t: string)
    requires |s| == |t|
    requires forall i :: 0 <= i < |s| ==>
      s[i] == t[i] || (DigitValue(s[i]).Some? && DigitValue(s[i]) == DigitValue(t[i]))
    requires |s| >= 2 && s[..2] == "0x" && t[..2] == "0x"
    ensures ParseAddress(s) == ParseAddress(t)
  {
    var ds, dt := StripHexPrefix(s), StripHexPrefix(t);
    assert ds == s[2..] && dt == t[2..];
    ParseAddressAccepts(s);
    ParseAddressAccepts(t);
    assert forall i :: 0 <= i < |ds| ==> DigitValue(ds[i]) == DigitValue(dt[i]) by {
      forall i | 0 <= i < |ds| ensures DigitValue(ds[i]) == DigitValue(dt[i]) {
        assert ds[i] == s[i + 2] && dt[i] == t[i + 2];
      }
    }
    if ParseAddress(s).Some? {
      assert ParseAddress(t).Some?;
      assert ParseAddress(s).value == ParseAddress(t).value;
    }
  }
}
