/**
 * A dotted-quad IPv4 recogniser. The NIS check asks Python's
 * `ipaddress.ip_address` whether a captured name is an address literal; the
 * model takes that test as a parameter. This module supplies one concrete
 * test that can be passed for it: it accepts the IPv4 form only (four
 * decimal fields of value at most 255, no leading zeros) and never IPv6.
 */
module Ipv4 {
  import opened Text

  predicate IsDigit(ch: char) {
    '0' <= ch <= '9'
  }

  predicate AllDigits(s: string) {
    forall i :: 0 <= i < |s| ==> IsDigit(s[i])
  }

  /** The value of a string of decimal digits. */
  function DecimalValue(s: string): nat
    requires AllDigits(s)
  {
    if s == [] then 0 else DecimalValue(s[..|s| - 1]) * 10 + (s[|s| - 1] as int - '0' as int)
  }

  /** One field of a dotted quad: one to three digits, no leading zero, at most 255. */
  predicate IsOctet(t: string) {
    1 <= |t| <= 3 && AllDigits(t) && (t[0] != '0' || |t| == 1) && DecimalValue(t) <= 255
  }

  /** An address literal always has a dot: a dot-free string is a single field. */
  predicate IsIPv4Literal(s: string)
    ensures IsIPv4Literal(s) ==> '.' in s
  {
    var f := Fields(s, '.');
    |f| == 4 && forall j :: 0 <= j < 4 ==> IsOctet(f[j])
  }

  /** Four dot-free parts joined by dots form an address exactly when every part is an octet. */
  lemma Ipv4OfParts(parts: seq<string>)
    requires |parts| == 4
    requires forall j :: 0 <= j < 4 ==> '.' !in parts[j]
    ensures IsIPv4Literal(Join(".", parts)) <==> forall j :: 0 <= j < 4 ==> IsOctet(parts[j])
  {
    FieldsOfJoin(parts, '.');
  }

  /** A dotted quad of valid octets is an address literal. */
  lemma SampleAddress()
    ensures IsIPv4Literal("10.0.0.5")
  {
    var parts := ["10", "0", "0", "5"];
    forall j | 0 <= j < 4 ensures IsOctet(parts[j]) && '.' !in parts[j] {
      if j == 0 { OctetTen(); } else if j == 3 { OctetFive(); } else { OctetZero(); }
    }
    Ipv4OfParts(parts);
    assert Join(".", parts) == "10.0.0.5";
  }

  lemma OctetTen() ensures IsOctet("10") {
    assert "10"[..1] == "1";
    assert DecimalValue("1") == 1;
  }

  lemma OctetZero() ensures IsOctet("0") {
    assert DecimalValue("0") == 0;
  }

  lemma OctetFive() ensures IsOctet("5") {
    assert DecimalValue("5") == 5;
  }

  /** A dotted host name with two labels is not. */
  lemma SampleHostName()
    ensures !IsIPv4Literal("ns.lan")
  {
    var parts := ["ns", "lan"];
    assert '.' !in parts[0] && '.' !in parts[1];
    assert Join(".", parts) == "ns.lan";
    FieldsOfJoin(parts, '.');
  }
}
