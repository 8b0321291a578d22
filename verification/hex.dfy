/**
 * PHP's bin2hex, used by UserService::createUser to turn ten random bytes
 * into the plaintext password: each byte becomes two lower-case
 * hexadecimal digits, high nibble first. DecodeHex is its inverse and is
 * here only as the reference against which Bin2Hex is proved injective.
 */
module Hex {
  import opened Optional

  newtype byte = x: int | 0 <= x < 256

  /** What random_bytes(10) yields: always exactly ten bytes. */
  type RandomBlock = s: seq<byte> | |s| == 10 witness [0, 0, 0, 0, 0, 0, 0, 0, 0, 0]

  /** The alphabet bin2hex writes: [0-9a-f]. */
  predicate IsHexDigit(c: char) {
    '0' <= c <= '9' || 'a' <= c <= 'f'
  }

  /** The digit bin2hex writes for a nibble. */
  function DigitOf(n: int): (c: char)
    requires 0 <= n < 16
    ensures IsHexDigit(c) && ValueOf(c) == n
  {
    if n < 10 then ('0' as int + n) as char else ('a' as int + n - 10) as char
  }

  /** The nibble a digit stands for. */
  function ValueOf(c: char): (n: int)
    requires IsHexDigit(c)
    ensures 0 <= n < 16
  {
    if c <= '9' then c as int - '0' as int else c as int - 'a' as int + 10
  }

  function Bin2Hex(bytes: seq<byte>): (s: string)
    ensures |s| == 2 * |bytes|
    ensures forall i :: 0 <= i < |s| ==> IsHexDigit(s[i])
  {
    if bytes == [] then ""
    else [DigitOf(bytes[0] as int / 16), DigitOf(bytes[0] as int % 16)] + Bin2Hex(bytes[1..])
  }

  /**
   * Reference decoder for what bin2hex writes: reads back lower-case digit
   * pairs, None for an odd length or a character outside [0-9a-f]. Unlike
   * PHP's hex2bin it rejects upper-case digits.
   */
  function DecodeHex(s: string): (r: Option<seq<byte>>)
    ensures r.Some? ==> |s| == 2 * |r.value|
  {
    if s == [] then Some([])
    else if |s| == 1 || !IsHexDigit(s[0]) || !IsHexDigit(s[1]) then None
    else match DecodeHex(s[2..])
      case None => None
      case Some(rest) => Some([(ValueOf(s[0]) * 16 + ValueOf(s[1])) as byte] + rest)
  }

  /** The plaintext createUser generates: bin2hex(random_bytes(10)), twenty characters from [0-9a-f]. */
  function GeneratePlainPassword(random: RandomBlock): (p: string)
    ensures |p| == 20
    ensures forall i :: 0 <= i < |p| ==> IsHexDigit(p[i])
  {
    Bin2Hex(random)
  }

  /** Decoding what bin2hex wrote gives back the bytes. */
  lemma {:induction false} Bin2HexRoundTrip(bytes: seq<byte>)
    ensures DecodeHex(Bin2Hex(bytes)) == Some(bytes)
  {
    if bytes != [] {
      var s := Bin2Hex(bytes);
      var b := bytes[0] as int;
      assert s[2..] == Bin2Hex(bytes[1..]);
      Bin2HexRoundTrip(bytes[1..]);
      assert s[0] == DigitOf(b / 16) && s[1] == DigitOf(b % 16);
      assert ValueOf(s[0]) * 16 + ValueOf(s[1]) == b;
      assert DecodeHex(s) == Some([b as byte] + bytes[1..]);
      assert [b as byte] + bytes[1..] == bytes;
    }
  }

  /** Every string DecodeHex accepts is exactly what bin2hex writes for the bytes it returns. */
  lemma {:induction false} DecodeHexRoundTrip(s: string)
    requires DecodeHex(s).Some?
    ensures Bin2Hex(DecodeHex(s).value) == s
  {
    if s != [] {
      var bytes := DecodeHex(s).value;
      DecodeHexRoundTrip(s[2..]);
      var b := ValueOf(s[0]) * 16 + ValueOf(s[1]);
      assert bytes[0] as int == b;
      assert bytes[1..] == DecodeHex(s[2..]).value;
      assert DigitOf(b / 16) == s[0] && DigitOf(b % 16) == s[1];
      assert s == s[..2] + s[2..];
    }
  }

  /** Distinct byte strings give distinct plaintexts. */
  lemma Bin2HexInjective(a: seq<byte>, b: seq<byte>)
    ensures Bin2Hex(a) == Bin2Hex(b) ==> a == b
  {
    Bin2HexRoundTrip(a);
    Bin2HexRoundTrip(b);
  }
}
