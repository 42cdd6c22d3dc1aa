/** The text the library hashes and the digests it gets back: SHA-256
    itself (PicoSHA2) is outside the model and enters the operations as a
    function parameter whose type records what it returns. */
module Digests {
  import opened Bytes

  /** Number of hexadecimal characters in a SHA-256 digest. */
  const DIGEST_HEX_LENGTH: nat := 64

  /** The ASCII code of a lower-case hexadecimal digit. */
  predicate IsHexDigit(b: int) {
    '0' as int <= b <= '9' as int || 'a' as int <= b <= 'f' as int
  }

  type HexDigit = b: Byte | IsHexDigit(b) witness '0' as int

  /** picosha2::hash256_hex_string: 64 lower-case hexadecimal characters. */
  type HexDigest = s: seq<HexDigit> | |s| == DIGEST_HEX_LENGTH witness seq(DIGEST_HEX_LENGTH, _ => '0' as int)

  /** A digest function over byte strings. */
  type Sha256Hex = seq<Byte> -> HexDigest

  /** std::to_string of an unsigned number: its decimal digits, without
      leading zeros. */
  function DecimalText(n: nat): (r: seq<char>)
    ensures |r| >= 1 && forall i :: 0 <= i < |r| ==> '0' <= r[i] <= '9'
    ensures |r| > 1 ==> r[0] != '0'
    decreases n
  {
    if n < 10 then [('0' as int + n) as char]
    else DecimalText(n / 10) + [('0' as int + n % 10) as char]
  }

  /** The number a string of decimal digits spells. */
  function DecimalValue(s: seq<char>): nat
    requires forall i :: 0 <= i < |s| ==> '0' <= s[i] <= '9'
    decreases |s|
  {
    if |s| == 0 then 0
    else 10 * DecimalValue(s[..|s| - 1]) + (s[|s| - 1] as int - '0' as int)
  }

  /** The decimal text of a number spells that number: distinct votes are
      hashed from distinct texts. */
  lemma {:induction false} DecimalRoundTrip(n: nat)
    ensures DecimalValue(DecimalText(n)) == n
    decreases n
  {
    if n >= 10 {
      var t := DecimalText(n);
      assert t[..|t| - 1] == DecimalText(n / 10);
      DecimalRoundTrip(n / 10);
    }
  }

  /** The bytes of a text whose characters are all single bytes. */
  function Latin1(s: seq<char>): (r: seq<Byte>)
    requires forall i :: 0 <= i < |s| ==> s[i] as int < 256
    ensures |r| == |s| && forall i :: 0 <= i < |s| ==> r[i] == s[i] as int
  {
    seq(|s|, i requires 0 <= i < |s| => s[i] as int)
  }

  /** std::to_string as the bytes of a std::string. */
  function DecimalBytes(n: nat): (r: seq<Byte>)
    ensures |r| >= 1
  {
    Latin1(DecimalText(n))
  }
}
