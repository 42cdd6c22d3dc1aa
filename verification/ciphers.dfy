/** The Shamir three-pass cipher over files: every byte of the message is
    raised to the sender's and then the receiver's private exponent modulo a
    prime, and written as an int64_t; decryption raises every int64_t record
    to the two inverse exponents and writes the low byte of the result. */
module Ciphers {
  import opened ModArith
  import opened NumberTheory
  import opened Bytes
  import opened Streams
  import opened Records
  import opened GenParams

  /** The encrypted file holds int64_t records. */
  const PART_SIZE: nat := 8

  /** The int64_t record shamir_encrypt writes for a message byte c: the
      char is sign-extended to int64_t and raised to both exponents. */
  function EncryptPart(mod: int, recvRelPrime: nat, sendRelPrime: nat): seq<Byte> -> seq<Byte>
    requires mod > 0
  {
    c => EncodeSigned(PowMod(PowMod(DecodeSigned(c), sendRelPrime, mod), recvRelPrime, mod), PART_SIZE)
  }

  /** The byte shamir_decrypt writes for an int64_t record x: the low byte of
      x raised to both inverse exponents (static_cast<char>). */
  function DecryptPart(mod: int, recvInversion: nat, sendInversion: nat): seq<Byte> -> seq<Byte>
    requires mod > 0
  {
    x => [PowMod(PowMod(DecodeSigned(x), sendInversion, mod), recvInversion, mod) % 256]
  }

  /** What shamir_encrypt appends for a message. */
  function EncryptedText(message: seq<Byte>, mod: int, recvRelPrime: nat, sendRelPrime: nat): seq<Byte>
    requires mod > 0
  {
    MapRecords(message, 1, EncryptPart(mod, recvRelPrime, sendRelPrime))
  }

  /** What shamir_decrypt appends for the records of an encrypted file. */
  function DecryptedText(data: seq<Byte>, mod: int, recvInversion: nat, sendInversion: nat): seq<Byte>
    requires mod > 0
  {
    MapRecords(data, PART_SIZE, DecryptPart(mod, recvInversion, sendInversion))
  }

  /** shamir_encrypt: reads the message byte by byte until a read fails and
      writes one encrypted record per byte. The exponents of pow_mod are
      non-negative: a negative one never ends its loop. */
  method ShamirEncrypt(mod: int, recvRelPrime: nat, sendRelPrime: nat, message: Stream, encrypted: Stream)
    requires mod > 0 && message.Valid() && encrypted.Valid() && message != encrypted
    modifies message, encrypted
    ensures message.Valid() && message.bytes == old(message.bytes) && message.failed
    ensures message.pos == if old(message.failed) then old(message.pos) else |message.bytes|
    ensures encrypted.Valid() && encrypted.failed == old(encrypted.failed)
    ensures (encrypted.bytes, encrypted.pos) == AfterWrite(old(encrypted.bytes), old(encrypted.pos), encrypted.failed,
              EncryptedText(old(message.Remaining()), mod, recvRelPrime, sendRelPrime))
  {
    TransformRecords(message, encrypted, 1, EncryptPart(mod, recvRelPrime, sendRelPrime));
  }

  /** shamir_decrypt: reads the encrypted file one int64_t at a time until a
      read fails, a short piece at the end included, and writes one byte per
      whole record. */
  method ShamirDecrypt(mod: int, recvInversion: nat, sendInversion: nat, encrypted: Stream, decrypted: Stream)
    requires mod > 0 && encrypted.Valid() && decrypted.Valid() && encrypted != decrypted
    modifies encrypted, decrypted
    ensures encrypted.Valid() && encrypted.bytes == old(encrypted.bytes) && encrypted.failed
    ensures encrypted.pos == if old(encrypted.failed) then old(encrypted.pos) else |encrypted.bytes|
    ensures decrypted.Valid() && decrypted.failed == old(decrypted.failed)
    ensures (decrypted.bytes, decrypted.pos) == AfterWrite(old(decrypted.bytes), old(decrypted.pos), decrypted.failed,
              DecryptedText(old(encrypted.Remaining()), mod, recvInversion, sendInversion))
  {
    TransformRecords(encrypted, decrypted, PART_SIZE, DecryptPart(mod, recvInversion, sendInversion));
  }

  // ---------------------------------------------------------------------
  // Shape of the files

  /** Every encrypted record is an int64_t. */
  lemma EncryptPartWidth(mod: int, recvRelPrime: nat, sendRelPrime: nat)
    requires mod > 0
    ensures forall r :: |EncryptPart(mod, recvRelPrime, sendRelPrime)(r)| == PART_SIZE
  {
  }

  /** The encrypted file holds exactly one record per message byte, in
      order: record i is message byte i raised to both exponents. */
  lemma EncryptedRecords(message: seq<Byte>, mod: int, recvRelPrime: nat, sendRelPrime: nat)
    requires mod > 0
    ensures |EncryptedText(message, mod, recvRelPrime, sendRelPrime)| == PART_SIZE * |message|
    ensures forall i {:trigger message[i]} :: 0 <= i < |message| ==>
      EncryptedText(message, mod, recvRelPrime, sendRelPrime)[PART_SIZE * i..PART_SIZE * (i + 1)]
        == EncodeSigned(PowMod(PowMod(DecodeSigned([message[i]]), sendRelPrime, mod), recvRelPrime, mod), PART_SIZE)
  {
    var f := EncryptPart(mod, recvRelPrime, sendRelPrime);
    EncryptPartWidth(mod, recvRelPrime, sendRelPrime);
    MapRecordsCount(message, 1, f, PART_SIZE);
    assert |message| / 1 == |message|;
    forall i | 0 <= i < |message|
      ensures EncryptedText(message, mod, recvRelPrime, sendRelPrime)[PART_SIZE * i..PART_SIZE * (i + 1)]
           == EncodeSigned(PowMod(PowMod(DecodeSigned([message[i]]), sendRelPrime, mod), recvRelPrime, mod), PART_SIZE)
    {
      EncryptedRecordAt(message, mod, recvRelPrime, sendRelPrime, i);
    }
  }

  /** Record i of the encrypted file is the record of message byte i. */
  lemma EncryptedRecordAt(message: seq<Byte>, mod: int, recvRelPrime: nat, sendRelPrime: nat, i: nat)
    requires mod > 0 && i < |message|
    ensures PART_SIZE * (i + 1) <= |EncryptedText(message, mod, recvRelPrime, sendRelPrime)|
    ensures EncryptedText(message, mod, recvRelPrime, sendRelPrime)[PART_SIZE * i..PART_SIZE * (i + 1)]
         == EncryptPart(mod, recvRelPrime, sendRelPrime)([message[i]])
  {
    var f := EncryptPart(mod, recvRelPrime, sendRelPrime);
    EncryptPartWidth(mod, recvRelPrime, sendRelPrime);
    MapBytesAt(message, f, PART_SIZE, i);
    assert PART_SIZE * (i + 1) == PART_SIZE * i + PART_SIZE;
  }

  /** The decrypted file holds one byte per whole record of the encrypted
      file. */
  lemma DecryptedLength(data: seq<Byte>, mod: int, recvInversion: nat, sendInversion: nat)
    requires mod > 0
    ensures |DecryptedText(data, mod, recvInversion, sendInversion)| == |data| / PART_SIZE
  {
    MapRecordsCount(data, PART_SIZE, DecryptPart(mod, recvInversion, sendInversion), 1);
  }

  // ---------------------------------------------------------------------
  // Decryption undoes encryption

  /** Shamir exponents modulo an odd prime are odd: they are inverse modulo
      the even number mod - 1. */
  lemma ShamirKeysOdd(mod: int, u: UserParams)
    requires IsPrime(mod) && ShamirKeyPair(mod, u)
    ensures u.privateKey % 2 == 1 && u.sharedKey % 2 == 1
  {
    assert mod % 2 != 0;
    var half := (mod - 1) / 2;
    DivModUnique(mod - 1, 2, half, 0);
    var k := u.privateKey * u.sharedKey;
    var q := k / (mod - 1);
    DivModUnique(k, 2, q * half, 1) by {
      assert k == q * (mod - 1) + 1;
      assert q * (mod - 1) == (q * half) * 2;
    }
    if u.privateKey % 2 == 0 {
      var a := u.privateKey / 2;
      DivModUnique(k, 2, a * u.sharedKey, 0) by {
        assert u.privateKey == 2 * a;
      }
    }
    if u.sharedKey % 2 == 0 {
      var b := u.sharedKey / 2;
      DivModUnique(k, 2, u.privateKey * b, 0) by {
        assert u.sharedKey == 2 * b;
      }
    }
  }

  /** For a residue, the four exponentiations cancel: the sender's pair and
      the receiver's pair commute. */
  lemma ResidueRoundTrip(c: int, m: int, a: nat, b: nat, aInv: nat, bInv: nat)
    requires m >= 2 && 0 <= c < m && a >= 1
    requires ExponentsInvert(a, aInv, m) && ExponentsInvert(b, bInv, m)
    ensures PowMod(PowMod(PowMod(PowMod(c, a, m), b, m), aInv, m), bInv, m) == c
  {
    var x1 := PowMod(c, a, m);
    PowModCongruent(c, a, m);
    PowModCommute(x1, b, aInv, m);
    assert PowMod(x1, aInv, m) == c;
  }

  /** For a sign-extended char, the four exponentiations cancel too: with odd
      exponents pow_mod of a negative base is the negated pow_mod of its
      magnitude, so the sign survives every step. */
  lemma CharRoundTrip(c: int, m: int, a: nat, b: nat, aInv: nat, bInv: nat)
    requires m >= 2 && -m < c < m
    requires a % 2 == 1 && b % 2 == 1 && aInv % 2 == 1 && bInv % 2 == 1
    requires ExponentsInvert(a, aInv, m) && ExponentsInvert(b, bInv, m)
    ensures PowMod(PowMod(PowMod(PowMod(c, a, m), b, m), aInv, m), bInv, m) == c
  {
    if c >= 0 {
      ResidueRoundTrip(c, m, a, b, aInv, bInv);
    } else {
      var u := -c;
      ResidueRoundTrip(u, m, a, b, aInv, bInv);
      var x1 := PowMod(u, a, m);
      var x2 := PowMod(x1, b, m);
      var x3 := PowMod(x2, aInv, m);
      PowModNegBase(u, a, m);
      PowModNegBase(x1, b, m);
      PowModNegBase(x2, aInv, m);
      PowModNegBase(x3, bInv, m);
      assert -u == c;
    }
  }

  /** A char read from the message, sign-extended: its low byte is the
      byte read. */
  lemma SignExtended(b: Byte)
    ensures var c := DecodeSigned([b]); -128 <= c < 128 && c % 256 == b
  {
    assert [b][1..] == [];
  }

  /** One message byte comes back from its record. The record holds the
      int64_t value: it fits since the modulus is an int64_t. */
  lemma PartRoundTrip(b: Byte, mod: int, sender: UserParams, receiver: UserParams)
    requires IsPrime(mod) && mod <= INT64_MAX
    requires ShamirKeyPair(mod, sender) && ShamirKeyPair(mod, receiver)
    ensures DecryptPart(mod, receiver.sharedKey, sender.sharedKey)(
              EncryptPart(mod, receiver.privateKey, sender.privateKey)([b])) == [b]
  {
    var c := DecodeSigned([b]);
    SignExtended(b);
    ShamirKeysOdd(mod, sender);
    ShamirKeysOdd(mod, receiver);
    ShamirKeysInvert(mod, sender);
    ShamirKeysInvert(mod, receiver);
    var x := PowMod(c, sender.privateKey, mod);
    var y := PowMod(x, receiver.privateKey, mod);
    PowModCongruent(x, receiver.privateKey, mod);
    Int64RoundTrip(y);
    CharRoundTrip(c, mod, sender.privateKey, receiver.privateKey, sender.sharedKey, receiver.sharedKey);
    var z := PowMod(PowMod(y, sender.sharedKey, mod), receiver.sharedKey, mod);
    assert z == c;
    assert EncryptPart(mod, receiver.privateKey, sender.privateKey)([b]) == EncodeSigned(y, PART_SIZE);
    assert DecryptPart(mod, receiver.sharedKey, sender.sharedKey)(EncodeSigned(y, PART_SIZE)) == [z % 256];
  }

  /** Decrypting the encryption of a message with the inverse exponents of
      both users gives the message back, bytes of negative chars included. */
  lemma ShamirRoundTrip(message: seq<Byte>, mod: int, sender: UserParams, receiver: UserParams)
    requires IsPrime(mod) && mod <= INT64_MAX
    requires ShamirKeyPair(mod, sender) && ShamirKeyPair(mod, receiver)
    ensures DecryptedText(EncryptedText(message, mod, receiver.privateKey, sender.privateKey),
                          mod, receiver.sharedKey, sender.sharedKey) == message
  {
    var f := EncryptPart(mod, receiver.privateKey, sender.privateKey);
    var g := DecryptPart(mod, receiver.sharedKey, sender.sharedKey);
    forall r | |r| == 1
      ensures |f(r)| == PART_SIZE && g(f(r)) == r
    {
      PartRoundTrip(r[0], mod, sender, receiver);
      assert r == [r[0]];
    }
    MapRecordsUndo(message, 1, f, PART_SIZE, g);
    assert Leftover(message, 1) == [];
  }
}
