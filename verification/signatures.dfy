/** RSA signatures of files: the signer appends to a file one int64_t per
    character of the hexadecimal SHA-256 digest of its content, the
    character raised to the private key; the checker hashes everything but
    those last bytes again and raises every int64_t to the shared key. */
module Signatures {
  import opened Wrappers
  import opened NumberTheory
  import opened Bytes
  import opened Streams
  import opened Records
  import opened Digests
  import opened GenParams

  /** A signed digest character is an int64_t. */
  const SIGNED_PART_SIZE: nat := 8

  /** file_hash_size: the bytes the signature adds to a file. */
  const FILE_HASH_SIZE: nat := DIGEST_HEX_LENGTH * SIGNED_PART_SIZE

  /** The record rsa_file_signing writes for a digest character h: the char,
      widened to int64_t, raised to the private key. */
  function SignPart(mod: int, privateKey: nat): seq<Byte> -> seq<Byte>
    requires mod > 0
  {
    h => EncodeSigned(PowMod(DecodeSigned(h), privateKey, mod), SIGNED_PART_SIZE)
  }

  /** The bytes appended for a digest: its signed characters, in order. */
  function Signature(digest: seq<Byte>, mod: int, privateKey: nat): seq<Byte>
    requires mod > 0
  {
    MapRecords(digest, 1, SignPart(mod, privateKey))
  }

  /** The content rsa_check_file_sign hashes: what is left to read of the
      file without its last FILE_HASH_SIZE bytes. */
  function Content(bytes: seq<Byte>, pos: nat): seq<Byte>
    requires pos + FILE_HASH_SIZE <= |bytes|
  {
    bytes[pos..|bytes| - FILE_HASH_SIZE]
  }

  /** The last FILE_HASH_SIZE bytes of the file, where the check looks for
      the signature. */
  function Trailer(bytes: seq<Byte>): seq<Byte>
    requires FILE_HASH_SIZE <= |bytes|
  {
    bytes[|bytes| - FILE_HASH_SIZE..]
  }

  /** The i-th int64_t of a signature, as read into a zeroed variable. */
  function SignedPartAt(signature: seq<Byte>, i: nat): int {
    DecodeSigned(FieldAt(signature, SIGNED_PART_SIZE * i, SIGNED_PART_SIZE))
  }

  /** The i-th character of the digest is what the i-th signed part
      verifies to under the shared key. */
  predicate PartVerifies(signature: seq<Byte>, e: nat, n: int, digest: seq<Byte>, i: nat)
    requires n > 0 && i < |digest|
  {
    digest[i] == PowMod(SignedPartAt(signature, i), e, n)
  }

  /** A file, read from pos, whose trailer verifies against the digest of
      the content before it. */
  predicate SignatureValid(bytes: seq<Byte>, pos: nat, e: nat, n: int, hash: Sha256Hex)
    requires n > 0 && pos + FILE_HASH_SIZE <= |bytes|
  {
    var digest := hash(Content(bytes, pos));
    forall i :: 0 <= i < |digest| ==> PartVerifies(Trailer(bytes), e, n, digest, i)
  }

  /** The number of signed parts the check reads: up to and including the
      first one that does not verify, from part i on. */
  function PartsRead(signature: seq<Byte>, e: nat, n: int, digest: seq<Byte>, i: nat): (k: nat)
    requires n > 0 && i <= |digest|
    ensures i <= k <= |digest|
    decreases |digest| - i
  {
    if i == |digest| then i
    else if !PartVerifies(signature, e, n, digest, i) then i + 1
    else PartsRead(signature, e, n, digest, i + 1)
  }

  /** The check stops right after the first part that fails, having passed
      every part before it, and reads all parts when they all verify. */
  lemma {:induction false} PartsReadStops(signature: seq<Byte>, e: nat, n: int, digest: seq<Byte>, i: nat)
    requires n > 0 && i <= |digest|
    ensures var k := PartsRead(signature, e, n, digest, i);
      && (forall j :: i <= j < k - 1 ==> PartVerifies(signature, e, n, digest, j))
      && ((k > i && !PartVerifies(signature, e, n, digest, k - 1)) || k == |digest|)
      && ((forall j :: i <= j < |digest| ==> PartVerifies(signature, e, n, digest, j)) ==> k == |digest|)
    decreases |digest| - i
  {
    if i < |digest| && PartVerifies(signature, e, n, digest, i) {
      PartsReadStops(signature, e, n, digest, i + 1);
    }
  }

  /** The signature of a 64-character digest fills exactly the
      FILE_HASH_SIZE bytes the check reads back. */
  lemma SignatureSize(digest: HexDigest, mod: int, privateKey: nat)
    requires mod > 0
    ensures |Signature(digest, mod, privateKey)| == FILE_HASH_SIZE
  {
    var f := SignPart(mod, privateKey);
    assert forall r :: |f(r)| == SIGNED_PART_SIZE;
    MapRecordsCount(digest, 1, f, SIGNED_PART_SIZE);
  }

  /** The i-th int64_t of the signature is the i-th digest character raised
      to the private key, converted to int64_t. */
  lemma SignedPartOf(digest: seq<Byte>, mod: int, privateKey: nat, i: nat)
    requires mod > 0 && i < |digest|
    ensures SignedPartAt(Signature(digest, mod, privateKey), i)
         == Wrap(PowMod(DecodeSigned([digest[i]]), privateKey, mod), SIGNED_PART_SIZE)
  {
    var sig := Signature(digest, mod, privateKey);
    var lo := SIGNED_PART_SIZE * i;
    SignatureRecordAt(digest, mod, privateKey, i);
    FieldInside(sig, lo, SIGNED_PART_SIZE);
    SignedRoundTrip(PowMod(DecodeSigned([digest[i]]), privateKey, mod), SIGNED_PART_SIZE);
  }

  /** The i-th record of the signature is SignPart of the i-th character. */
  lemma SignatureRecordAt(digest: seq<Byte>, mod: int, privateKey: nat, i: nat)
    requires mod > 0 && i < |digest|
    ensures var lo := SIGNED_PART_SIZE * i;
      lo + SIGNED_PART_SIZE <= |Signature(digest, mod, privateKey)|
      && Signature(digest, mod, privateKey)[lo..lo + SIGNED_PART_SIZE] == SignPart(mod, privateKey)([digest[i]])
  {
    var f := SignPart(mod, privateKey);
    assert forall r :: |f(r)| == SIGNED_PART_SIZE;
    MapBytesAt(digest, f, SIGNED_PART_SIZE, i);
  }

  /** A hexadecimal character, a char below 128, keeps its value when
      widened to int64_t. */
  lemma HexDigitWidened(b: HexDigit)
    ensures DecodeSigned([b]) == b
  {
    assert IsHexDigit(b) && [b][1..] == [];
    assert DecodeUnsigned([b]) == b;
    assert Pow256(1) == 256;
  }

  /** A stream that has failed reads zeroes, and no digest character is
      what zero verifies to: the check rejects it. */
  lemma FailedStreamRejected(digest: HexDigest, e: nat, n: int)
    requires n > 0
    ensures !PartVerifies([], e, n, digest, 0)
  {
    assert FieldAt([], 0, SIGNED_PART_SIZE) == [] + Zeros(SIGNED_PART_SIZE);
    ZeroPadding([], SIGNED_PART_SIZE);
    assert SignedPartAt([], 0) == 0;
    if e > 0 {
      assert Pow(0, e) == 0;
    }
    assert IsHexDigit(digest[0]);
  }

  /** A character signed with d comes back under the inverse exponent e:
      the signed value fits its int64_t since the modulus does. */
  lemma PartRoundTrip(h: HexDigit, mod: int, privateKey: nat, sharedKey: nat)
    requires 'f' as int < mod <= INT64_MAX && ExponentsInvert(privateKey, sharedKey, mod)
    ensures PowMod(Wrap(PowMod(DecodeSigned([h]), privateKey, mod), SIGNED_PART_SIZE), sharedKey, mod) == h
  {
    HexDigitWidened(h);
    var y := PowMod(h, privateKey, mod);
    assert 0 <= y < mod by {
      ExponentsPositive(privateKey, sharedKey, mod);
      PowModNonNeg(h, privateKey, mod);
    }
    assert Wrap(y, SIGNED_PART_SIZE) == y by {
      SignedRoundTrip(y, SIGNED_PART_SIZE);
      Int64RoundTrip(y);
    }
    assert PowMod(y, sharedKey, mod) == h by {
      assert IsHexDigit(h);
    }
  }

  /** Signing a file read from p and checking it again from p accepts it,
      with a signing key and a shared key that invert each other. */
  lemma SignatureRoundTrip(b: seq<Byte>, p: nat, mod: int, privateKey: nat, sharedKey: nat, hash: Sha256Hex)
    requires p <= |b| && 'f' as int < mod <= INT64_MAX
    requires ExponentsInvert(privateKey, sharedKey, mod)
    ensures var signed := b + Signature(hash(b[p..]), mod, privateKey);
      p + FILE_HASH_SIZE <= |signed| && SignatureValid(signed, p, sharedKey, mod, hash)
  {
    var digest := hash(b[p..]);
    var sig := Signature(digest, mod, privateKey);
    var signed := b + sig;
    SignatureSize(digest, mod, privateKey);
    assert Content(signed, p) == b[p..];
    assert Trailer(signed) == sig;
    forall i | 0 <= i < |digest|
      ensures PartVerifies(sig, sharedKey, mod, digest, i)
    {
      SignedPartOf(digest, mod, privateKey, i);
      PartRoundTrip(digest[i], mod, privateKey, sharedKey);
    }
  }

  /** rsa_file_signing: hashes the rest of the file, from the stream's
      position to its end, and appends one signed int64_t per character of
      the digest. A failed stream writes nothing. */
  method RsaFileSigning(mod: int, privateKey: nat, file: Stream, hash: Sha256Hex)
    requires mod > 0 && file.Valid()
    modifies file
    ensures file.Valid() && file.failed == old(file.failed) && file.pos == |file.bytes|
    ensures file.bytes == if file.failed then old(file.bytes)
                          else old(file.bytes) + Signature(hash(old(file.bytes)[old(file.pos)..]), mod, privateKey)
  {
    var content := file.ReadToEnd();
    var digest := hash(content);
    ghost var b0 := file.bytes;
    WriteRecords(digest, SignPart(mod, privateKey), file);
    if !file.failed {
      WriteAtEnd(b0, Signature(digest, mod, privateKey));
    }
  }

  /** rsa_check_file_sign: hashes what is left to read without the last
      FILE_HASH_SIZE bytes, moves to those bytes and checks one int64_t per
      digest character, rejecting at the first mismatch. The source erases
      FILE_HASH_SIZE bytes from what is left, so it must hold that many. */
  method RsaCheckFileSign(mod: int, sharedKey: nat, file: Stream, hash: Sha256Hex) returns (ok: bool)
    requires mod > 0 && file.Valid() && file.pos + FILE_HASH_SIZE <= |file.bytes|
    modifies file
    ensures file.Valid() && file.bytes == old(file.bytes) && file.failed == old(file.failed)
    ensures ok == (!old(file.failed) && SignatureValid(old(file.bytes), old(file.pos), sharedKey, mod, hash))
    ensures file.pos == if file.failed then |file.bytes|
                        else |file.bytes| - FILE_HASH_SIZE + SIGNED_PART_SIZE
                             * PartsRead(Trailer(file.bytes), sharedKey, mod, hash(Content(file.bytes, old(file.pos))), 0)
  {
    var data := file.ReadToEnd();
    var content := data[..|data| - FILE_HASH_SIZE];
    assert content == Content(file.bytes, old(file.pos));
    var digest := hash(content);
    file.Seek(|file.bytes| - FILE_HASH_SIZE);
    ghost var signature := file.Remaining();
    ok := CheckParts(mod, sharedKey, file, digest);
    if file.failed {
      FailedStreamRejected(digest, sharedKey, mod);
    } else {
      assert signature == Trailer(file.bytes);
    }
  }

  /** The loop of rsa_check_file_sign: one int64_t per digest character,
      read into a zeroed variable, until one does not verify. */
  method CheckParts(mod: int, sharedKey: nat, file: Stream, digest: seq<Byte>) returns (ok: bool)
    requires mod > 0 && file.Valid()
    requires !file.failed ==> SIGNED_PART_SIZE * |digest| <= |file.Remaining()|
    modifies file
    ensures file.Valid() && file.bytes == old(file.bytes) && file.failed == old(file.failed)
    ensures ok == forall i :: 0 <= i < |digest| ==> PartVerifies(old(file.Remaining()), sharedKey, mod, digest, i)
    ensures file.pos == if file.failed then old(file.pos)
                        else old(file.pos) + SIGNED_PART_SIZE * PartsRead(old(file.Remaining()), sharedKey, mod, digest, 0)
  {
    ghost var signature := file.Remaining();
    ghost var p0 := file.pos;
    var i := 0;
    while i < |digest|
      invariant 0 <= i <= |digest|
      invariant file.Valid() && file.bytes == old(file.bytes) && file.failed == old(file.failed)
      invariant forall j :: 0 <= j < i ==> PartVerifies(signature, sharedKey, mod, digest, j)
      invariant PartsRead(signature, sharedKey, mod, digest, 0) == PartsRead(signature, sharedKey, mod, digest, i)
      invariant file.Remaining() == Drop(signature, SIGNED_PART_SIZE * i)
      invariant file.pos == if file.failed then p0 else p0 + SIGNED_PART_SIZE * i
    {
      var signed := ReadPart(file, signature, i, digest);
      var check := ComputePowMod(signed, sharedKey, mod);
      if digest[i] != check {
        assert !PartVerifies(signature, sharedKey, mod, digest, i);
        return false;
      }
      assert PartVerifies(signature, sharedKey, mod, digest, i);
      assert PartsRead(signature, sharedKey, mod, digest, i) == PartsRead(signature, sharedKey, mod, digest, i + 1);
      i := i + 1;
    }
    return true;
  }

  /** One read of the check's loop: the i-th int64_t of the signature. */
  method ReadPart(file: Stream, ghost signature: seq<Byte>, ghost i: nat, ghost digest: seq<Byte>)
    returns (signed: int)
    requires file.Valid() && i < |digest| && file.Remaining() == Drop(signature, SIGNED_PART_SIZE * i)
    requires !file.failed ==> SIGNED_PART_SIZE * |digest| <= |signature|
    modifies file
    ensures file.Valid() && file.bytes == old(file.bytes) && file.failed == old(file.failed)
    ensures signed == SignedPartAt(signature, i)
    ensures file.Remaining() == Drop(signature, SIGNED_PART_SIZE * (i + 1))
    ensures file.pos == if file.failed then old(file.pos) else old(file.pos) + SIGNED_PART_SIZE
  {
    var part, _ := file.Read(SIGNED_PART_SIZE);
    ReadField(signature, SIGNED_PART_SIZE * i, SIGNED_PART_SIZE, part);
    DropTwice(signature, SIGNED_PART_SIZE * i, SIGNED_PART_SIZE);
    signed := DecodeSigned(part + Zeros(SIGNED_PART_SIZE - |part|));
  }

  /** The signature test: RSA parameters from rsa_gen_sys, a file signed
      with the private key, rewound to its start, and checked with the
      shared key. The check runs, and accepts, exactly when the draws yield
      parameters. */
  method SignAndCheck(draws: seq<nat>, file: Stream, hash: Sha256Hex) returns (r: Result<bool, Error>)
    requires file.Valid() && !file.failed && file.pos == 0
    modifies file
    ensures r.Failure? ==> r.error == KeyGenerationExhausted
    ensures r.Success? <==> RsaPrimes(draws, 0).Some?
    ensures r.Success? ==> r.value
  {
    var params, p, q := RsaGenSys(draws);
    if params.Failure? {
      return Failure(params.error);
    }
    RsaKeysInvert(params.value, p, q);
    var mod, privateKey, sharedKey := params.value.mod, params.value.recv.privateKey, params.value.recv.sharedKey;
    ghost var b0 := file.bytes;
    RsaFileSigning(mod, privateKey, file, hash);
    SignatureRoundTrip(b0, 0, mod, privateKey, sharedKey, hash);
    file.Seek(0);
    var ok := RsaCheckFileSign(mod, sharedKey, file, hash);
    return Success(ok);
  }
}
