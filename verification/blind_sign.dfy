/** Anonymous voting with RSA blind signatures: an elector blinds the digest
    of its vote with a random factor, the server signs the blinded records
    over a channel that identifies the elector, the elector removes the
    blinding and posts vote and signature over an anonymous channel, and the
    server checks the signature there without being able to link it to the
    elector. */
module BlindSign {
  import opened Wrappers
  import opened ModArith
  import opened NumberTheory
  import opened Random
  import opened Bytes
  import opened Streams
  import opened Records
  import opened Digests

  /** The channels carry int32_t records. */
  const RECORD_SIZE: nat := 4
  /** The bulletin starts with the uint64_t vote. */
  const VOTE_SIZE: nat := 8
  /** The answer occupies the low 32 bits of the vote, random excess data
      the high 32 bits. */
  const EXCESS_DATA_OFFSET: nat := 32
  const TWO_POW_32: nat := 0x1_0000_0000

  /** An int32_t record holding static_cast<int32_t>(v). */
  function Int32Record(v: int): (r: seq<Byte>)
    ensures |r| == RECORD_SIZE
  {
    EncodeSigned(Wrap(v, RECORD_SIZE), RECORD_SIZE)
  }

  /** The vote of an elector: (excess << 32) + answer. */
  function PackVote(excess: nat, answer: Byte): nat {
    excess * TWO_POW_32 + answer
  }

  /** The record send_blinded_hash writes for a digest character h, with
      factor == pow_mod(r, e, n): mod(h * factor, n). */
  function BlindWith(factor: int, n: int): seq<Byte> -> seq<Byte>
    requires n > 0
  {
    h => Int32Record(Mod(DecodeSigned(h) * factor, n))
  }

  /** The record send_blinded_sign puts in place of a record b:
      pow_mod(b, d, n). */
  function SignRecord(d: nat, n: int): seq<Byte> -> seq<Byte>
    requires n > 0
  {
    b => Int32Record(PowMod(DecodeSigned(b), d, n))
  }

  /** The record send_bulletin writes for a signed record b:
      mod(b * inverse, n). */
  function UnblindRecord(inverse: int, n: int): seq<Byte> -> seq<Byte>
    requires n > 0
  {
    b => Int32Record(Mod(DecodeSigned(b) * inverse, n))
  }

  /** The records send_blinded_hash writes, one per digest character. */
  function BlindedRecords(digest: seq<Byte>, r: int, e: nat, n: int): seq<Byte>
    requires n > 0
  {
    MapRecords(digest, 1, BlindWith(PowMod(r, e, n), n))
  }

  /** The records send_blinded_sign puts in place of the whole records of
      the channel. */
  function SignedRecords(data: seq<Byte>, d: nat, n: int): seq<Byte>
    requires n > 0
  {
    MapRecords(data, RECORD_SIZE, SignRecord(d, n))
  }

  /** The records send_bulletin writes for the whole records of the
      secure channel. */
  function UnblindedRecords(data: seq<Byte>, inverse: int, n: int): seq<Byte>
    requires n > 0
  {
    MapRecords(data, RECORD_SIZE, UnblindRecord(inverse, n))
  }

  /** The vote check_bulletin reads from a bulletin: a short bulletin leaves
      the missing high bytes zero. */
  function BulletinVote(data: seq<Byte>): nat {
    DecodeUnsigned(FieldAt(data, 0, VOTE_SIZE))
  }

  /** The i-th signature record check_bulletin reads from the bytes after
      the vote: zero once the bulletin has run out. */
  function SignatureRecord(records: seq<Byte>, i: nat): int {
    DecodeSigned(FieldAt(records, RECORD_SIZE * i, RECORD_SIZE))
  }

  /** The i-th character of the digest is what the i-th record verifies to. */
  predicate RecordVerifies(records: seq<Byte>, e: nat, n: int, digest: seq<Byte>, i: nat)
    requires n > 0 && i < |digest|
  {
    digest[i] == PowMod(SignatureRecord(records, i), e, n)
  }

  /** A bulletin whose every record verifies against the digest of its vote. */
  predicate BulletinAccepted(data: seq<Byte>, e: nat, n: int, hash: Sha256Hex)
    requires n > 0
  {
    var digest := hash(DecimalBytes(BulletinVote(data)));
    forall i :: 0 <= i < |digest| ==> RecordVerifies(Drop(data, VOTE_SIZE), e, n, digest, i)
  }

  /** The number of records check_bulletin reads: up to and including the
      first one that does not verify, from record i on. */
  function RecordsRead(records: seq<Byte>, e: nat, n: int, digest: seq<Byte>, i: nat): (k: nat)
    requires n > 0 && i <= |digest|
    ensures i <= k <= |digest|
    decreases |digest| - i
  {
    if i == |digest| then i
    else if !RecordVerifies(records, e, n, digest, i) then i + 1
    else RecordsRead(records, e, n, digest, i + 1)
  }

  /** The check stops right after the first record that fails, having
      passed every record before it; it reads all records exactly when the
      last one read verifies, which is when all of them do. */
  lemma {:induction false} RecordsReadStops(records: seq<Byte>, e: nat, n: int, digest: seq<Byte>, i: nat)
    requires n > 0 && i <= |digest|
    ensures var k := RecordsRead(records, e, n, digest, i);
      && (forall j :: i <= j < k - 1 ==> RecordVerifies(records, e, n, digest, j))
      && ((k > i && !RecordVerifies(records, e, n, digest, k - 1)) || k == |digest|)
      && ((forall j :: i <= j < |digest| ==> RecordVerifies(records, e, n, digest, j))
          <==> (k == |digest| && (k == i || RecordVerifies(records, e, n, digest, k - 1))))
    decreases |digest| - i
  {
    if i < |digest| && RecordVerifies(records, e, n, digest, i) {
      RecordsReadStops(records, e, n, digest, i + 1);
    }
  }

  /** The raw draw yields a blinding factor coprime to the modulus. */
  predicate BlindFactorAccepted(mod: int, raw: nat)
    requires mod >= 3
  {
    ExtendedGcd(Uniform(2, mod - 1, raw), mod).0 == 1
  }

  class Elector {
    const vote: nat
    var blindFactor: int
    var inverseBlindFactor: int
    /** The identity the server gives the elector on the secure channel;
        uint64_t(-1) until then. */
    var electorId: nat

    /** The vote carries the answer in its low 32 bits and excess data drawn
        from [2^31, 2^32 - 1] in its high 32 bits. */
    constructor (answer: Byte, excessDraw: nat)
      ensures vote == PackVote(Uniform(UINT32_MAX / 2 + 1, UINT32_MAX, excessDraw), answer)
      ensures vote % TWO_POW_32 == answer && vote <= UINT64_MAX
      ensures blindFactor == -1 && inverseBlindFactor == -1 && electorId == UINT64_MAX
    {
      var excess := Uniform(UINT32_MAX / 2 + 1, UINT32_MAX, excessDraw);
      vote := PackVote(excess, answer);
      VoteCarriesAnswer(excess, answer);
      blindFactor := -1;
      inverseBlindFactor := -1;
      electorId := UINT64_MAX;
    }

    /** get_elector_id. */
    method GetElectorId() returns (id: nat)
      ensures id == electorId
    {
      id := electorId;
    }

    /** set_elector_id: the elector now answers to the new identity. */
    method SetElectorId(newId: nat)
      modifies this
      ensures electorId == newId
      ensures blindFactor == old(blindFactor) && inverseBlindFactor == old(inverseBlindFactor)
    {
      electorId := newId;
    }

    /** The blinding factor is the first accepted draw, coprime to mod, and
        inverseBlindFactor is its inverse modulo mod. */
    ghost predicate BlindingDrawn(mod: int, draws: seq<nat>)
      reads this
      requires mod >= 3
    {
      && (exists i :: 0 <= i < |draws| && blindFactor == Uniform(2, mod - 1, draws[i])
            && BlindFactorAccepted(mod, draws[i])
            && forall j :: 0 <= j < i ==> !BlindFactorAccepted(mod, draws[j]))
      && 2 <= blindFactor < mod && ExtendedGcd(blindFactor, mod).0 == 1
      && 0 < inverseBlindFactor < mod && (blindFactor * inverseBlindFactor) % mod == 1
    }

    /** Draws the blinding factor from [2, mod - 1] until it is coprime to
        mod and keeps its inverse modulo mod. */
    method GenBlindFactor(mod: int, draws: seq<nat>)
      requires mod >= 3
      requires exists i :: 0 <= i < |draws| && BlindFactorAccepted(mod, draws[i])
      modifies this
      ensures electorId == old(electorId)
      ensures BlindingDrawn(mod, draws)
    {
      var i := 0;
      var bf := Uniform(2, mod - 1, draws[0]);
      var gcdResult := ExtendedGcd(bf, mod);
      while gcdResult.0 != 1
        invariant 0 <= i < |draws| && bf == Uniform(2, mod - 1, draws[i])
        invariant gcdResult == ExtendedGcd(bf, mod)
        invariant forall j :: 0 <= j < i ==> !BlindFactorAccepted(mod, draws[j])
        invariant exists j :: i <= j < |draws| && BlindFactorAccepted(mod, draws[j])
        decreases |draws| - i
      {
        i := i + 1;
        bf := Uniform(2, mod - 1, draws[i]);
        gcdResult := ExtendedGcd(bf, mod);
      }
      var inv := gcdResult.2;
      BackCoefficientIsInverse(bf, mod);
      if inv < 0 {
        inv := inv + mod;
      }
      blindFactor := bf;
      inverseBlindFactor := inv;
    }

    /** Blinds the digest of the vote with a fresh factor and writes one
        record per digest character to the secure channel. */
    method SendBlindedHash(mod: int, serverSharedKey: nat, secure: Stream, hash: Sha256Hex, draws: seq<nat>)
      requires mod >= 3 && secure.Valid()
      requires exists i :: 0 <= i < |draws| && BlindFactorAccepted(mod, draws[i])
      modifies this, secure
      ensures electorId == old(electorId)
      ensures BlindingDrawn(mod, draws)
      ensures secure.Valid() && secure.failed == old(secure.failed)
      ensures (secure.bytes, secure.pos) == AfterWrite(old(secure.bytes), old(secure.pos), secure.failed,
                BlindedRecords(hash(DecimalBytes(vote)), blindFactor, serverSharedKey, mod))
    {
      GenBlindFactor(mod, draws);
      var digest := hash(DecimalBytes(vote));
      var factor := ComputePowMod(blindFactor, serverSharedKey, mod);
      WriteRecords(digest, BlindWith(factor, mod), secure);
    }

    /** Posts the vote and the unblinded signature records read from the
        secure channel to the anonymous channel. */
    method SendBulletin(mod: int, secure: Stream, anon: Stream)
      requires mod > 0 && secure.Valid() && anon.Valid() && secure != anon
      modifies secure, anon
      ensures secure.Valid() && secure.bytes == old(secure.bytes) && secure.failed
      ensures secure.pos == if old(secure.failed) then old(secure.pos) else |secure.bytes|
      ensures anon.Valid() && anon.failed == old(anon.failed)
      ensures (anon.bytes, anon.pos) == AfterWrite(old(anon.bytes), old(anon.pos), anon.failed,
                EncodeUnsigned(vote, VOTE_SIZE) + UnblindedRecords(old(secure.Remaining()), inverseBlindFactor, mod))
    {
      var voteBytes := EncodeUnsigned(vote, VOTE_SIZE);
      AfterWriteTwice(anon.bytes, anon.pos, anon.failed, voteBytes,
                      UnblindedRecords(secure.Remaining(), inverseBlindFactor, mod));
      anon.Write(voteBytes);
      TransformRecords(secure, anon, RECORD_SIZE, UnblindRecord(inverseBlindFactor, mod));
    }
  }

  class Server {
    /** The identities handed out so far. */
    var electorsId: set<nat>

    /** Identities are handed out in order from 0: every registered id is
        below the number of registrations, so the set is {0, ..., n - 1}. */
    ghost predicate Valid()
      reads this
    {
      forall id :: id in electorsId ==> id < |electorsId|
    }

    constructor ()
      ensures Valid() && electorsId == {}
    {
      electorsId := {};
    }

    /** accept_connection: an elector whose identity is already registered
        may not vote twice; otherwise it gets the next identity and a fresh
        channel file named after it, truncated and opened for reading and
        writing. `canOpen` says whether the file could be opened. */
    method AcceptConnection(elector: Elector, canOpen: bool) returns (r: Result<Stream, Error>)
      requires Valid()
      modifies this, elector
      ensures Valid()
      ensures r.Failure? <==> old(elector.electorId) in old(electorsId)
      ensures r.Failure? ==> r.error == ProtocolViolation
      ensures r.Failure? ==> electorsId == old(electorsId) && elector.electorId == old(elector.electorId)
      ensures r.Success? ==> elector.electorId == old(|electorsId|) && elector.electorId !in old(electorsId)
      ensures r.Success? ==> electorsId == old(electorsId) + {elector.electorId}
      ensures r.Success? ==> |electorsId| == old(|electorsId|) + 1 && elector.electorId in electorsId
      ensures r.Success? ==> fresh(r.value) && r.value.Valid() && r.value.bytes == [] && r.value.pos == 0
      ensures r.Success? ==> r.value.failed == !canOpen
      ensures r.Success? ==> r.value.name == DecimalText(elector.electorId) && r.value.isOpen == canOpen
      ensures elector.blindFactor == old(elector.blindFactor)
      ensures elector.inverseBlindFactor == old(elector.inverseBlindFactor)
    {
      var current := elector.GetElectorId();
      if current in electorsId {
        return Failure(ProtocolViolation);
      }
      var id := |electorsId|;
      assert id !in electorsId;
      elector.SetElectorId(id);
      electorsId := electorsId + {id};
      var channel := new Stream(DecimalText(|electorsId| - 1), canOpen);
      r := Success(channel);
    }

    /** send_blinded_sign: every whole record of the channel from the
        current position on is replaced in place by its signature
        pow_mod(record, d, n); a trailing short piece is left as it is and
        the channel ends failed at its end. */
    static method SendBlindedSign(mod: int, privateKey: nat, secure: Stream)
      requires mod > 0 && secure.Valid()
      modifies secure
      ensures secure.Valid() && |secure.bytes| == |old(secure.bytes)| && secure.failed
      ensures old(secure.failed) ==> secure.bytes == old(secure.bytes) && secure.pos == old(secure.pos)
      ensures !old(secure.failed) ==> secure.pos == |secure.bytes|
      ensures !old(secure.failed) ==>
                secure.bytes == old(secure.bytes)[..old(secure.pos)]
                  + SignedRecords(old(secure.Remaining()), privateKey, mod)
                  + Leftover(old(secure.Remaining()), RECORD_SIZE)
    {
      ghost var b0, p0, rest := secure.bytes, secure.pos, secure.Remaining();
      RewriteRecords(secure, SignRecord(privateKey, mod));
      if !old(secure.failed) {
        WriteAtInside(b0, p0, SignedRecords(rest, privateKey, mod));
      }
    }

    /** The loop of send_blinded_sign: read a record, step back over it and
        write `sign` of it in its place, until a read fails. */
    static method RewriteRecords(secure: Stream, sign: seq<Byte> -> seq<Byte>)
      requires secure.Valid()
      requires forall x :: |x| == RECORD_SIZE ==> |sign(x)| == RECORD_SIZE
      modifies secure
      ensures secure.Valid() && |secure.bytes| == |old(secure.bytes)| && secure.failed
      ensures secure.pos == if old(secure.failed) then old(secure.pos) else |secure.bytes|
      ensures secure.bytes
           == WriteAt(old(secure.bytes), old(secure.pos), MapRecords(old(secure.Remaining()), RECORD_SIZE, sign))
      ensures !old(secure.failed) ==>
                Leftover(old(secure.Remaining()), RECORD_SIZE)
                  == old(secure.bytes)[old(secure.pos) + |MapRecords(old(secure.Remaining()), RECORD_SIZE, sign)|..]
    {
      ghost var b0, p0, f0 := secure.bytes, secure.pos, secure.failed;
      ghost var rest := secure.Remaining();
      ghost var q := 0;
      ghost var written: seq<Byte> := [];
      var part, ok := secure.Read(RECORD_SIZE);
      while ok
        invariant secure.Valid() && |secure.bytes| == |b0|
        invariant q <= |rest| && q % RECORD_SIZE == 0 && p0 + q <= |b0|
        invariant ok ==> q + RECORD_SIZE <= |rest| && part == rest[q..q + RECORD_SIZE]
        invariant !ok ==> |rest| < q + RECORD_SIZE
        invariant (secure.pos, secure.failed) == AfterReads(p0, f0, |b0|, q + RECORD_SIZE)
        invariant secure.Remaining() == Drop(rest, q + RECORD_SIZE)
        invariant written == MapRecords(rest[..q], RECORD_SIZE, sign) && |written| == q
        invariant secure.bytes == WriteAt(b0, p0, written)
        decreases |rest| - q
      {
        var out := sign(part);
        MapRecordsStep(rest, q, RECORD_SIZE, sign);
        OverwriteRecord(secure, out, b0, p0, written);
        written := written + out;
        AfterReadsTwice(p0, f0, |b0|, q + RECORD_SIZE, RECORD_SIZE);
        q := q + RECORD_SIZE;
        part, ok := secure.Read(RECORD_SIZE);
      }
      MapRecordsEnd(rest, q, RECORD_SIZE, sign);
    }

    /** The body of send_blinded_sign's loop after a record was read: seek
        back over it and write its replacement in its place. The records
        before it were already replaced by `written`, starting at p0; what
        is left to read is unchanged. */
    static method OverwriteRecord(secure: Stream, out: seq<Byte>, ghost b0: seq<Byte>, ghost p0: nat, ghost written: seq<Byte>)
      requires secure.Valid() && !secure.failed && |out| == RECORD_SIZE
      requires p0 <= |b0| && secure.bytes == WriteAt(b0, p0, written)
      requires secure.pos == p0 + |written| + RECORD_SIZE
      modifies secure
      ensures secure.Valid() && !secure.failed && secure.pos == old(secure.pos)
      ensures secure.bytes == WriteAt(b0, p0, written + out)
      ensures |secure.bytes| == |old(secure.bytes)|
      ensures secure.Remaining() == old(secure.Remaining())
    {
      secure.Seek(secure.pos - RECORD_SIZE);
      secure.Write(out);
      WriteAtKeepsTail(old(secure.bytes), p0 + |written|, out);
      WriteAtTwice(b0, p0, written, out);
    }

    /** check_bulletin: reads the vote, then one signature record per
        character of the digest of the vote's decimal text, and rejects at
        the first record whose verification differs from its character. */
    static method CheckBulletin(mod: int, sharedKey: nat, anon: Stream, hash: Sha256Hex) returns (ok: bool)
      requires mod > 0 && anon.Valid()
      modifies anon
      ensures anon.Valid() && anon.bytes == old(anon.bytes)
      ensures ok == BulletinAccepted(old(anon.Remaining()), sharedKey, mod, hash)
      ensures var data := old(anon.Remaining());
              var digest := hash(DecimalBytes(BulletinVote(data)));
              (anon.pos, anon.failed) == AfterReads(old(anon.pos), old(anon.failed), |anon.bytes|,
                VOTE_SIZE + RECORD_SIZE * RecordsRead(Drop(data, VOTE_SIZE), sharedKey, mod, digest, 0))
    {
      ghost var data := anon.Remaining();
      var voteBytes, _ := anon.Read(VOTE_SIZE);
      var vote := DecodeUnsigned(voteBytes + Zeros(VOTE_SIZE - |voteBytes|));
      assert voteBytes + Zeros(VOTE_SIZE - |voteBytes|) == FieldAt(data, 0, VOTE_SIZE);
      var digest := hash(DecimalBytes(vote));
      ghost var p1, f1 := anon.pos, anon.failed;
      ok := CheckRecords(mod, sharedKey, anon, digest);
      AfterReadsTwice(old(anon.pos), old(anon.failed), |anon.bytes|, VOTE_SIZE,
                      RECORD_SIZE * RecordsRead(Drop(data, VOTE_SIZE), sharedKey, mod, digest, 0));
    }

    /** The loop of check_bulletin: one int32_t record per digest character,
        read into a zeroed variable, until one does not verify. */
    static method CheckRecords(mod: int, sharedKey: nat, anon: Stream, digest: seq<Byte>) returns (ok: bool)
      requires mod > 0 && anon.Valid()
      modifies anon
      ensures anon.Valid() && anon.bytes == old(anon.bytes)
      ensures ok == forall i :: 0 <= i < |digest| ==> RecordVerifies(old(anon.Remaining()), sharedKey, mod, digest, i)
      ensures (anon.pos, anon.failed) == AfterReads(old(anon.pos), old(anon.failed), |anon.bytes|,
                RECORD_SIZE * RecordsRead(old(anon.Remaining()), sharedKey, mod, digest, 0))
    {
      ghost var records := anon.Remaining();
      ghost var p0, f0 := anon.pos, anon.failed;
      var i := 0;
      while i < |digest|
        invariant 0 <= i <= |digest|
        invariant anon.Valid() && anon.bytes == old(anon.bytes)
        invariant forall j :: 0 <= j < i ==> RecordVerifies(records, sharedKey, mod, digest, j)
        invariant RecordsRead(records, sharedKey, mod, digest, 0) == RecordsRead(records, sharedKey, mod, digest, i)
        invariant anon.Remaining() == Drop(records, RECORD_SIZE * i)
        invariant (anon.pos, anon.failed) == AfterReads(p0, f0, |anon.bytes|, RECORD_SIZE * i)
      {
        var signed := ReadRecord(anon, records, i, p0, f0);
        var check := ComputePowMod(signed, sharedKey, mod);
        if digest[i] != check {
          assert !RecordVerifies(records, sharedKey, mod, digest, i);
          return false;
        }
        assert RecordVerifies(records, sharedKey, mod, digest, i);
        i := i + 1;
      }
      return true;
    }

    /** One read of check_bulletin's loop: an int32_t read into a zeroed
        variable, the i-th record after the start of `records`. */
    static method ReadRecord(anon: Stream, ghost records: seq<Byte>, ghost i: nat, ghost p0: nat, ghost f0: bool)
      returns (signed: int)
      requires anon.Valid() && p0 <= |anon.bytes|
      requires anon.Remaining() == Drop(records, RECORD_SIZE * i)
      requires (anon.pos, anon.failed) == AfterReads(p0, f0, |anon.bytes|, RECORD_SIZE * i)
      modifies anon
      ensures anon.Valid() && anon.bytes == old(anon.bytes)
      ensures signed == SignatureRecord(records, i)
      ensures anon.Remaining() == Drop(records, RECORD_SIZE * (i + 1))
      ensures (anon.pos, anon.failed) == AfterReads(p0, f0, |anon.bytes|, RECORD_SIZE * (i + 1))
    {
      var part, _ := anon.Read(RECORD_SIZE);
      ReadField(records, RECORD_SIZE * i, RECORD_SIZE, part);
      DropTwice(records, RECORD_SIZE * i, RECORD_SIZE);
      AfterReadsTwice(p0, f0, |anon.bytes|, RECORD_SIZE * i, RECORD_SIZE);
      signed := DecodeSigned(part + Zeros(RECORD_SIZE - |part|));
    }
  }


  // ---------------------------------------------------------------------
  // Correctness of the protocol

  /** Reducing a non-negative base modulo n before raising it changes
      nothing modulo n. */
  lemma PowModOfReduced(x: int, d: nat, n: int)
    requires n >= 2 && x >= 0 && d >= 1
    ensures PowMod(Mod(x, n), d, n) == Pow(x, d) % n
  {
    PowModNonNeg(Mod(x, n), d, n);
    PowNonNeg(x, d);
    TruncRemPow(x, d, n);
  }

  /** The power of a product, taken modulo n, is the product of the two
      powers taken modulo n. */
  lemma PowOfProductMod(h: int, f: int, d: nat, n: int)
    requires n >= 2
    ensures Pow(h * f, d) % n == ((Pow(h, d) % n) * (Pow(f, d) % n)) % n
  {
    PowOfProduct(h, f, d);
    MulMod(Pow(h, d), Pow(f, d), n);
  }

  /** Signing a character h blinded with r^e gives h^d * r: under d the
      factor r^e turns back into r. */
  lemma SignedBlinded(h: int, r: int, e: nat, d: nat, n: int)
    requires n >= 2 && ExponentsInvert(e, d, n)
    requires h >= 0 && 0 <= r < n
    ensures PowMod(Mod(h * PowMod(r, e, n), n), d, n) == ((Pow(h, d) % n) * r) % n
  {
    ExponentsPositive(e, d, n);
    var factor := PowMod(r, e, n);
    PowModNonNeg(r, e, n);
    PowModOfReduced(h * factor, d, n);
    PowOfProductMod(h, factor, d, n);
    PowModNonNeg(factor, d, n);
  }

  /** Unblinding with the inverse of r cancels r. */
  lemma Unblinded(a: int, r: int, inverse: int, n: int)
    requires n >= 2 && 0 <= a < n && (r * inverse) % n == 1
    ensures Mod(((a * r) % n) * inverse, n) == a
  {
    MulModLeft(a * r, inverse, n);
    assert (a * r) * inverse == a * (r * inverse);
    MulMod(a, r * inverse, n);
    DivModUnique(a, n, 0, a);
  }

  /** Blinding h with r^e, signing with d and unblinding with the inverse of
      r gives the plain signature h^d. */
  lemma UnblindedIsSignature(h: int, r: int, inverse: int, e: nat, d: nat, n: int)
    requires n >= 2 && ExponentsInvert(e, d, n)
    requires h >= 0 && 0 <= r < n && (r * inverse) % n == 1
    ensures Mod(PowMod(Mod(h * PowMod(r, e, n), n), d, n) * inverse, n) == PowMod(h, d, n)
  {
    ExponentsPositive(e, d, n);
    SignedBlinded(h, r, e, d, n);
    Unblinded(Pow(h, d) % n, r, inverse, n);
    PowModNonNeg(h, d, n);
  }

  /** The signature h^d of a character h below the modulus verifies back to
      h under e. */
  lemma SignatureVerifies(h: int, e: nat, d: nat, n: int)
    requires n >= 2 && ExponentsInvert(e, d, n) && 0 <= h < n
    ensures PowMod(PowMod(h, d, n), e, n) == h
  {
    PowModCommute(h, d, e, n);
  }

  /** An int32_t record holds every value of the signed 32-bit range. */
  lemma Int32RoundTrip(v: int)
    requires -0x8000_0000 <= v < 0x8000_0000
    ensures DecodeSigned(Int32Record(v)) == v
  {
    assert Pow256(RECORD_SIZE) == TWO_POW_32;
    WrapInRange(v, RECORD_SIZE);
    SignedRoundTrip(v, RECORD_SIZE);
  }

  /** The record send_bulletin posts for a digest character h, after the
      server signed the blinded record, holds h^d. The modulus must fit in
      an int32_t. */
  lemma RecordRoundTrip(h: Byte, r: int, inverse: int, e: nat, d: nat, n: int)
    requires 2 <= n <= 0x8000_0000 && ExponentsInvert(e, d, n)
    requires h < 128 && 0 <= r < n && (r * inverse) % n == 1
    ensures DecodeSigned(UnblindRecord(inverse, n)(SignRecord(d, n)(BlindWith(PowMod(r, e, n), n)([h]))))
         == PowMod(h, d, n)
  {
    ExponentsPositive(e, d, n);
    assert DecodeSigned([h]) == h;
    var blinded := Mod(h * PowMod(r, e, n), n);
    Int32RoundTrip(blinded);
    var signed := PowMod(blinded, d, n);
    PowModNonNeg(blinded, d, n);
    Int32RoundTrip(signed);
    var unblinded := Mod(signed * inverse, n);
    Int32RoundTrip(unblinded);
    UnblindedIsSignature(h, r, inverse, e, d, n);
  }

  /** Every record function of the protocol makes int32_t records. */
  lemma RecordFunctionsWidth(r: int, inverse: int, e: nat, d: nat, n: int)
    requires n > 0
    ensures forall x :: |BlindWith(PowMod(r, e, n), n)(x)| == RECORD_SIZE
    ensures forall x :: |SignRecord(d, n)(x)| == RECORD_SIZE
    ensures forall x :: |UnblindRecord(inverse, n)(x)| == RECORD_SIZE
  {
  }

  /** The channel after send_blinded_hash holds one whole record per
      digest character and nothing more. */
  lemma BlindedRecordsShape(digest: seq<Byte>, r: int, e: nat, n: int)
    requires n > 0
    ensures |BlindedRecords(digest, r, e, n)| == RECORD_SIZE * |digest|
    ensures Leftover(BlindedRecords(digest, r, e, n), RECORD_SIZE) == []
  {
    var blinded := BlindedRecords(digest, r, e, n);
    RecordFunctionsWidth(r, 0, e, 0, n);
    MapRecordsCount(digest, 1, BlindWith(PowMod(r, e, n), n), RECORD_SIZE);
    assert |blinded| == |digest| * RECORD_SIZE;
    MultipleMod(|digest|, RECORD_SIZE);
    MapRecordsAppend(blinded, [], RECORD_SIZE, SignRecord(0, n));
    assert blinded + [] == blinded;
  }

  /** Record i of what send_bulletin posts, after the server signed the
      blinded records, holds the signature of digest character i. */
  lemma ProtocolSignature(digest: seq<Byte>, r: int, inverse: int, e: nat, d: nat, n: int, i: nat)
    requires 2 <= n <= 0x8000_0000 && ExponentsInvert(e, d, n)
    requires 0 <= r < n && (r * inverse) % n == 1
    requires i < |digest| && digest[i] < 128
    ensures var posted := UnblindedRecords(SignedRecords(BlindedRecords(digest, r, e, n), d, n), inverse, n);
      RECORD_SIZE * (i + 1) <= |posted| && SignatureRecord(posted, i) == PowMod(digest[i], d, n)
  {
    var blind, sign, unblind := BlindWith(PowMod(r, e, n), n), SignRecord(d, n), UnblindRecord(inverse, n);
    RecordFunctionsWidth(r, inverse, e, d, n);
    var blinded := BlindedRecords(digest, r, e, n);
    var signed := SignedRecords(blinded, d, n);
    var posted := UnblindedRecords(signed, inverse, n);
    var lo, hi := RECORD_SIZE * i, RECORD_SIZE * (i + 1);
    MapRecordsAt(digest, 1, blind, RECORD_SIZE, i);
    assert digest[i..i + 1] == [digest[i]];
    var b := blinded[lo..hi];
    assert b == blind([digest[i]]);
    MapRecordsAt(blinded, RECORD_SIZE, sign, RECORD_SIZE, i);
    var s := signed[lo..hi];
    assert s == sign(b);
    MapRecordsAt(signed, RECORD_SIZE, unblind, RECORD_SIZE, i);
    assert posted[lo..hi] == unblind(s);
    FieldInside(posted, lo, RECORD_SIZE);
    assert SignatureRecord(posted, i) == DecodeSigned(unblind(s));
    RecordRoundTrip(digest[i], r, inverse, e, d, n);
  }

  /** The bulletin of an honest run: the vote followed by the unblinded
      signatures of the digest of the vote's decimal text. With RSA exponents
      and a modulus above every hexadecimal character that fits in an
      int32_t, check_bulletin accepts it. */
  lemma HonestBulletinAccepted(vote: nat, hash: Sha256Hex, r: int, inverse: int, e: nat, d: nat, n: int)
    requires 'f' as int < n <= 0x8000_0000 && ExponentsInvert(e, d, n)
    requires 0 <= r < n && (r * inverse) % n == 1 && vote <= UINT64_MAX
    ensures var digest := hash(DecimalBytes(vote));
      BulletinAccepted(EncodeUnsigned(vote, VOTE_SIZE)
        + UnblindedRecords(SignedRecords(BlindedRecords(digest, r, e, n), d, n), inverse, n), e, n, hash)
  {
    var digest := hash(DecimalBytes(vote));
    var posted := UnblindedRecords(SignedRecords(BlindedRecords(digest, r, e, n), d, n), inverse, n);
    var data := EncodeUnsigned(vote, VOTE_SIZE) + posted;
    assert Pow256(VOTE_SIZE) == UINT64_MAX + 1;
    UnsignedRoundTrip(vote, VOTE_SIZE);
    FieldInside(data, 0, VOTE_SIZE);
    assert data[0..VOTE_SIZE] == EncodeUnsigned(vote, VOTE_SIZE);
    assert Drop(data, VOTE_SIZE) == posted;
    forall i | 0 <= i < |digest|
      ensures RecordVerifies(posted, e, n, digest, i)
    {
      ProtocolSignature(digest, r, inverse, e, d, n, i);
      SignatureVerifies(digest[i], e, d, n);
    }
  }

  /** The vote keeps the answer in its low 32 bits, the excess above them,
      and fits in 64 bits. */
  lemma VoteCarriesAnswer(excess: nat, answer: Byte)
    requires excess <= UINT32_MAX
    ensures PackVote(excess, answer) % TWO_POW_32 == answer
    ensures PackVote(excess, answer) / TWO_POW_32 == excess
    ensures PackVote(excess, answer) <= UINT64_MAX
  {
    DivModUnique(PackVote(excess, answer), TWO_POW_32, excess, answer);
  }
}
