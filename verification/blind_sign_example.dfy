/** The anonymous voting example: one elector votes through a fresh server
    with RSA parameters from rsa_gen_sys, over a secure channel that
    identifies it and an anonymous one that does not. */
module BlindSignExample {
  import opened Wrappers
  import opened NumberTheory
  import opened Bytes
  import opened Streams
  import opened Records
  import opened Digests
  import opened GenParams
  import opened BlindSign

  /** gen_blind_factor's rejection loop has an accepted draw for mod. */
  predicate BlindFactorAvailable(mod: int, draws: seq<nat>) {
    mod >= 3 && exists i :: 0 <= i < |draws| && BlindFactorAccepted(mod, draws[i])
  }

  /** anon_voting_call_example: registration, blinding, signing, unblinding
      and verification, in that order, with a rewind of the channel before
      each reading phase. The random draws of the parameters, of the vote's
      excess data and of the blinding factor are supplied; canOpenSecure and
      canOpenAnon say whether the two channel files could be opened, and an
      unopenable one aborts the run with ResourceError before any later
      phase. A run whose rejection loops exhaust their draws fails with
      KeyGenerationExhausted. Every run that gets through returns the
      server's verdict, and that verdict is acceptance: the unblinded
      signatures of an honest elector always verify. */
  method AnonVotingCallExample(answer: Byte, excessDraw: nat, paramDraws: seq<nat>, blindDraws: seq<nat>,
                               canOpenSecure: bool, canOpenAnon: bool, hash: Sha256Hex)
    returns (r: Result<bool, Error>)
    ensures r.Failure? ==> r.error == ResourceError || r.error == KeyGenerationExhausted
    ensures r.Failure? && r.error == ResourceError ==> !canOpenSecure || !canOpenAnon
    ensures !canOpenSecure || !canOpenAnon ==> r.Failure?
    ensures r.Success? ==> r.value
    ensures RsaPrimes(paramDraws, 0).None? ==> r == Failure(KeyGenerationExhausted)
    ensures r.Failure? && r.error == KeyGenerationExhausted ==>
      RsaPrimes(paramDraws, 0).None?
      || !BlindFactorAvailable(RsaPrimes(paramDraws, 0).value.0 * RsaPrimes(paramDraws, 0).value.1, blindDraws)
    ensures canOpenSecure && RsaPrimes(paramDraws, 0).Some?
      && !BlindFactorAvailable(RsaPrimes(paramDraws, 0).value.0 * RsaPrimes(paramDraws, 0).value.1, blindDraws)
      ==> r == Failure(KeyGenerationExhausted)
  {
    var params, p, q := RsaGenSys(paramDraws);
    if params.Failure? {
      return Failure(params.error);
    }
    RsaKeysInvert(params.value, p, q);
    r := Vote(answer, excessDraw, params.value.mod, params.value.recv.sharedKey, params.value.recv.privateKey,
              blindDraws, canOpenSecure, canOpenAnon, hash);
  }

  /** The run once the RSA parameters are known: registration on a fresh
      server, the check that a blinding factor can be drawn, and the session. */
  method Vote(answer: Byte, excessDraw: nat, mod: int, sharedKey: nat, privateKey: nat, blindDraws: seq<nat>,
              canOpenSecure: bool, canOpenAnon: bool, hash: Sha256Hex)
    returns (r: Result<bool, Error>)
    requires 'f' as int < mod <= 0x8000_0000 && ExponentsInvert(sharedKey, privateKey, mod)
    ensures r.Failure? ==> r.error == ResourceError || r.error == KeyGenerationExhausted
    ensures r.Failure? && r.error == ResourceError ==> !canOpenSecure || !canOpenAnon
    ensures !canOpenSecure || !canOpenAnon ==> r.Failure?
    ensures r.Success? ==> r.value
    ensures r.Failure? && r.error == KeyGenerationExhausted ==> !BlindFactorAvailable(mod, blindDraws)
    ensures canOpenSecure && !BlindFactorAvailable(mod, blindDraws) ==> r == Failure(KeyGenerationExhausted)
  {
    var server := new Server();
    var alice := new Elector(answer, excessDraw);
    var connection := server.AcceptConnection(alice, canOpenSecure);
    // a fresh server has registered nobody, so the connection is accepted
    assert connection.Success?;
    var secureChannel := connection.value;
    if !secureChannel.isOpen {
      return Failure(ResourceError);
    }

    // gen_blind_factor's rejection loop needs an accepted draw
    if !exists i :: 0 <= i < |blindDraws| && BlindFactorAccepted(mod, blindDraws[i]) {
      return Failure(KeyGenerationExhausted);
    }
    r := Session(alice, mod, sharedKey, privateKey, secureChannel, blindDraws, canOpenAnon, hash);
  }

  /** Both channels' phases for a registered elector: signing on the secure
      channel, then the bulletin on the anonymous one. */
  method Session(alice: Elector, mod: int, sharedKey: nat, privateKey: nat, secure: Stream, blindDraws: seq<nat>,
                 canOpenAnon: bool, hash: Sha256Hex)
    returns (r: Result<bool, Error>)
    requires 'f' as int < mod <= 0x8000_0000 && ExponentsInvert(sharedKey, privateKey, mod)
    requires alice.vote <= UINT64_MAX
    requires secure.Valid() && secure.isOpen && !secure.failed && secure.bytes == []
    requires exists i :: 0 <= i < |blindDraws| && BlindFactorAccepted(mod, blindDraws[i])
    modifies alice, secure
    ensures r.Failure? ==> r.error == ResourceError && !canOpenAnon
    ensures !canOpenAnon ==> r.Failure?
    ensures r.Success? ==> r.value
  {
    SignBlindedHash(alice, mod, sharedKey, privateKey, secure, hash, blindDraws);
    ghost var signed := secure.bytes;

    var anonChannel := new Stream("result.txt", canOpenAnon);
    if !anonChannel.isOpen {
      return Failure(ResourceError);
    }
    var verdict := PostAndCheck(alice, mod, sharedKey, secure, anonChannel, hash);
    assert verdict == BulletinAccepted(EncodeUnsigned(alice.vote, VOTE_SIZE)
      + UnblindedRecords(signed, alice.inverseBlindFactor, mod), sharedKey, mod, hash);
    assert alice.BlindingDrawn(mod, blindDraws);
    HonestBulletinAccepted(alice.vote, hash, alice.blindFactor, alice.inverseBlindFactor, sharedKey, privateKey, mod);
    return Success(verdict);
  }

  /** The phases on the secure channel: the elector writes its blinded
      digest, the channel is rewound, the server signs it in place, and the
      channel is cleared and rewound for reading the signatures. */
  method SignBlindedHash(alice: Elector, mod: int, sharedKey: nat, privateKey: nat, secure: Stream,
                         hash: Sha256Hex, blindDraws: seq<nat>)
    requires mod >= 3 && secure.Valid() && secure.isOpen && !secure.failed && secure.bytes == []
    requires exists i :: 0 <= i < |blindDraws| && BlindFactorAccepted(mod, blindDraws[i])
    modifies alice, secure
    ensures alice.BlindingDrawn(mod, blindDraws)
    ensures secure.Valid() && !secure.failed && secure.pos == 0
    ensures secure.bytes
         == SignedRecords(BlindedRecords(hash(DecimalBytes(alice.vote)), alice.blindFactor, sharedKey, mod), privateKey, mod)
  {
    BlindAndRewind(alice, mod, sharedKey, secure, hash, blindDraws);
    BlindedRecordsShape(hash(DecimalBytes(alice.vote)), alice.blindFactor, sharedKey, mod);
    SignAndRewind(mod, privateKey, secure);
  }

  /** send_blinded_hash on an empty channel, then the rewind before the
      server reads it. */
  method BlindAndRewind(alice: Elector, mod: int, sharedKey: nat, secure: Stream, hash: Sha256Hex, blindDraws: seq<nat>)
    requires mod >= 3 && secure.Valid() && !secure.failed && secure.bytes == []
    requires exists i :: 0 <= i < |blindDraws| && BlindFactorAccepted(mod, blindDraws[i])
    modifies alice, secure
    ensures alice.BlindingDrawn(mod, blindDraws)
    ensures secure.Valid() && !secure.failed && secure.pos == 0
    ensures secure.bytes == BlindedRecords(hash(DecimalBytes(alice.vote)), alice.blindFactor, sharedKey, mod)
  {
    ghost var b0, p0, f0 := secure.bytes, secure.pos, secure.failed;
    alice.SendBlindedHash(mod, sharedKey, secure, hash, blindDraws);
    ghost var blinded := BlindedRecords(hash(DecimalBytes(alice.vote)), alice.blindFactor, sharedKey, mod);
    assert (secure.bytes, secure.pos) == AfterWrite(b0, p0, f0, blinded);
    WriteToEmpty(blinded);
    assert secure.bytes == blinded && !secure.failed;
    secure.Seek(0);
  }

  /** send_blinded_sign over a channel of whole records read from its start,
      then the clear and rewind before the elector reads the signatures. */
  method SignAndRewind(mod: int, privateKey: nat, secure: Stream)
    requires mod > 0 && secure.Valid() && secure.isOpen && !secure.failed && secure.pos == 0
    requires Leftover(secure.bytes, RECORD_SIZE) == []
    modifies secure
    ensures secure.Valid() && !secure.failed && secure.pos == 0
    ensures secure.bytes == SignedRecords(old(secure.bytes), privateKey, mod)
  {
    ghost var blinded := secure.bytes;
    assert secure.Remaining() == blinded[0..] == blinded;
    Server.SendBlindedSign(mod, privateKey, secure);
    ghost var signed := SignedRecords(blinded, privateKey, mod);
    assert secure.bytes == blinded[..0] + signed + Leftover(blinded, RECORD_SIZE);
    assert blinded[..0] == [] && [] + signed + [] == signed;
    secure.Clear();
    secure.Seek(0);
  }

  /** The phases on the anonymous channel: the elector posts its bulletin,
      the channel is rewound, and the server checks it. */
  method PostAndCheck(alice: Elector, mod: int, sharedKey: nat, secure: Stream, anon: Stream, hash: Sha256Hex)
    returns (verdict: bool)
    requires mod > 0 && secure.Valid() && !secure.failed && secure.pos == 0
    requires anon.Valid() && anon.isOpen && !anon.failed && anon.bytes == [] && secure != anon
    modifies secure, anon
    ensures verdict == BulletinAccepted(EncodeUnsigned(alice.vote, VOTE_SIZE)
      + UnblindedRecords(old(secure.bytes), alice.inverseBlindFactor, mod), sharedKey, mod, hash)
  {
    ghost var bulletin := EncodeUnsigned(alice.vote, VOTE_SIZE) + UnblindedRecords(secure.bytes, alice.inverseBlindFactor, mod);
    assert secure.Remaining() == secure.bytes;
    ghost var a0, p0, f0 := anon.bytes, anon.pos, anon.failed;
    alice.SendBulletin(mod, secure, anon);
    assert (anon.bytes, anon.pos) == AfterWrite(a0, p0, f0, bulletin);
    WriteToEmpty(bulletin);
    assert anon.bytes == bulletin;
    anon.Seek(0);
    assert !anon.failed && anon.bytes == bulletin;
    assert anon.Remaining() == bulletin[0..];
    assert bulletin[0..] == bulletin;
    ghost var data := anon.Remaining();
    assert data == bulletin;
    verdict := Server.CheckBulletin(mod, sharedKey, anon, hash);
    assert verdict == BulletinAccepted(data, sharedKey, mod, hash);
  }
}
