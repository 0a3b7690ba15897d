/** Authenticated threshold sharing: an integrity tag inside the payload, a commitment to every
    share, and one encrypted blob per custodian. */
module Multisig {
  import opened Common
  import opened Bytes
  import opened Gf256
  import opened GfField
  import S = Sharing
  import opened Shamir

  type Blob = seq<Byte>

  /** The cryptographic library: SHA-512, and symmetric encryption with an explicit nonce. */
  datatype Crypto = Crypto(
    sha512: seq<Byte> -> seq<Byte>,
    encrypt: (seq<Byte>, seq<Byte>, seq<Byte>) -> Option<Blob>,  // key, nonce, plaintext
    decrypt: (seq<Byte>, Blob) -> Option<seq<Byte>>)             // key, ciphertext

  ghost predicate Lawful(c: Crypto) {
    && (forall x :: |c.sha512(x)| == 64)
    && (forall k, n, p :: c.encrypt(k, n, p).Some? ==> c.decrypt(k, c.encrypt(k, n, p).value) == Some(p))
  }

  datatype Error = KeyCountMismatch | BlobCreation(i: nat) | LengthMismatch | BlobOpening(i: nat)
                 | CommitmentRange(index: Byte) | CommitmentFailed(index: Byte)
                 | Sharing(e: S.Error) | PayloadTooShort | IntegrityFailed

  datatype SplitResult = SplitResult(blobs: seq<Blob>, commitments: seq<seq<Byte>>, threshold: nat, total: nat)

  // ----- tags, commitments, blobs

  const SECRET_TAG_LEN := 32
  const SECRET_TAG_DOMAIN := "simple-secrets/multisig/secret-tag/v1"

  function Ascii(s: string): seq<Byte> {
    seq(|s|, i requires 0 <= i < |s| => if s[i] as int < 256 then FromNat(s[i] as int) else ZERO)
  }

  function LittleEndian(n: nat, width: nat): seq<Byte> {
    if width == 0 then [] else [FromNat(n % 256)] + LittleEndian(n / 256, width - 1)
  }

  function SecretTag(c: Crypto, secret: seq<Byte>): seq<Byte> {
    TagFor(c, LittleEndian(|secret|, 8), secret)
  }

  function TagFor(c: Crypto, length: seq<Byte>, secret: seq<Byte>): seq<Byte> {
    var digest := c.sha512(Ascii(SECRET_TAG_DOMAIN) + length + secret);
    if |digest| < SECRET_TAG_LEN then digest else digest[..SECRET_TAG_LEN]
  }

  function Commit(c: Crypto, share: ByteShare): seq<Byte> {
    c.sha512([share.index] + share.data)
  }

  function CommitAll(c: Crypto, shares: seq<ByteShare>): (r: seq<seq<Byte>>)
    ensures |r| == |shares|
  {
    seq(|shares|, i requires 0 <= i < |shares| => Commit(c, shares[i]))
  }

  function CreateBlob(c: Crypto, share: ByteShare, key: seq<Byte>, nonce: seq<Byte>): Option<Blob> {
    c.encrypt(key, nonce, [share.index] + share.data)
  }

  function OpenBlob(c: Crypto, blob: Blob, key: seq<Byte>): Option<ByteShare> {
    match c.decrypt(key, blob)
    case None => None
    case Some(plain) => if plain == [] then None else Some(S.Share(plain[0], plain[1..]))
  }

  lemma OpenCreated(c: Crypto, share: ByteShare, key: seq<Byte>, nonce: seq<Byte>)
    requires Lawful(c) && CreateBlob(c, share, key, nonce).Some?
    ensures OpenBlob(c, CreateBlob(c, share, key, nonce).value, key) == Some(share)
  {
    assert ([share.index] + share.data)[1..] == share.data;
  }

  // ----- splitting

  function CreateBlobs(c: Crypto, shares: seq<ByteShare>, keys: seq<seq<Byte>>, nonce: nat -> seq<Byte>, i: nat): (r: Result<seq<Blob>, Error>)
    requires i <= |shares| == |keys|
    ensures r.Ok? ==> |r.value| == |shares| - i
    decreases |shares| - i
  {
    if i == |shares| then Ok([])
    else
      match CreateBlob(c, shares[i], keys[i], nonce(i))
      case None => Err(BlobCreation(i))
      case Some(blob) =>
        match CreateBlobs(c, shares, keys, nonce, i + 1)
        case Err(e) => Err(e)
        case Ok(rest) => Ok([blob] + rest)
  }

  function SecretSplit(c: Crypto, secret: seq<Byte>, m: nat, n: nat, keys: seq<seq<Byte>>,
                       coins: S.Coins<Byte>, nonce: nat -> seq<Byte>): Result<SplitResult, Error> {
    if |keys| != n then Err(KeyCountMismatch)
    else
      match S.Dealt(SCHEME_256, secret + SecretTag(c, secret), m, n, coins)
      case Err(e) => Err(Sharing(e))
      case Ok(shares) =>
        match CreateBlobs(c, shares, keys, nonce, 0)
        case Err(e) => Err(e)
        case Ok(blobs) => Ok(SplitResult(blobs, CommitAll(c, shares), m, n))
  }

  method SplitSecret(c: Crypto, secret: seq<Byte>, m: nat, n: nat, keys: seq<seq<Byte>>,
                     coins: S.Coins<Byte>, nonce: nat -> seq<Byte>) returns (r: Result<SplitResult, Error>)
    ensures r == SecretSplit(c, secret, m, n, keys, coins, nonce)
  {
    if |keys| != n {
      return Err(KeyCountMismatch);
    }
    var payload := secret + SecretTag(c, secret);
    var dealt := Split(payload, m, n, coins);
    if dealt.Err? {
      return Err(Sharing(dealt.error));
    }
    var shares := dealt.value;
    var commitments := CommitAll(c, shares);
    var blobs := EncryptShares(c, shares, keys, nonce);
    if blobs.Err? {
      return Err(blobs.error);
    }
    r := Ok(SplitResult(blobs.value, commitments, m, n));
  }

  method EncryptShares(c: Crypto, shares: seq<ByteShare>, keys: seq<seq<Byte>>, nonce: nat -> seq<Byte>)
    returns (r: Result<seq<Blob>, Error>)
    requires |shares| == |keys|
    ensures r == CreateBlobs(c, shares, keys, nonce, 0)
  {
    var blobs: seq<Blob> := [];
    PrependNothing(CreateBlobs(c, shares, keys, nonce, 0));
    for i := 0 to |shares|
      invariant CreateBlobs(c, shares, keys, nonce, 0) == Prepend(blobs, CreateBlobs(c, shares, keys, nonce, i))
    {
      var blob := CreateBlob(c, shares[i], keys[i], nonce(i));
      if blob.None? {
        return Err(BlobCreation(i));
      }
      PrependOne(blobs, blob.value, CreateBlobs(c, shares, keys, nonce, i + 1));
      blobs := blobs + [blob.value];
    }
    assert blobs + [] == blobs;
    r := Ok(blobs);
  }

  function Prepend<A>(front: seq<A>, r: Result<seq<A>, Error>): Result<seq<A>, Error> {
    if r.Ok? then Ok(front + r.value) else r
  }

  lemma PrependNothing<A>(r: Result<seq<A>, Error>)
    ensures Prepend([], r) == r
  {
    if r.Ok? {
      assert [] + r.value == r.value;
    }
  }

  lemma PrependOne<A>(front: seq<A>, a: A, r: Result<seq<A>, Error>)
    ensures Prepend(front, Prepend([a], r)) == Prepend(front + [a], r)
  {
    if r.Ok? {
      assert front + ([a] + r.value) == front + [a] + r.value;
    }
  }

  // ----- reconstructing

  function OpenBlobs(c: Crypto, blobs: seq<Blob>, keys: seq<seq<Byte>>, i: nat): (r: Result<seq<ByteShare>, Error>)
    requires i <= |blobs| == |keys|
    ensures r.Ok? ==> |r.value| == |blobs| - i
    decreases |blobs| - i
  {
    if i == |blobs| then Ok([])
    else
      match OpenBlob(c, blobs[i], keys[i])
      case None => Err(BlobOpening(i))
      case Some(share) =>
        match OpenBlobs(c, blobs, keys, i + 1)
        case Err(e) => Err(e)
        case Ok(rest) => Ok([share] + rest)
  }

  /** Where the commitment of a share is looked up: one below its index, and 0 for index 0. */
  function CommitmentSlot(share: ByteShare): nat {
    var i := ToNat(share.index);
    if i == 0 then 0 else i - 1
  }

  function CheckShare(c: Crypto, share: ByteShare, commitments: seq<seq<Byte>>): Option<Error> {
    if CommitmentSlot(share) >= |commitments| then Some(CommitmentRange(share.index))
    else if Commit(c, share) != commitments[CommitmentSlot(share)] then Some(CommitmentFailed(share.index))
    else None
  }

  /** The first failing commitment check, if any. */
  function CheckShares(c: Crypto, shares: seq<ByteShare>, commitments: seq<seq<Byte>>): Option<Error> {
    if shares == [] then None
    else if CheckShare(c, shares[0], commitments).Some? then CheckShare(c, shares[0], commitments)
    else CheckShares(c, shares[1..], commitments)
  }

  function CheckTag(c: Crypto, payload: seq<Byte>): Result<seq<Byte>, Error> {
    if |payload| < SECRET_TAG_LEN then Err(PayloadTooShort)
    else
      var at := |payload| - SECRET_TAG_LEN;
      if payload[at..] == SecretTag(c, payload[..at]) then Ok(payload[..at]) else Err(IntegrityFailed)
  }

  ghost function SecretReconstructed(c: Crypto, blobs: seq<Blob>, keys: seq<seq<Byte>>, commitments: seq<seq<Byte>>): Result<seq<Byte>, Error> {
    if |blobs| != |keys| then Err(LengthMismatch)
    else
      match OpenBlobs(c, blobs, keys, 0)
      case Err(e) => Err(e)
      case Ok(shares) =>
        match CheckShares(c, shares, commitments)
        case Some(e) => Err(e)
        case None =>
          match S.Reconstructed(GF, shares)
          case Err(e) => Err(Sharing(e))
          case Ok(payload) => CheckTag(c, payload)
  }

  method ReconstructSecret(c: Crypto, blobs: seq<Blob>, keys: seq<seq<Byte>>, commitments: seq<seq<Byte>>)
    returns (r: Result<seq<Byte>, Error>)
    ensures r == SecretReconstructed(c, blobs, keys, commitments)
  {
    if |blobs| != |keys| {
      return Err(LengthMismatch);
    }
    var shares: seq<ByteShare> := [];
    PrependNothing(OpenBlobs(c, blobs, keys, 0));
    for i := 0 to |blobs|
      invariant OpenBlobs(c, blobs, keys, 0) == Prepend(shares, OpenBlobs(c, blobs, keys, i))
    {
      var share := OpenBlob(c, blobs[i], keys[i]);
      if share.None? {
        return Err(BlobOpening(i));
      }
      PrependOne(shares, share.value, OpenBlobs(c, blobs, keys, i + 1));
      shares := shares + [share.value];
    }
    assert shares + [] == shares;
    for i := 0 to |shares|
      invariant CheckShares(c, shares, commitments) == CheckShares(c, shares[i..], commitments)
    {
      assert shares[i..][1..] == shares[i + 1..];
      var slot := CommitmentSlot(shares[i]);
      if slot >= |commitments| {
        return Err(CommitmentRange(shares[i].index));
      }
      if Commit(c, shares[i]) != commitments[slot] {
        return Err(CommitmentFailed(shares[i].index));
      }
    }
    var payload := Reconstruct(shares);
    if payload.Err? {
      return Err(Sharing(payload.error));
    }
    if |payload.value| < SECRET_TAG_LEN {
      return Err(PayloadTooShort);
    }
    var splitAt := |payload.value| - SECRET_TAG_LEN;
    var expected := SecretTag(c, payload.value[..splitAt]);
    if payload.value[splitAt..] != expected {
      return Err(IntegrityFailed);
    }
    r := Ok(payload.value[..splitAt]);
  }
}
