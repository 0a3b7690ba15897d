/** Soundness and completeness of authenticated reconstruction. */
module MultisigTheorems {
  import opened Common
  import opened Bytes
  import opened GfField
  import S = Sharing
  import opened Shamir
  import opened SharingTheorems
  import opened Multisig

  /** The payload that a split shares. */
  function Payload(c: Crypto, secret: seq<Byte>): seq<Byte> {
    secret + SecretTag(c, secret)
  }

  lemma TagLength(c: Crypto, secret: seq<Byte>)
    requires Lawful(c)
    ensures |SecretTag(c, secret)| == SECRET_TAG_LEN
  {
    assert |c.sha512(Ascii(SECRET_TAG_DOMAIN) + LittleEndian(|secret|, 8) + secret)| == 64;
  }

  /** The tag check accepts exactly the payloads made of a secret and its tag. */
  lemma TagAccepts(c: Crypto, payload: seq<Byte>, secret: seq<Byte>)
    requires Lawful(c)
    ensures CheckTag(c, payload) == Ok(secret) <==> payload == Payload(c, secret)
  {
    TagLength(c, secret);
    if payload == Payload(c, secret) {
      var at := |payload| - SECRET_TAG_LEN;
      assert payload[..at] == secret && payload[at..] == SecretTag(c, secret);
    }
    if CheckTag(c, payload) == Ok(secret) {
      var at := |payload| - SECRET_TAG_LEN;
      assert payload == payload[..at] + payload[at..];
    }
  }

  // ----- opening and checking

  lemma {:induction false} OpenBlobsAt(c: Crypto, blobs: seq<Blob>, keys: seq<seq<Byte>>, i: nat, shares: seq<ByteShare>)
    requires i <= |blobs| == |keys|
    ensures OpenBlobs(c, blobs, keys, i) == Ok(shares) <==>
      |shares| == |blobs| - i && forall k :: i <= k < |blobs| ==> OpenBlob(c, blobs[k], keys[k]) == Some(shares[k - i])
    decreases |blobs| - i
  {
    if i < |blobs| {
      var r := OpenBlobs(c, blobs, keys, i);
      if r == Ok(shares) {
        OpenBlobsAt(c, blobs, keys, i + 1, shares[1..]);
        assert shares == [shares[0]] + shares[1..];
        assert OpenBlob(c, blobs[i], keys[i]) == Some(shares[0]);
      }
      if |shares| == |blobs| - i && forall k :: i <= k < |blobs| ==> OpenBlob(c, blobs[k], keys[k]) == Some(shares[k - i]) {
        assert OpenBlob(c, blobs[i], keys[i]) == Some(shares[0]);
        OpenBlobsAt(c, blobs, keys, i + 1, shares[1..]);
        assert shares == [shares[0]] + shares[1..];
      }
    }
  }

  lemma {:induction false} CheckSharesAt(c: Crypto, shares: seq<ByteShare>, commitments: seq<seq<Byte>>)
    ensures CheckShares(c, shares, commitments).None? <==>
      forall i :: 0 <= i < |shares| ==> CheckShare(c, shares[i], commitments).None?
  {
    if shares != [] {
      CheckSharesAt(c, shares[1..], commitments);
      assert forall i :: 1 <= i < |shares| ==> shares[i] == shares[1..][i - 1];
    }
  }

  /** A commitment covers the index and every byte of the data: a share is refused exactly when there is
      no dealt share in its slot or the hash of its index and data differs from that share's. */
  lemma CommitmentDecides(c: Crypto, share: ByteShare, dealt: seq<ByteShare>)
    ensures var slot := if ToNat(share.index) == 0 then 0 else ToNat(share.index) - 1;
      CheckShare(c, share, CommitAll(c, dealt)) ==
        if slot >= |dealt| then Some(CommitmentRange(share.index))
        else if SameHash(c, share, dealt[slot]) then None else Some(CommitmentFailed(share.index))
  {
  }

  lemma {:induction false} FirstRefusal(c: Crypto, shares: seq<ByteShare>, commitments: seq<seq<Byte>>, i: nat)
    requires i < |shares| && CheckShare(c, shares[i], commitments).Some?
    requires forall k :: 0 <= k < i ==> CheckShare(c, shares[k], commitments).None?
    ensures CheckShares(c, shares, commitments) == CheckShare(c, shares[i], commitments)
  {
    if i > 0 {
      assert CheckShare(c, shares[0], commitments).None?;
      assert forall k :: 0 <= k < i - 1 ==> shares[1..][k] == shares[k + 1];
      FirstRefusal(c, shares[1..], commitments, i - 1);
    }
  }

  /** Reconstruction names the first share whose hash is not that of the dealt share in its slot. */
  lemma AlteredShareRefused(c: Crypto, blobs: seq<Blob>, keys: seq<seq<Byte>>, dealt: seq<ByteShare>, i: nat)
    requires |blobs| == |keys| && OpenBlobs(c, blobs, keys, 0).Ok? && i < |blobs|
    requires var shares := OpenBlobs(c, blobs, keys, 0).value;
      && (forall k :: 0 <= k <= i ==> 1 <= ToNat(shares[k].index) <= |dealt|)
      && (forall k :: 0 <= k < i ==> SameHash(c, shares[k], dealt[ToNat(shares[k].index) - 1]))
      && !SameHash(c, shares[i], dealt[ToNat(shares[i].index) - 1])
    ensures SecretReconstructed(c, blobs, keys, CommitAll(c, dealt))
         == Err(CommitmentFailed(OpenBlobs(c, blobs, keys, 0).value[i].index))
  {
    var shares := OpenBlobs(c, blobs, keys, 0).value;
    forall k | 0 <= k <= i
      ensures CheckShare(c, shares[k], CommitAll(c, dealt)) == if k < i then None else Some(CommitmentFailed(shares[i].index))
    {
      CommitmentDecides(c, shares[k], dealt);
    }
    FirstRefusal(c, shares, CommitAll(c, dealt), i);
  }

  function FromLittleEndian(s: seq<Byte>): nat {
    if s == [] then 0 else ToNat(s[0]) + 256 * FromLittleEndian(s[1..])
  }

  function Pow256(k: nat): nat {
    if k == 0 then 1 else 256 * Pow256(k - 1)
  }

  lemma {:induction false} LittleEndianReads(n: nat, width: nat)
    requires n < Pow256(width)
    ensures |LittleEndian(n, width)| == width && FromLittleEndian(LittleEndian(n, width)) == n
    decreases width
  {
    if width > 0 {
      LittleEndianReads(n / 256, width - 1);
      ToNatFromNat(n % 256);
      assert LittleEndian(n, width)[1..] == LittleEndian(n / 256, width - 1);
    }
  }

  lemma AsciiReads(s: string)
    requires forall i :: 0 <= i < |s| ==> s[i] as int < 128
    ensures |Ascii(s)| == |s| && forall i :: 0 <= i < |s| ==> ToNat(Ascii(s)[i]) == s[i] as int
  {
    forall i | 0 <= i < |s|
      ensures ToNat(Ascii(s)[i]) == s[i] as int
    {
      ToNatFromNat(s[i] as int);
    }
  }

  lemma U64Width()
    ensures Pow256(8) == 0x1_0000_0000_0000_0000
  {
    assert Pow256(4) == 0x1_0000_0000;
    assert Pow256(6) == 0x1_0000 * Pow256(4);
  }

  lemma WrittenLength(n: nat, width: nat, length: seq<Byte>)
    requires n < Pow256(width) && |length| == width && FromLittleEndian(length) == n
    ensures length == LittleEndian(n, width)
  {
    LittleEndianReads(n, width);
    LittleEndianUnique(length, LittleEndian(n, width));
  }

  lemma EightBytes(n: nat, length: seq<Byte>)
    requires n < 0x1_0000_0000_0000_0000 && |length| == 8 && FromLittleEndian(length) == n
    ensures length == LittleEndian(n, 8)
  {
    U64Width();
    WrittenLength(n, 8, length);
  }

  /** The first half of the hash of the domain string, eight bytes and a secret. */
  function HalfHash(c: Crypto, length: seq<Byte>, secret: seq<Byte>): seq<Byte>
    requires Lawful(c)
  {
    assert |c.sha512(Ascii(SECRET_TAG_DOMAIN) + length + secret)| == 64;
    c.sha512(Ascii(SECRET_TAG_DOMAIN) + length + secret)[..32]
  }

  lemma TagForIsHalfHash(c: Crypto, length: seq<Byte>, secret: seq<Byte>)
    requires Lawful(c)
    ensures TagFor(c, length, secret) == HalfHash(c, length, secret)
  {
  }

  /** The tag is the half hash of the length, with its lowest byte first, and the secret itself. */
  lemma TagIsHalfHash(c: Crypto, length: seq<Byte>, secret: seq<Byte>)
    requires Lawful(c) && |secret| < 0x1_0000_0000_0000_0000
    requires |length| == 8 && FromLittleEndian(length) == |secret|
    ensures SecretTag(c, secret) == HalfHash(c, length, secret)
  {
    EightBytes(|secret|, length);
    TagForIsHalfHash(c, length, secret);
  }

  lemma TagDecides(c: Crypto, secret: seq<Byte>, tag: seq<Byte>)
    requires |tag| == 32
    ensures CheckTag(c, secret + tag) == if tag == SecretTag(c, secret) then Ok(secret) else Err(IntegrityFailed)
  {
    var payload := secret + tag;
    assert payload[..|secret|] == secret && payload[|secret|..] == tag;
  }

  /** A secret that was altered under the tag of the dealt one is refused, unless the half hashes of
      the two are the same. */
  lemma AlteredSecretRefused(c: Crypto, secret: seq<Byte>, altered: seq<Byte>, length: seq<Byte>, other: seq<Byte>)
    requires Lawful(c) && |secret| < 0x1_0000_0000_0000_0000 && |altered| < 0x1_0000_0000_0000_0000
    requires |length| == 8 && FromLittleEndian(length) == |secret|
    requires |other| == 8 && FromLittleEndian(other) == |altered|
    ensures CheckTag(c, altered + SecretTag(c, secret)) ==
      if HalfHash(c, length, secret) == HalfHash(c, other, altered) then Ok(altered) else Err(IntegrityFailed)
  {
    TagIsHalfHash(c, length, secret);
    TagIsHalfHash(c, other, altered);
    TagLength(c, secret);
    TagDecides(c, altered, SecretTag(c, secret));
  }

  lemma ToNatInjective(a: Byte, b: Byte)
    requires ToNat(a) == ToNat(b)
    ensures a == b
  {
  }

  lemma LowestByte(a: nat, x: nat, b: nat, y: nat)
    requires a < 256 && b < 256 && a + 256 * x == b + 256 * y
    ensures a == b && x == y
  {
  }

  lemma {:induction false} LittleEndianUnique(s: seq<Byte>, t: seq<Byte>)
    requires |s| == |t| && FromLittleEndian(s) == FromLittleEndian(t)
    ensures s == t
  {
    if s != [] {
      LowestByte(ToNat(s[0]), FromLittleEndian(s[1..]), ToNat(t[0]), FromLittleEndian(t[1..]));
      ToNatInjective(s[0], t[0]);
      LittleEndianUnique(s[1..], t[1..]);
      assert s == [s[0]] + s[1..] && t == [t[0]] + t[1..];
    }
  }

  // ----- what an Ok means

  /** Reconstruction answers Ok(secret) exactly when every blob opens, every opened share matches
      its commitment, and interpolation yields the secret followed by its own tag. */
  lemma OkMeans(c: Crypto, blobs: seq<Blob>, keys: seq<seq<Byte>>, commitments: seq<seq<Byte>>, secret: seq<Byte>)
    requires Lawful(c)
    ensures SecretReconstructed(c, blobs, keys, commitments) == Ok(secret) <==>
      && |blobs| == |keys|
      && OpenBlobs(c, blobs, keys, 0).Ok?
      && var shares := OpenBlobs(c, blobs, keys, 0).value;
      && (forall i :: 0 <= i < |shares| ==> CheckShare(c, shares[i], commitments).None?)
      && S.Reconstructed(GF, shares) == Ok(Payload(c, secret))
  {
    if |blobs| == |keys| && OpenBlobs(c, blobs, keys, 0).Ok? {
      var shares := OpenBlobs(c, blobs, keys, 0).value;
      CheckSharesAt(c, shares, commitments);
      if S.Reconstructed(GF, shares).Ok? {
        TagAccepts(c, S.Reconstructed(GF, shares).value, secret);
      }
    }
  }

  // ----- soundness

  /** Index and data of the two shares have the same hash. */
  predicate SameHash(c: Crypto, s: ByteShare, t: ByteShare) {
    c.sha512([s.index] + s.data) == c.sha512([t.index] + t.data)
  }

  /** No share supplied collides, under SHA-512, with a different dealt share. */
  ghost predicate NoCollision(c: Crypto, supplied: seq<ByteShare>, dealt: seq<ByteShare>) {
    forall i, j :: 0 <= i < |supplied| && 0 <= j < |dealt| && SameHash(c, supplied[i], dealt[j]) ==> supplied[i] == dealt[j]
  }

  function Slots(shares: seq<ByteShare>): (sel: seq<nat>)
    ensures |sel| == |shares|
  {
    seq(|shares|, i requires 0 <= i < |shares| => CommitmentSlot(shares[i]))
  }

  /** Checked shares that interpolation accepts are a selection of the dealt ones. */
  lemma CheckedAreDealt(c: Crypto, shares: seq<ByteShare>, dealt: seq<ByteShare>)
    requires NoCollision(c, shares, dealt) && S.WellFormed(GF, shares)
    requires forall i :: 0 <= i < |shares| ==> CheckShare(c, shares[i], CommitAll(c, dealt)).None?
    ensures Selection(Slots(shares), |dealt|) && shares == Select(dealt, Slots(shares))
  {
    var sel := Slots(shares);
    forall i | 0 <= i < |shares|
      ensures sel[i] < |dealt| && shares[i] == dealt[sel[i]]
    {
      assert CheckShare(c, shares[i], CommitAll(c, dealt)).None?;
      assert SameHash(c, shares[i], dealt[sel[i]]);
    }
    forall i, j | 0 <= i < j < |sel|
      ensures sel[i] != sel[j]
    {
      assert S.Indices(shares)[i] != S.Indices(shares)[j];
    }
  }

  lemma CheckedSharesInterpolate(c: Crypto, payload: seq<Byte>, m: nat, n: nat, coins: S.Coins<Byte>, shares: seq<ByteShare>)
    requires S.Dealt(SCHEME_256, payload, m, n, coins).Ok? && |shares| >= m
    requires NoCollision(c, shares, S.Dealt(SCHEME_256, payload, m, n, coins).value)
    requires forall i :: 0 <= i < |shares| ==>
      CheckShare(c, shares[i], CommitAll(c, S.Dealt(SCHEME_256, payload, m, n, coins).value)).None?
    requires S.Reconstructed(GF, shares).Ok?
    ensures S.Reconstructed(GF, shares) == Ok(payload)
  {
    AcceptsWellFormed(GF, shares);
    CheckedAreDealt(c, shares, S.Dealt(SCHEME_256, payload, m, n, coins).value);
    Scheme256IsScheme();
    Correctness(SCHEME_256, payload, m, n, coins, Slots(shares));
  }

  /** Whatever blobs and keys are supplied, an Ok from at least m of them is the dealt secret. */
  lemma Soundness(c: Crypto, secret: seq<Byte>, m: nat, n: nat, keys: seq<seq<Byte>>, coins: S.Coins<Byte>,
                  nonce: nat -> seq<Byte>, blobs: seq<Blob>, blobKeys: seq<seq<Byte>>)
    requires Lawful(c)
    requires SecretSplit(c, secret, m, n, keys, coins, nonce).Ok?
    requires |blobs| == |blobKeys| >= m
    requires OpenBlobs(c, blobs, blobKeys, 0).Ok? ==>
      NoCollision(c, OpenBlobs(c, blobs, blobKeys, 0).value, S.Dealt(SCHEME_256, Payload(c, secret), m, n, coins).value)
    ensures var r := SecretReconstructed(c, blobs, blobKeys, SecretSplit(c, secret, m, n, keys, coins, nonce).value.commitments);
      r.Ok? ==> r.value == secret
  {
    var dealt := S.Dealt(SCHEME_256, Payload(c, secret), m, n, coins).value;
    var commitments := CommitAll(c, dealt);
    var r := SecretReconstructed(c, blobs, blobKeys, commitments);
    if r.Ok? {
      OkMeans(c, blobs, blobKeys, commitments, r.value);
      CheckedSharesInterpolate(c, Payload(c, secret), m, n, coins, OpenBlobs(c, blobs, blobKeys, 0).value);
      TagAccepts(c, Payload(c, secret), secret);
      TagAccepts(c, Payload(c, secret), r.value);
    }
  }

  // ----- completeness

  lemma {:induction false} CreatedBlobAt(c: Crypto, shares: seq<ByteShare>, keys: seq<seq<Byte>>, nonce: nat -> seq<Byte>, i: nat, k: nat)
    requires i <= k < |shares| == |keys| && CreateBlobs(c, shares, keys, nonce, i).Ok?
    ensures CreateBlob(c, shares[k], keys[k], nonce(k)) == Some(CreateBlobs(c, shares, keys, nonce, i).value[k - i])
    decreases k - i
  {
    if i < k {
      CreatedBlobAt(c, shares, keys, nonce, i + 1, k);
    }
  }

  lemma HonestBlobOpens(c: Crypto, shares: seq<ByteShare>, keys: seq<seq<Byte>>, nonce: nat -> seq<Byte>, k: nat)
    requires Lawful(c) && k < |shares| == |keys| && CreateBlobs(c, shares, keys, nonce, 0).Ok?
    ensures OpenBlob(c, CreateBlobs(c, shares, keys, nonce, 0).value[k], keys[k]) == Some(shares[k])
  {
    CreatedBlobAt(c, shares, keys, nonce, 0, k);
    OpenCreated(c, shares[k], keys[k], nonce(k));
  }

  /** Honest blobs open, under their keys, to the shares they were made from. */
  lemma HonestBlobsOpen(c: Crypto, shares: seq<ByteShare>, keys: seq<seq<Byte>>, nonce: nat -> seq<Byte>, sel: seq<nat>)
    requires Lawful(c) && |shares| == |keys| && CreateBlobs(c, shares, keys, nonce, 0).Ok?
    requires forall k :: 0 <= k < |sel| ==> sel[k] < |shares|
    ensures OpenBlobs(c, Select(CreateBlobs(c, shares, keys, nonce, 0).value, sel), Select(keys, sel), 0) == Ok(Select(shares, sel))
  {
    var blobs := CreateBlobs(c, shares, keys, nonce, 0).value;
    forall k | 0 <= k < |sel|
      ensures OpenBlob(c, blobs[sel[k]], keys[sel[k]]) == Some(shares[sel[k]])
    {
      HonestBlobOpens(c, shares, keys, nonce, sel[k]);
    }
    OpenBlobsAt(c, Select(blobs, sel), Select(keys, sel), 0, Select(shares, sel));
  }

  lemma DealtSlot(secret: seq<Byte>, m: nat, coins: S.Coins<Byte>, i: nat)
    requires m > 0 && i < 255
    ensures CommitmentSlot(S.DealtShare(SCHEME_256, secret, m, coins, i)) == i
  {
    ToNatFromNat(i + 1);
  }

  /** Any honest blobs under their keys, at least m of them, give back the secret. */
  lemma Completeness(c: Crypto, secret: seq<Byte>, m: nat, n: nat, keys: seq<seq<Byte>>, coins: S.Coins<Byte>,
                     nonce: nat -> seq<Byte>, sel: seq<nat>)
    requires Lawful(c)
    requires SecretSplit(c, secret, m, n, keys, coins, nonce).Ok?
    requires Selection(sel, n) && |sel| >= m
    ensures var split := SecretSplit(c, secret, m, n, keys, coins, nonce).value;
      SecretReconstructed(c, Select(split.blobs, sel), Select(keys, sel), split.commitments) == Ok(secret)
  {
    var payload := Payload(c, secret);
    var dealt := S.Dealt(SCHEME_256, payload, m, n, coins).value;
    var split := SecretSplit(c, secret, m, n, keys, coins, nonce).value;
    var shares := Select(dealt, sel);
    HonestBlobsOpen(c, dealt, keys, nonce, sel);
    forall i | 0 <= i < |shares|
      ensures CheckShare(c, shares[i], split.commitments).None?
    {
      DealtSlot(payload, m, coins, sel[i]);
    }
    Scheme256IsScheme();
    Correctness(SCHEME_256, payload, m, n, coins, sel);
    OkMeans(c, Select(split.blobs, sel), Select(keys, sel), split.commitments, secret);
  }

  /** The shares of the tagged secret. */
  function HonestShares(c: Crypto, secret: seq<Byte>, m: nat, n: nat, coins: S.Coins<Byte>): (shares: seq<ByteShare>)
    requires m > 0
    ensures |shares| == n
  {
    seq(n, i requires 0 <= i < n => S.DealtShare(SCHEME_256, Payload(c, secret), m, coins, i))
  }

  /** What a split hands out: share i is sealed under key i with nonce i, as its index and its data, and
      committed to by the hash of the same bytes. */
  lemma SplitContents(c: Crypto, secret: seq<Byte>, m: nat, n: nat, keys: seq<seq<Byte>>, coins: S.Coins<Byte>,
                      nonce: nat -> seq<Byte>, i: nat)
    requires SecretSplit(c, secret, m, n, keys, coins, nonce).Ok? && i < n
    ensures var split := SecretSplit(c, secret, m, n, keys, coins, nonce).value;
      var share := S.DealtShare(SCHEME_256, Payload(c, secret), m, coins, i);
      && |split.blobs| == |split.commitments| == n && split.threshold == m && split.total == n
      && c.encrypt(keys[i], nonce(i), [share.index] + share.data) == Some(split.blobs[i])
      && split.commitments[i] == c.sha512([share.index] + share.data)
  {
    var dealt := S.Dealt(SCHEME_256, Payload(c, secret), m, n, coins).value;
    CreatedBlobAt(c, dealt, keys, nonce, 0, i);
  }

  /** When a split succeeds: the thresholds are in range, there is a key for every share, and the
      encryption of every share succeeds. The empty secret is allowed, because of its tag. */
  lemma SplitSucceeds(c: Crypto, secret: seq<Byte>, m: nat, n: nat, keys: seq<seq<Byte>>, coins: S.Coins<Byte>,
                      nonce: nat -> seq<Byte>)
    requires Lawful(c)
    ensures SecretSplit(c, secret, m, n, keys, coins, nonce).Ok? <==>
      && 2 <= m <= n <= 255
      && |keys| == n
      && CreateBlobs(c, HonestShares(c, secret, m, n, coins), keys, nonce, 0).Ok?
  {
    TagLength(c, secret);
    if 2 <= m <= n <= 255 {
      assert S.Dealt(SCHEME_256, Payload(c, secret), m, n, coins) == Ok(HonestShares(c, secret, m, n, coins));
    }
  }
}
