/** Self-contained share tokens: one text per custodian, any `threshold` of which reconstruct. */
module ShareTokens {
  import opened Common
  import opened Bytes
  import opened Polynomial
  import S = Sharing
  import opened Shamir
  import opened SharingTheorems
  import opened Multisig
  import opened MultisigTheorems
  import opened Text

  const SHARE_PREFIX := "simple-secrets-share-v1:"

  datatype ShareFile = ShareFile(
    threshold: nat, total: nat, index: nat, secretName: string,
    blob: Blob, key: seq<Byte>, commitments: seq<seq<Byte>>)

  /** Serialization of a share file to unpadded base64 text, and back. */
  datatype TokenCodec = TokenCodec(body: ShareFile -> string, parse: string -> Option<ShareFile>)

  ghost predicate LawfulCodec(t: TokenCodec) {
    forall x :: t.parse(t.body(x)) == Some(x) && forall i :: 0 <= i < |t.body(x)| ==> !IsWhitespace(t.body(x)[i])
  }

  datatype TokenError = TooFewShares | TooManyShares | ThresholdRange | Entropy
                      | NoTokens | NotAToken | BadBody
                      | DifferentSplits | DuplicateShare(index: nat) | NeedMore(threshold: nat, got: nat)
                      | Scheme(e: Error)

  function EncodeShare(t: TokenCodec, share: ShareFile): string {
    SHARE_PREFIX + t.body(share)
  }

  function DecodeShare(t: TokenCodec, text: string): Result<ShareFile, TokenError> {
    match StripPrefix(Trim(text), SHARE_PREFIX)
    case None => Err(NotAToken)
    case Some(body) =>
      match t.parse(body)
      case None => Err(BadBody)
      case Some(share) => Ok(share)
  }

  lemma DecodeEncoded(t: TokenCodec, share: ShareFile)
    requires LawfulCodec(t)
    ensures DecodeShare(t, EncodeShare(t, share)) == Ok(share)
  {
    var token := EncodeShare(t, share);
    var body := t.body(share);
    assert t.parse(body) == Some(share);
    assert token[0] == SHARE_PREFIX[0];
    assert body == [] ==> token == SHARE_PREFIX;
    assert body != [] ==> token[|token| - 1] == body[|body| - 1];
    TrimSolid(token);
    assert token[|SHARE_PREFIX|..] == body;
  }

  /** White space around a token does not matter. */
  lemma SurroundingsIgnored(t: TokenCodec, before: string, text: string, after: string)
    requires IsBlank(before) && IsBlank(after)
    ensures DecodeShare(t, before + text + after) == DecodeShare(t, text)
  {
    TrimIgnores(before, text, after);
  }

  // ----- splitting

  /** The 32-byte keys drawn for the custodians; a draw may fail. */
  function DrawKeys(draw: nat -> Option<seq<Byte>>, n: nat): (r: Option<seq<seq<Byte>>>)
    ensures r.Some? ==> |r.value| == n
  {
    if n == 0 then Some([])
    else
      match DrawKeys(draw, n - 1)
      case None => None
      case Some(front) =>
        match draw(n - 1)
        case None => None
        case Some(key) => Some(front + [key])
  }

  function FileFor(split: SplitResult, keys: seq<seq<Byte>>, name: string, i: nat): ShareFile
    requires i < |split.blobs| == |keys|
  {
    ShareFile(split.threshold, split.total, i + 1, name, split.blobs[i], keys[i], split.commitments)
  }

  function SplitIntoTokens(c: Crypto, t: TokenCodec, secret: seq<Byte>, threshold: nat, shares: nat, name: string,
                           draw: nat -> Option<seq<Byte>>, coins: S.Coins<Byte>, nonce: nat -> seq<Byte>)
    : Result<seq<string>, TokenError>
  {
    if shares < 2 then Err(TooFewShares)
    else if shares > 255 then Err(TooManyShares)
    else if threshold < 1 || threshold > shares then Err(ThresholdRange)
    else
      match DrawKeys(draw, shares)
      case None => Err(Entropy)
      case Some(keys) =>
        match SecretSplit(c, secret, threshold, shares, keys, coins, nonce)
        case Err(e) => Err(Scheme(e))
        case Ok(split) =>
          Ok(seq(shares, i requires 0 <= i < shares => EncodeShare(t, FileFor(split, keys, name, i))))
  }

  /** Splitting succeeds exactly for thresholds 2..=shares with shares <= 255, when the keys can
      be drawn and every share can be encrypted. */
  lemma SplitsWhen(c: Crypto, t: TokenCodec, secret: seq<Byte>, threshold: nat, shares: nat, name: string,
                   draw: nat -> Option<seq<Byte>>, coins: S.Coins<Byte>, nonce: nat -> seq<Byte>)
    requires Lawful(c)
    ensures SplitIntoTokens(c, t, secret, threshold, shares, name, draw, coins, nonce).Ok? <==>
      && 2 <= threshold <= shares <= 255
      && DrawKeys(draw, shares).Some?
      && CreateBlobs(c, HonestShares(c, secret, threshold, shares, coins), DrawKeys(draw, shares).value, nonce, 0).Ok?
  {
    if DrawKeys(draw, shares).Some? {
      SplitSucceeds(c, secret, threshold, shares, DrawKeys(draw, shares).value, coins, nonce);
    }
  }

  lemma {:induction false} DrawnKey(draw: nat -> Option<seq<Byte>>, n: nat, i: nat)
    requires DrawKeys(draw, n).Some? && i < n
    ensures draw(i) == Some(DrawKeys(draw, n).value[i])
  {
    if i < n - 1 {
      DrawnKey(draw, n - 1, i);
    }
  }

  /** What token i carries: its number, the parameters and the name of the split, a key of its own, the
      commitments of all shares, and its own share sealed under that key. */
  lemma TokenContents(c: Crypto, t: TokenCodec, secret: seq<Byte>, threshold: nat, shares: nat, name: string,
                      draw: nat -> Option<seq<Byte>>, coins: S.Coins<Byte>, nonce: nat -> seq<Byte>, i: nat)
    requires LawfulCodec(t) && i < shares
    requires SplitIntoTokens(c, t, secret, threshold, shares, name, draw, coins, nonce).Ok?
    ensures var token := SplitIntoTokens(c, t, secret, threshold, shares, name, draw, coins, nonce).value[i];
      var share := S.DealtShare(SCHEME_256, Payload(c, secret), threshold, coins, i);
      && "simple-secrets-share-v1:" <= token && DecodeShare(t, token).Ok?
      && var file := DecodeShare(t, token).value;
      && file.threshold == threshold && file.total == shares && file.index == i + 1 && file.secretName == name
      && draw(i) == Some(file.key) && |file.commitments| == shares
      && file.commitments[i] == c.sha512([share.index] + share.data)
      && c.encrypt(file.key, nonce(i), [share.index] + share.data) == Some(file.blob)
  {
    var keys := DrawKeys(draw, shares).value;
    DrawnKey(draw, shares, i);
    SplitContents(c, secret, threshold, shares, keys, coins, nonce, i);
    DecodeEncoded(t, FileFor(SecretSplit(c, secret, threshold, shares, keys, coins, nonce).value, keys, name, i));
  }

  /** The range check admits threshold 1, but the sharing below it always refuses it. */
  lemma ThresholdOneIsRefused(c: Crypto, t: TokenCodec, secret: seq<Byte>, shares: nat, name: string,
                              draw: nat -> Option<seq<Byte>>, coins: S.Coins<Byte>, nonce: nat -> seq<Byte>)
    requires 2 <= shares <= 255 && DrawKeys(draw, shares).Some?
    ensures SplitIntoTokens(c, t, secret, 1, shares, name, draw, coins, nonce) == Err(Scheme(Sharing(S.BadThreshold)))
  {
  }

  // ----- reconstructing

  function DecodeAll(t: TokenCodec, tokens: seq<string>): (r: Result<seq<ShareFile>, TokenError>)
    ensures r.Ok? ==> |r.value| == |tokens|
  {
    if tokens == [] then Ok([])
    else
      match DecodeShare(t, tokens[0])
      case Err(e) => Err(e)
      case Ok(share) =>
        match DecodeAll(t, tokens[1..])
        case Err(e) => Err(e)
        case Ok(rest) => Ok([share] + rest)
  }

  /** The first share of another split, or repeating an index, decides the error. */
  function CheckFiles(files: seq<ShareFile>, commitments: seq<seq<Byte>>, seen: set<nat>): Option<TokenError> {
    if files == [] then None
    else if files[0].commitments != commitments then Some(DifferentSplits)
    else if files[0].index in seen then Some(DuplicateShare(files[0].index))
    else CheckFiles(files[1..], commitments, seen + {files[0].index})
  }

  function Blobs(files: seq<ShareFile>): (r: seq<Blob>)
    ensures |r| == |files|
  {
    seq(|files|, i requires 0 <= i < |files| => files[i].blob)
  }

  function Keys(files: seq<ShareFile>): (r: seq<seq<Byte>>)
    ensures |r| == |files|
  {
    seq(|files|, i requires 0 <= i < |files| => files[i].key)
  }

  ghost function TokensReconstructed(c: Crypto, t: TokenCodec, tokens: seq<string>): Result<seq<Byte>, TokenError> {
    if tokens == [] then Err(NoTokens)
    else
      match DecodeAll(t, tokens)
      case Err(e) => Err(e)
      case Ok(files) =>
        match CheckFiles(files, files[0].commitments, {})
        case Some(e) => Err(e)
        case None =>
          if |files| < files[0].threshold then Err(NeedMore(files[0].threshold, |files|))
          else
            match SecretReconstructed(c, Blobs(files), Keys(files), files[0].commitments)
            case Err(e) => Err(Scheme(e))
            case Ok(secret) => Ok(secret)
  }

  method ReconstructFromTokens(c: Crypto, t: TokenCodec, tokens: seq<string>) returns (r: Result<seq<Byte>, TokenError>)
    ensures r == TokensReconstructed(c, t, tokens)
  {
    if tokens == [] {
      return Err(NoTokens);
    }
    var parsed := DecodeAll(t, tokens);
    if parsed.Err? {
      return Err(parsed.error);
    }
    var files := parsed.value;
    var commitments := files[0].commitments;
    var seen: set<nat> := {};
    for i := 0 to |files|
      invariant CheckFiles(files, commitments, {}) == CheckFiles(files[i..], commitments, seen)
    {
      assert files[i..][1..] == files[i + 1..];
      if files[i].commitments != commitments {
        return Err(DifferentSplits);
      }
      if files[i].index in seen {
        return Err(DuplicateShare(files[i].index));
      }
      seen := seen + {files[i].index};
    }
    if |files| < files[0].threshold {
      return Err(NeedMore(files[0].threshold, |files|));
    }
    var secret := ReconstructSecret(c, Blobs(files), Keys(files), commitments);
    r := if secret.Ok? then Ok(secret.value) else Err(Scheme(secret.error));
  }

  // ----- end to end

  lemma {:induction false} DecodeAllAt(t: TokenCodec, tokens: seq<string>, files: seq<ShareFile>)
    requires |files| == |tokens| && forall i :: 0 <= i < |tokens| ==> DecodeShare(t, tokens[i]) == Ok(files[i])
    ensures DecodeAll(t, tokens) == Ok(files)
  {
    if tokens != [] {
      DecodeAllAt(t, tokens[1..], files[1..]);
      assert files == [files[0]] + files[1..];
    }
  }

  lemma {:induction false} CheckFilesAt(files: seq<ShareFile>, commitments: seq<seq<Byte>>, seen: set<nat>)
    ensures CheckFiles(files, commitments, seen).None? <==>
      && (forall i :: 0 <= i < |files| ==> files[i].commitments == commitments && files[i].index !in seen)
      && (forall i, j :: 0 <= i < j < |files| ==> files[i].index != files[j].index)
    ensures (forall i :: 0 <= i < |files| ==> files[i].commitments == commitments) && CheckFiles(files, commitments, seen).Some?
      ==> CheckFiles(files, commitments, seen).value.DuplicateShare?
  {
    if files != [] {
      var rest := files[1..];
      assert forall i :: 0 <= i < |rest| ==> rest[i] == files[i + 1];
      assert forall i :: 1 <= i < |files| ==> files[i] == rest[i - 1];
      CheckFilesAt(rest, commitments, seen + {files[0].index});
    }
  }

  function SelectedFiles(split: SplitResult, keys: seq<seq<Byte>>, name: string, sel: seq<nat>): (files: seq<ShareFile>)
    requires |split.blobs| == |keys| && forall k :: 0 <= k < |sel| ==> sel[k] < |keys|
    ensures |files| == |sel|
  {
    seq(|sel|, k requires 0 <= k < |sel| => FileFor(split, keys, name, sel[k]))
  }

  lemma SelectedFilesChecked(split: SplitResult, keys: seq<seq<Byte>>, name: string, sel: seq<nat>)
    requires |split.blobs| == |keys| && forall k :: 0 <= k < |sel| ==> sel[k] < |keys|
    ensures var e := CheckFiles(SelectedFiles(split, keys, name, sel), split.commitments, {});
      if Distinct(sel) then e.None? else e.Some? && e.value.DuplicateShare?
  {
    var files := SelectedFiles(split, keys, name, sel);
    CheckFilesAt(files, split.commitments, {});
    if !Distinct(sel) {
      var i, j :| 0 <= i < j < |sel| && sel[i] == sel[j];
      assert files[i].index == files[j].index;
    }
  }

  /** The error of a token list that decodes to these files of one split, or None when the
      multisig layer is to decide. */
  lemma FilesDecide(c: Crypto, t: TokenCodec, tokens: seq<string>, split: SplitResult, keys: seq<seq<Byte>>, name: string, sel: seq<nat>)
    requires |split.blobs| == |keys| && forall k :: 0 <= k < |sel| ==> sel[k] < |keys|
    requires DecodeAll(t, tokens) == Ok(SelectedFiles(split, keys, name, sel))
    ensures var r := TokensReconstructed(c, t, tokens);
      if sel == [] then r == Err(NoTokens)
      else if !Distinct(sel) then r.Err? && r.error.DuplicateShare?
      else if |sel| < split.threshold then r == Err(NeedMore(split.threshold, |sel|))
      else
        match SecretReconstructed(c, Select(split.blobs, sel), Select(keys, sel), split.commitments)
        case Err(e) => r == Err(Scheme(e))
        case Ok(secret) => r == Ok(secret)
  {
    var files := SelectedFiles(split, keys, name, sel);
    SelectedFilesChecked(split, keys, name, sel);
    assert Blobs(files) == Select(split.blobs, sel);
    assert Keys(files) == Select(keys, sel);
  }

  lemma TokensDecode(t: TokenCodec, tokens: seq<string>, split: SplitResult, keys: seq<seq<Byte>>, name: string, sel: seq<nat>)
    requires LawfulCodec(t)
    requires |split.blobs| == |keys| && forall k :: 0 <= k < |sel| ==> sel[k] < |keys|
    requires |tokens| == |sel|
    requires forall k :: 0 <= k < |sel| ==> tokens[k] == EncodeShare(t, FileFor(split, keys, name, sel[k]))
    ensures DecodeAll(t, tokens) == Ok(SelectedFiles(split, keys, name, sel))
  {
    var files := SelectedFiles(split, keys, name, sel);
    forall k | 0 <= k < |sel|
      ensures DecodeShare(t, tokens[k]) == Ok(files[k])
    {
      DecodeEncoded(t, files[k]);
    }
    DecodeAllAt(t, tokens, files);
  }

  /** What reconstruction answers for every choice of honest tokens, in any order and with any
      repetitions: below the threshold, and with a repeated token, an error; otherwise the secret. */
  lemma EndToEnd(c: Crypto, t: TokenCodec, secret: seq<Byte>, threshold: nat, shares: nat, name: string,
                 draw: nat -> Option<seq<Byte>>, coins: S.Coins<Byte>, nonce: nat -> seq<Byte>, sel: seq<nat>)
    requires Lawful(c) && LawfulCodec(t)
    requires SplitIntoTokens(c, t, secret, threshold, shares, name, draw, coins, nonce).Ok?
    requires forall k :: 0 <= k < |sel| ==> sel[k] < shares
    ensures var r := TokensReconstructed(c, t,
                       Select(SplitIntoTokens(c, t, secret, threshold, shares, name, draw, coins, nonce).value, sel));
      if sel == [] then r == Err(NoTokens)
      else if !Distinct(sel) then r.Err? && r.error.DuplicateShare?
      else if |sel| < threshold then r == Err(NeedMore(threshold, |sel|))
      else r == Ok(secret)
  {
    var keys := DrawKeys(draw, shares).value;
    var split := SecretSplit(c, secret, threshold, shares, keys, coins, nonce).value;
    var tokens := Select(SplitIntoTokens(c, t, secret, threshold, shares, name, draw, coins, nonce).value, sel);
    forall k | 0 <= k < |sel|
      ensures tokens[k] == EncodeShare(t, FileFor(split, keys, name, sel[k]))
    {
    }
    TokensDecode(t, tokens, split, keys, name, sel);
    FilesDecide(c, t, tokens, split, keys, name, sel);
    if Distinct(sel) && |sel| >= threshold {
      Completeness(c, secret, threshold, shares, keys, coins, nonce, sel);
    }
  }

  /** Tokens of any origin, tampered with or forged: at least m of them, the first of which carries the
      commitments of an honest split, give its secret or fail. */
  lemma TokensSound(c: Crypto, t: TokenCodec, secret: seq<Byte>, m: nat, n: nat, keys: seq<seq<Byte>>, coins: S.Coins<Byte>,
                    nonce: nat -> seq<Byte>, tokens: seq<string>)
    requires Lawful(c) && SecretSplit(c, secret, m, n, keys, coins, nonce).Ok?
    requires |tokens| >= m && DecodeAll(t, tokens).Ok? && tokens != []
    requires DecodeAll(t, tokens).value[0].commitments == SecretSplit(c, secret, m, n, keys, coins, nonce).value.commitments
    requires var files := DecodeAll(t, tokens).value;
      var shares := OpenBlobs(c, Blobs(files), Keys(files), 0);
      shares.Ok? ==> NoCollision(c, shares.value, HonestShares(c, secret, m, n, coins))
    ensures TokensReconstructed(c, t, tokens).Ok? ==> TokensReconstructed(c, t, tokens).value == secret
  {
    var files := DecodeAll(t, tokens).value;
    SplitSucceeds(c, secret, m, n, keys, coins, nonce);
    assert S.Dealt(SCHEME_256, Payload(c, secret), m, n, coins) == Ok(HonestShares(c, secret, m, n, coins));
    Soundness(c, secret, m, n, keys, coins, nonce, Blobs(files), Keys(files));
  }

  /** Tokens carrying different commitments never reconstruct, whoever made them. */
  lemma MixedSplitsRefused(c: Crypto, t: TokenCodec, tokens: seq<string>, i: nat, j: nat)
    requires i < |tokens| && j < |tokens|
    requires DecodeShare(t, tokens[i]).Ok? && DecodeShare(t, tokens[j]).Ok?
    requires DecodeShare(t, tokens[i]).value.commitments != DecodeShare(t, tokens[j]).value.commitments
    ensures TokensReconstructed(c, t, tokens).Err?
  {
    if DecodeAll(t, tokens).Ok? {
      var files := DecodeAll(t, tokens).value;
      DecodedAt(t, tokens, i);
      DecodedAt(t, tokens, j);
      CheckFilesAt(files, files[0].commitments, {});
    }
  }

  lemma {:induction false} DecodedAt(t: TokenCodec, tokens: seq<string>, i: nat)
    requires i < |tokens| && DecodeAll(t, tokens).Ok?
    ensures DecodeShare(t, tokens[i]) == Ok(DecodeAll(t, tokens).value[i])
  {
    if i > 0 {
      DecodedAt(t, tokens[1..], i - 1);
    }
  }
}
