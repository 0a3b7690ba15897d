/** What a vault file contains, and what opening one yields. */
module VaultFile {
  import opened Common
  import opened Utf8
  import opened VaultHeader

  type Key = seq<u8>

  datatype SecretEntry = SecretEntry(name: string, encryptedValue: seq<u8>)

  type Entries = map<string, SecretEntry>

  /** The cryptographic and serialization libraries. */
  datatype Library = Library(
    derive: (seq<u8>, Header, Option<seq<u8>>) -> Option<Key>,               // passphrase, header, hardware key
    encryptAad: (Key, seq<u8>, seq<u8>, seq<u8>) -> Option<seq<u8>>,         // key, nonce, plaintext, associated data
    decryptAad: (Key, seq<u8>, seq<u8>) -> Option<seq<u8>>,                  // key, ciphertext, associated data
    valueKey: Key -> Key,
    serialize: seq<SecretEntry> -> Option<seq<u8>>,
    deserialize: seq<u8> -> Option<seq<SecretEntry>>)

  ghost predicate Lawful(lib: Library) {
    && (forall k, n, p, a :: lib.encryptAad(k, n, p, a).Some? ==>
          lib.decryptAad(k, lib.encryptAad(k, n, p, a).value, a) == Some(p))
    && (forall es :: lib.serialize(es).Some? ==> lib.deserialize(lib.serialize(es).value) == Some(es))
  }

  const MAX_VAULT_LEN := 32 * 1024 * 1024

  /** Every entry is stored under its own name. */
  ghost predicate KeysAreNames(m: Entries) {
    forall k :: k in m ==> m[k].name == k
  }

  /** The map built by inserting entries one after the other. */
  function FromEntries(es: seq<SecretEntry>): Entries {
    if es == [] then map[] else FromEntries(es[..|es| - 1])[es[|es| - 1].name := es[|es| - 1]]
  }

  /** `es` lists the values of `m`, in some order. */
  ghost predicate Lists(es: seq<SecretEntry>, m: Entries) {
    && (forall i :: 0 <= i < |es| ==> es[i].name in m && m[es[i].name] == es[i])
    && (forall k :: k in m ==> m[k] in es)
  }

  lemma {:induction false} FromEntriesOf(es: seq<SecretEntry>, m: Entries)
    requires forall i :: 0 <= i < |es| ==> es[i].name in m && m[es[i].name] == es[i]
    ensures forall k :: k in FromEntries(es) <==> k in m && m[k] in es && m[k].name == k
    ensures forall k :: k in FromEntries(es) ==> FromEntries(es)[k] == m[k]
    decreases |es|
  {
    if es != [] {
      var last := es[|es| - 1];
      FromEntriesOf(es[..|es| - 1], m);
      assert es == es[..|es| - 1] + [last];
    }
  }

  /** Of several entries with one name the last one counts. */
  lemma {:induction false} LastEntryCounts(es: seq<SecretEntry>, i: nat)
    requires i < |es| && forall j :: i < j < |es| ==> es[j].name != es[i].name
    ensures es[i].name in FromEntries(es) && FromEntries(es)[es[i].name] == es[i]
    decreases |es|
  {
    if i < |es| - 1 {
      LastEntryCounts(es[..|es| - 1], i);
    }
  }

  /** Whatever order the values of a map are listed in, inserting them rebuilds the map. */
  lemma AnyOrderRebuilds(es: seq<SecretEntry>, m: Entries)
    requires KeysAreNames(m) && Lists(es, m)
    ensures FromEntries(es) == m
  {
    FromEntriesOf(es, m);
  }

  // ----- reading a file

  datatype OpenError = Missing | TooLarge(size: nat) | BadHeader(e: HeaderError) | NoKey | BadCiphertext | BadPayload

  datatype Opened = Opened(header: Header, key: Key, entries: Entries)

  /** The entries that the bytes after a header hold under `key`. */
  function ReadPayload(lib: Library, key: Key, h: Header, ciphertext: seq<u8>): Result<Entries, OpenError> {
    match lib.decryptAad(key, ciphertext, ToBytes(h))
    case None => Err(BadCiphertext)
    case Some(plain) =>
      match lib.deserialize(plain)
      case None => Err(BadPayload)
      case Some(es) => Ok(FromEntries(es))
  }

  function OpenBytes(lib: Library, data: seq<u8>, passphrase: seq<u8>, hardwareKey: Option<seq<u8>>): Result<Opened, OpenError> {
    if |data| > MAX_VAULT_LEN then Err(TooLarge(|data|))
    else
      match Parsed(data)
      case Err(e) => Err(BadHeader(e))
      case Ok((h, ciphertext)) =>
        match lib.derive(passphrase, h, hardwareKey)
        case None => Err(NoKey)
        case Some(key) =>
          match ReadPayload(lib, key, h, ciphertext)
          case Err(e) => Err(e)
          case Ok(entries) => Ok(Opened(h, key, entries))
  }

  /** `data` is a vault file with header `h` that decodes under `key` to exactly the entries `m`. */
  ghost predicate Holds(lib: Library, key: Key, h: Header, data: seq<u8>, m: Entries) {
    Parsed(data).Ok? && Parsed(data).value.0 == h && ReadPayload(lib, key, h, Parsed(data).value.1) == Ok(m)
  }

  /** The bytes that a save writes for one listing of the entries. */
  function SavedBytes(lib: Library, key: Key, h: Header, es: seq<SecretEntry>, nonce: seq<u8>): Option<seq<u8>> {
    match lib.serialize(es)
    case None => None
    case Some(payload) =>
      match lib.encryptAad(key, nonce, payload, ToBytes(h))
      case None => None
      case Some(ciphertext) => Some(ToBytes(h) + ciphertext)
  }

  /** What a save writes holds the saved entries, for every listing order and every nonce. */
  lemma SavedHolds(lib: Library, key: Key, h: Header, m: Entries, es: seq<SecretEntry>, nonce: seq<u8>)
    requires Lawful(lib) && ValidateKdfParams(h.params, h.vdfIterations).None?
    requires KeysAreNames(m) && Lists(es, m) && SavedBytes(lib, key, h, es, nonce).Some?
    ensures Holds(lib, key, h, SavedBytes(lib, key, h, es, nonce).value, m)
  {
    var ciphertext := lib.encryptAad(key, nonce, lib.serialize(es).value, ToBytes(h)).value;
    ParsedIff(ToBytes(h) + ciphertext, h, ciphertext);
    AnyOrderRebuilds(es, m);
  }

  /** A saved file is the header in clear, and under it the sealed listing of the entries, which bears the
      57 bytes before it as associated data. */
  lemma SavedLayout(lib: Library, key: Key, h: Header, es: seq<SecretEntry>, nonce: seq<u8>)
    requires Lawful(lib) && SavedBytes(lib, key, h, es, nonce).Some?
    ensures var data := SavedBytes(lib, key, h, es, nonce).value;
      && |data| >= 57 && data[..57] == ToBytes(h)
      && lib.serialize(es).Some? && lib.decryptAad(key, data[57..], data[..57]) == lib.serialize(es)
  {
    var payload := lib.serialize(es).value;
    var ciphertext := lib.encryptAad(key, nonce, payload, ToBytes(h)).value;
    assert (ToBytes(h) + ciphertext)[..57] == ToBytes(h) && (ToBytes(h) + ciphertext)[57..] == ciphertext;
  }

  /** A file that holds a vault opens, with a passphrase that derives its key, exactly when it is
      within the length limit. */
  lemma HeldOpens(lib: Library, key: Key, h: Header, data: seq<u8>, m: Entries, passphrase: seq<u8>, hardwareKey: Option<seq<u8>>)
    requires Holds(lib, key, h, data, m) && lib.derive(passphrase, h, hardwareKey) == Some(key)
    ensures OpenBytes(lib, data, passphrase, hardwareKey)
         == if |data| > MAX_VAULT_LEN then Err(TooLarge(|data|)) else Ok(Opened(h, key, m))
  {
  }

  /** Reopening is the identity: for every order in which a map may be listed and every nonce, the
      bytes of a save give back its header, key and entries exactly, if and only if they are within
      the length limit; past it they are refused. */
  lemma ReopenIsIdentity(lib: Library, key: Key, h: Header, m: Entries, es: seq<SecretEntry>, nonce: seq<u8>,
                         passphrase: seq<u8>, hardwareKey: Option<seq<u8>>)
    requires Lawful(lib) && ValidateKdfParams(h.params, h.vdfIterations).None?
    requires KeysAreNames(m) && Lists(es, m) && SavedBytes(lib, key, h, es, nonce).Some?
    requires lib.derive(passphrase, h, hardwareKey) == Some(key)
    ensures var data := SavedBytes(lib, key, h, es, nonce).value;
      && (OpenBytes(lib, data, passphrase, hardwareKey) == Ok(Opened(h, key, m)) <==> |data| <= MAX_VAULT_LEN)
      && (OpenBytes(lib, data, passphrase, hardwareKey) == Err(TooLarge(|data|)) <==> |data| > MAX_VAULT_LEN)
  {
    SavedHolds(lib, key, h, m, es, nonce);
    HeldOpens(lib, key, h, SavedBytes(lib, key, h, es, nonce).value, m, passphrase, hardwareKey);
  }

  /** A library that serializes one entry named "k" as its value and encrypts nothing. */
  function PlainLibrary(): Library {
    Library(
      (_, _, _) => Some([]),
      (_, _, p, _) => Some(p),
      (_, c, _) => Some(c),
      k => k,
      (es: seq<SecretEntry>) => if |es| == 1 && es[0].name == "k" then Some(es[0].encryptedValue) else None,
      b => Some([SecretEntry("k", b)]))
  }

  /** A save past the limit: one value of 32 MiB is written and cannot be opened again. */
  lemma SaveCanExceedLimit(h: Header) returns (lib: Library, m: Entries, es: seq<SecretEntry>)
    requires ValidateKdfParams(h.params, h.vdfIterations).None?
    ensures Lawful(lib) && KeysAreNames(m) && Lists(es, m) && SavedBytes(lib, [], h, es, []).Some?
    ensures var data := SavedBytes(lib, [], h, es, []).value; OpenBytes(lib, data, [], None) == Err(TooLarge(|data|))
  {
    var value: seq<u8> := seq(MAX_VAULT_LEN, _ => 0);
    lib := PlainLibrary();
    es := [SecretEntry("k", value)];
    m := map["k" := es[0]];
    forall l: seq<SecretEntry> | lib.serialize(l).Some?
      ensures lib.deserialize(lib.serialize(l).value) == Some(l)
    {
      assert l == [SecretEntry("k", l[0].encryptedValue)];
    }
    assert SavedBytes(lib, [], h, es, []) == Some(ToBytes(h) + value);
    ReopenIsIdentity(lib, [], h, m, es, [], [], None);
  }

  /** Opening never mixes headers: what it returns decodes under the 57 bytes that precede it. */
  lemma OpenedHolds(lib: Library, data: seq<u8>, passphrase: seq<u8>, hardwareKey: Option<seq<u8>>)
    requires OpenBytes(lib, data, passphrase, hardwareKey).Ok?
    ensures var o := OpenBytes(lib, data, passphrase, hardwareKey).value;
      && ToBytes(o.header) == data[..HEADER_LEN]
      && Holds(lib, o.key, o.header, data, o.entries)
      && KeysAreNames(o.entries)
  {
    var (h, ciphertext) := Parsed(data).value;
    ParsedIff(data, h, ciphertext);
    assert (ToBytes(h) + ciphertext)[..HEADER_LEN] == ToBytes(h);
    var key := lib.derive(passphrase, h, hardwareKey).value;
    FromEntriesKeysAreNames(lib.deserialize(lib.decryptAad(key, ciphertext, ToBytes(h)).value).value);
  }

  lemma {:induction false} FromEntriesKeysAreNames(es: seq<SecretEntry>)
    ensures KeysAreNames(FromEntries(es))
    decreases |es|
  {
    if es != [] {
      FromEntriesKeysAreNames(es[..|es| - 1]);
    }
  }
}
