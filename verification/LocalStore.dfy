/** The file system a vault lives in, with every image it ever shows. */
module FileSystem {
  import opened Utf8

  type Image = map<string, seq<u8>>

  /** A crash may leave any image of `history` behind. Failures are arbitrary. */
  class Disk {
    var files: Image
    ghost var history: seq<Image>

    ghost predicate Valid()
      reads this
    {
      history != [] && history[|history| - 1] == files
    }

    constructor (initial: Image)
      ensures Valid() && files == initial && history == [initial]
    {
      files := initial;
      history := [initial];
    }

    /** Creates an empty file, failing when it exists. */
    method CreateNew(path: string) returns (ok: bool)
      requires Valid()
      modifies this
      ensures Valid()
      ensures ok ==> path !in old(files) && history == old(history) + [old(files)[path := []]]
      ensures !ok ==> files == old(files) && history == old(history)
    {
      var fails: bool := *;
      if fails || path in files {
        return false;
      }
      files := files[path := []];
      history := history + [files];
      ok := true;
    }

    /** Truncates and writes a file; it may stop after any number of bytes. */
    method Write(path: string, bytes: seq<u8>) returns (ok: bool)
      requires Valid()
      modifies this
      ensures Valid()
      ensures old(history) <= history
      ensures forall i :: |old(history)| <= i < |history| ==> OnlyChanges(path, old(files), history[i])
      ensures OnlyChanges(path, old(files), files)
      ensures ok ==> path in files && files[path] == bytes
    {
      var fails: bool := *;
      if fails {
        return false;
      }
      files := files[path := []];
      history := history + [files];
      for k := 0 to |bytes|
        invariant Valid() && old(history) <= history
        invariant forall i :: |old(history)| <= i < |history| ==> OnlyChanges(path, old(files), history[i])
        invariant path in files && files[path] == bytes[..k] && OnlyChanges(path, old(files), files)
      {
        fails := *;
        if fails {
          return false;
        }
        files := files[path := bytes[..k + 1]];
        history := history + [files];
        assert OnlyChanges(path, old(files), files);
      }
      ok := true;
    }

    /** Replaces `target` by `source` in one step, or does nothing. */
    method Rename(source: string, target: string) returns (ok: bool)
      requires Valid() && source in files && source != target
      modifies this
      ensures Valid()
      ensures ok ==> history == old(history) + [(old(files) - {source})[target := old(files)[source]]]
      ensures !ok ==> files == old(files) && history == old(history)
    {
      var fails: bool := *;
      if fails {
        return false;
      }
      files := (files - {source})[target := files[source]];
      history := history + [files];
      ok := true;
    }

    /** Removes a file if it can; failures are ignored. */
    method Remove(path: string)
      requires Valid()
      modifies this
      ensures Valid()
      ensures old(history) <= history
      ensures forall i :: |old(history)| <= i < |history| ==> OnlyChanges(path, old(files), history[i])
      ensures OnlyChanges(path, old(files), files)
    {
      var fails: bool := *;
      if !fails {
        files := files - {path};
        history := history + [files];
      }
    }
  }

  /** The two images agree on every path other than `path`. */
  ghost predicate OnlyChanges(path: string, before: Image, after: Image) {
    before - {path} == after - {path}
  }

  ghost predicate SameAt(p: string, before: Image, after: Image) {
    (p in before <==> p in after) && (p in before ==> before[p] == after[p])
  }

  lemma SameElsewhere(path: string, p: string, before: Image, after: Image)
    requires OnlyChanges(path, before, after) && p != path
    ensures SameAt(p, before, after)
  {
    assert p in before <==> p in before - {path};
    assert p in after <==> p in after - {path};
    if p in before {
      assert before[p] == (before - {path})[p] == (after - {path})[p] == after[p];
    }
  }
}

/** The names of secrets, and the secrets of a vault. */
module SecretName {
  import opened Common
  import opened Utf8

  /** Name to value; None stands for a stored value that does not decrypt. */
  type Secrets = map<string, Option<seq<u8>>>

  const MAX_NAME_LEN := 256

  datatype NameError = Empty | TooLong | ControlCharacter

  predicate IsControl(c: char) {
    c as int < 0x20 || 0x7F <= c as int < 0xA0
  }

  function ValidateSecretName(name: string): Option<NameError> {
    if name == [] then Some(Empty)
    else if |Encode(name)| > MAX_NAME_LEN then Some(TooLong)
    else if exists i :: 0 <= i < |name| && IsControl(name[i]) then Some(ControlCharacter)
    else None
  }

  /** A name is accepted exactly when it has 1 to 256 bytes and no control character. */
  lemma NameAcceptedIff(name: string)
    ensures ValidateSecretName(name).None? <==>
      && 1 <= |Encode(name)| <= 256
      && forall i :: 0 <= i < |name| ==> ' ' <= name[i] <= '~' || name[i] >= '\U{00A0}'
  {
    if name != [] {
      assert |EncodeChar(name[|name| - 1])| >= 1;
    }
  }

  lemma OneLetterIsValid(c: char)
    requires 'a' <= c <= 'z'
    ensures ValidateSecretName([c]).None?
  {
    assert [c][..0] == [];
    assert Encode([c]) == Encode([c][..0]) + EncodeChar(c);
  }
}

/** The persistent vault: a map in memory, kept in step with a file that is replaced atomically. */
module LocalStore {
  import opened Common
  import opened Utf8
  import opened VaultHeader
  import opened VaultFile
  import opened FileSystem
  import opened SecretName

  datatype SaveError = Serialize | Encrypt | Write | Finalize

  datatype StoreError = Name(e: NameError) | Seal | Unseal | Save(cause: SaveError)

  /** How a log grows over the images of one save: every image shows the map committed before, but
      for the last one of a save that succeeds, which shows `now`. */
  ghost predicate Logged(before: seq<Entries>, after: seq<Entries>, saved: bool, now: Entries)
    requires before != []
  {
    && before <= after && (saved ==> |before| < |after|)
    && forall i :: |before| <= i < |after| ==>
         after[i] == if saved && i == |after| - 1 then now else before[|before| - 1]
  }

  /** No image that a save adds moves the file at `p`, but for the last one of a save that succeeds. */
  ghost predicate Unmoved(p: string, before: seq<Image>, after: seq<Image>, saved: bool)
    requires before != []
  {
    && before <= after && (saved ==> |before| < |after|)
    && forall i :: |before| <= i < |after| && (saved ==> i < |after| - 1) ==> SameAt(p, before[|before| - 1], after[i])
  }

  /** The log after a save that has brought the number of images to n. */
  ghost function Extended(log: seq<Entries>, n: nat, saved: bool, now: Entries): (longer: seq<Entries>)
    requires log != [] && |log| <= n && (saved ==> |log| < n)
    ensures |longer| == n && Logged(log, longer, saved, now)
  {
    var before := log[|log| - 1];
    if n == |log| then log
    else log + seq(n - |log| - 1, _ => before) + [if saved then now else before]
  }

  /** Whatever an image shows by the file at `p` alone, the added images show with the maps of the log. */
  lemma LogExtends(shows: (Image, Entries) -> bool, p: string, images: seq<Image>, maps: seq<Entries>,
                   newImages: seq<Image>, newMaps: seq<Entries>, saved: bool, now: Entries, born: nat)
    requires |images| == |maps| && born < |maps| && |newImages| == |newMaps|
    requires Unmoved(p, images, newImages, saved) && Logged(maps, newMaps, saved, now)
    requires forall i :: born <= i < |maps| ==> shows(images[i], maps[i])
    requires forall a, b, m :: shows(a, m) && SameAt(p, a, b) ==> shows(b, m)
    requires saved ==> shows(newImages[|newImages| - 1], now)
    ensures forall i :: born <= i < |newMaps| ==> shows(newImages[i], newMaps[i])
  {
    var last := |maps| - 1;
    assert shows(images[last], maps[last]);
    forall i | born <= i < |newMaps|
      ensures shows(newImages[i], newMaps[i])
    {
      if i < |maps| {
        assert newImages[i] == images[i] && newMaps[i] == maps[i];
      } else if saved && i == |newMaps| - 1 {
        assert newMaps[i] == now;
      } else {
        assert SameAt(p, images[last], newImages[i]) && newMaps[i] == maps[last];
      }
    }
  }

  class Store {
    const disk: Disk
    const path: string
    const lib: Library
    const masterKey: Key
    const header: Header
    var entries: Entries
    /** Ghost history: log[i] is the entry map of the last rename completed when the disk showed
        image i; images from `born` on are those since the store was created or opened. */
    ghost var log: seq<Entries>
    ghost var born: nat

    /** What the in-memory part needs for saving. */
    ghost predicate Ready()
      reads this, disk
    {
      && disk.Valid()
      && Lawful(lib)
      && ValidateKdfParams(header.params, header.vdfIterations).None?
      && KeysAreNames(entries)
    }

    /** Every image since birth holds, at the vault path, exactly the entries of the last
        completed rename: a crash at any step leaves a complete old or new vault. */
    ghost predicate Valid()
      reads this, disk
    {
      && Ready()
      && |log| == |disk.history| && born < |log|
      && AllComplete(disk.history, log, born)
    }

    /** An image whose vault file decodes to exactly `m`. */
    ghost predicate Complete(image: Image, m: Entries) {
      path in image && Holds(lib, masterKey, header, image[path], m)
    }

    ghost predicate AllComplete(images: seq<Image>, maps: seq<Entries>, born: nat)
      requires |images| == |maps|
    {
      forall i {:trigger Complete(images[i], maps[i])} :: born <= i < |maps| ==> Complete(images[i], maps[i])
    }

    ghost function Committed(): Entries
      requires log != []
      reads this
    {
      log[|log| - 1]
    }

    /** The secrets, as a reader sees them: None marks a value that does not decrypt. */
    ghost function Secrets(): SecretName.Secrets
      reads this
    {
      SecretsOf(lib, masterKey, entries)
    }

    constructor (disk: Disk, path: string, lib: Library, masterKey: Key, header: Header, entries: Entries)
      ensures this.disk == disk && this.path == path && this.lib == lib && this.masterKey == masterKey
      ensures this.header == header && this.entries == entries && log == []
    {
      this.disk := disk;
      this.path := path;
      this.lib := lib;
      this.masterKey := masterKey;
      this.header := header;
      this.entries := entries;
      this.log := [];
      this.born := 0;
    }

    /** Starts the log at the image now on disk. */
    ghost method Begin()
      requires Ready() && Complete(disk.files, entries)
      modifies this`log, this`born
      ensures Valid() && Committed() == entries
    {
      var now, n := entries, |disk.history|;
      born := n - 1;
      log := seq(n - 1, _ => now) + [now];
      assert disk.history[n - 1] == disk.files && log[n - 1] == now;
      assert Complete(disk.history[n - 1], log[n - 1]);
    }

    method Save() returns (r: Result<(), SaveError>)
      requires Ready()
      modifies disk
      ensures Ready() && Unmoved(path, old(disk.history), disk.history, r.Ok?)
      ensures r.Ok? ==> Complete(disk.files, entries)
    {
      var list := ListEntries();
      var payload := lib.serialize(list);
      if payload.None? {
        return Err(Serialize);
      }
      var headerBytes := ToBytes(header);
      var nonce := FreshNonce();
      var encrypted := lib.encryptAad(masterKey, nonce, payload.value, headerBytes);
      if !encrypted.Some? {
        return Err(Encrypt);
      }
      var fileBytes := headerBytes + encrypted.value;
      SavedHolds(lib, masterKey, header, entries, list, nonce);
      r := ReplaceFile(fileBytes);
    }

    /** Writes a sibling temporary file and renames it over the vault. */
    method ReplaceFile(bytes: seq<u8>) returns (r: Result<(), SaveError>)
      requires disk.Valid()
      modifies disk
      ensures disk.Valid() && Unmoved(path, old(disk.history), disk.history, r.Ok?)
      ensures r.Ok? ==> path in disk.files && disk.files[path] == bytes
    {
      var tmp := path + ".tmp";
      assert |tmp| > |path|;
      ghost var before := disk.files;
      ghost var start := |disk.history|;
      var ok := disk.Write(tmp, bytes);
      forall i | start <= i < |disk.history|
        ensures SameAt(path, before, disk.history[i])
      {
        SameElsewhere(tmp, path, before, disk.history[i]);
      }
      SameElsewhere(tmp, path, before, disk.files);
      if !ok {
        return Err(Write);
      }
      ok := disk.Rename(tmp, path);
      if !ok {
        ghost var written := disk.history;
        disk.Remove(tmp);
        forall i | |written| <= i < |disk.history|
          ensures SameAt(path, before, disk.history[i])
        {
          SameElsewhere(tmp, path, written[|written| - 1], disk.history[i]);
        }
        SameElsewhere(tmp, path, written[|written| - 1], disk.files);
        return Err(Finalize);
      }
      r := Ok(());
    }

    /** The values of the map, in whatever order iteration yields them. */
    method ListEntries() returns (list: seq<SecretEntry>)
      requires KeysAreNames(entries)
      ensures Lists(list, entries)
    {
      var rest := entries.Keys;
      list := [];
      while rest != {}
        invariant rest <= entries.Keys
        invariant forall i :: 0 <= i < |list| ==> list[i].name in entries && entries[list[i].name] == list[i]
        invariant forall k :: k in entries && k !in rest ==> entries[k] in list
        decreases |rest|
      {
        var k :| k in rest;
        list := list + [entries[k]];
        rest := rest - {k};
      }
    }

    /** Extends the log over the images that a save has added to `images`. */
    ghost method Record(images: seq<Image>, saved: bool)
      requires Ready() && |log| == |images| && born < |log| && AllComplete(images, log, born)
      requires Unmoved(path, images, disk.history, saved) && (saved ==> Complete(disk.files, entries))
      modifies this`log
      ensures Valid() && Logged(old(log), log, saved, entries)
    {
      var newMaps := Extended(log, |disk.history|, saved, entries);
      CompleteExtends(images, log, disk.history, newMaps, saved, entries);
      log := newMaps;
    }

    /** Images that keep the vault file of the last one go with its map. */
    lemma CompleteExtends(images: seq<Image>, maps: seq<Entries>, newImages: seq<Image>, newMaps: seq<Entries>,
                          saved: bool, now: Entries)
      requires |images| == |maps| && born < |maps| && AllComplete(images, maps, born)
      requires |newImages| == |newMaps| && Unmoved(path, images, newImages, saved) && Logged(maps, newMaps, saved, now)
      requires saved ==> Complete(newImages[|newImages| - 1], now)
      ensures AllComplete(newImages, newMaps, born)
    {
      var shows := (image: Image, m: Entries) => Complete(image, m);
      forall i | born <= i < |maps|
        ensures shows(images[i], maps[i])
      {
        assert Complete(images[i], maps[i]);
      }
      forall a, b, m | shows(a, m) && SameAt(path, a, b)
        ensures shows(b, m)
      {
        StaysComplete(a, b, m);
      }
      LogExtends(shows, path, images, maps, newImages, newMaps, saved, now, born);
      forall i | born <= i < |newMaps|
        ensures Complete(newImages[i], newMaps[i])
      {
        assert shows(newImages[i], newMaps[i]);
      }
    }

    /** Saves, keeping the log in step. */
    method SaveLogged() returns (r: Result<(), SaveError>)
      requires Ready() && |log| == |disk.history| && born < |log| && AllComplete(disk.history, log, born)
      modifies this`log, disk
      ensures Valid() && Logged(old(log), log, r.Ok?, entries)
    {
      ghost var images := disk.history;
      r := Save();
      Record(images, r.Ok?);
    }

    lemma StaysComplete(before: Image, after: Image, m: Entries)
      requires Complete(before, m) && SameAt(path, before, after)
      ensures Complete(after, m)
    {
    }

    /** Inserts an already sealed value and saves. The insertion stays even when saving fails. */
    method Set(name: string, encryptedValue: seq<u8>) returns (r: Result<(), SaveError>)
      requires Valid()
      modifies this`entries, this`log, disk
      ensures Valid() && Logged(old(log), log, r.Ok?, entries)
      ensures entries == old(entries)[name := SecretEntry(name, encryptedValue)]
    {
      entries := entries[name := SecretEntry(name, encryptedValue)];
      r := SaveLogged();
    }

    method PutSecret(name: string, plaintext: seq<u8>) returns (r: Result<(), StoreError>)
      requires Valid()
      modifies this`entries, this`log, disk
      ensures Valid() && Logged(old(log), log, r.Ok?, entries)
      ensures ValidateSecretName(name).Some? <==> r.Err? && r.error.Name?
      ensures r.Err? ==> !r.error.Unseal?
      ensures r.Err? && !r.error.Save? ==> entries == old(entries) && disk.history == old(disk.history)
      ensures Secrets() == if r.Err? && !r.error.Save? then old(Secrets()) else old(Secrets())[name := Some(plaintext)]
      ensures r.Ok? ==>
        name in entries && lib.decryptAad(lib.valueKey(masterKey), entries[name].encryptedValue, Encode(name)) == Some(plaintext)
    {
      var invalid := ValidateSecretName(name);
      if invalid.Some? {
        return Err(Name(invalid.value));
      }
      var vk := lib.valueKey(masterKey);
      var nonce := FreshNonce();
      var ciphertext := lib.encryptAad(vk, nonce, plaintext, Encode(name));
      if !ciphertext.Some? {
        return Err(Seal);
      }
      ghost var sealed := SecretEntry(name, ciphertext.value);
      assert Unsealed(lib, masterKey, name, sealed) == Some(plaintext);
      SecretsUpdated(lib, masterKey, entries, name, sealed);
      var saved := Set(name, ciphertext.value);
      r := if saved.Ok? then Ok(()) else Err(StoreError.Save(saved.error));
    }

    method GetSecret(name: string) returns (r: Result<Option<seq<u8>>, StoreError>)
      ensures r == if name !in Secrets() then Ok(None)
                   else if Secrets()[name].None? then Err(Unseal) else Ok(Secrets()[name])
    {
      if name !in entries {
        return Ok(None);
      }
      var vk := lib.valueKey(masterKey);
      var plaintext := lib.decryptAad(vk, entries[name].encryptedValue, Encode(name));
      r := if plaintext.None? then Err(Unseal) else Ok(plaintext);
    }

    method Names() returns (names: seq<string>)
      ensures forall n :: n in names <==> n in entries
      ensures forall i, j :: 0 <= i < j < |names| ==> names[i] != names[j]
    {
      var rest := entries.Keys;
      names := [];
      while rest != {}
        invariant rest <= entries.Keys
        invariant forall n :: n in names <==> n in entries && n !in rest
        invariant forall i, j :: 0 <= i < j < |names| ==> names[i] != names[j]
        decreases |rest|
      {
        var k :| k in rest;
        names := names + [k];
        rest := rest - {k};
      }
    }

    /** Removes an entry and saves; an absent name leaves the disk alone. */
    method DeleteSecret(name: string) returns (r: Result<bool, StoreError>)
      requires Valid()
      modifies this`entries, this`log, disk
      ensures Valid() && Logged(old(log), log, r == Ok(true), entries)
      ensures r.Ok? ==> r.value == (name in old(entries))
      ensures r.Err? ==> r.error.Save? && name in old(entries)
      ensures entries == old(entries) - {name}
      ensures Secrets() == old(Secrets()) - {name}
      ensures r == Ok(false) ==> disk.history == old(disk.history)
    {
      if name !in entries {
        assert entries - {name} == entries;
        assert Secrets() - {name} == Secrets();
        return Ok(false);
      }
      SecretsRemoved(lib, masterKey, entries, name);
      entries := entries - {name};
      var saved := SaveLogged();
      r := if saved.Ok? then Ok(true) else Err(StoreError.Save(saved.error));
    }
  }

  /** A nonce from the random generator. */
  method FreshNonce() returns (nonce: seq<u8>)
  {
    nonce := *;
  }

  function Unsealed(lib: Library, masterKey: Key, name: string, e: SecretEntry): Option<seq<u8>> {
    lib.decryptAad(lib.valueKey(masterKey), e.encryptedValue, Encode(name))
  }

  function SecretsOf(lib: Library, masterKey: Key, entries: Entries): Secrets {
    map n | n in entries :: Unsealed(lib, masterKey, n, entries[n])
  }

  lemma SecretsUpdated(lib: Library, masterKey: Key, entries: Entries, name: string, e: SecretEntry)
    ensures SecretsOf(lib, masterKey, entries[name := e])
         == SecretsOf(lib, masterKey, entries)[name := Unsealed(lib, masterKey, name, e)]
  {
  }

  lemma SecretsRemoved(lib: Library, masterKey: Key, entries: Entries, name: string)
    ensures SecretsOf(lib, masterKey, entries - {name}) == SecretsOf(lib, masterKey, entries) - {name}
  {
  }
}
