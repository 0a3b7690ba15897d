/** Creating, opening and running a persistent vault. */
module Session {
  import opened Common
  import opened Utf8
  import opened VaultHeader
  import opened VaultFile
  import opened FileSystem
  import opened SecretName
  import opened LocalStore

  datatype CreateError = BadSalt | BadParameters(e: HeaderError) | CannotCreate | CannotDerive | CannotSave(cause: SaveError)

  function OpenPath(lib: Library, files: Image, path: string, passphrase: seq<u8>, hardwareKey: Option<seq<u8>>): Result<Opened, OpenError> {
    if path !in files then Err(Missing) else OpenBytes(lib, files[path], passphrase, hardwareKey)
  }

  /** Creates a vault file that does not exist yet, and leaves it open. */
  method Create(disk: Disk, path: string, lib: Library, passphrase: seq<u8>, salt: seq<u8>, params: Argon2Params,
                vdfIterations: u64, hardwareKey: Option<seq<u8>>) returns (r: Result<Store, CreateError>)
    requires disk.Valid() && Lawful(lib)
    modifies disk
    ensures disk.Valid()
    ensures path in old(disk.files) ==> r.Err? && disk.history == old(disk.history)
    ensures |salt| != SALT_LEN ==> r == Err(BadSalt)
    ensures |salt| == SALT_LEN && ValidateKdfParams(params, vdfIterations).Some? ==>
      r == Err(BadParameters(ValidateKdfParams(params, vdfIterations).value)) && disk.history == old(disk.history)
    ensures r.Ok? ==> fresh(r.value) && r.value.Valid() && r.value.disk == disk && r.value.path == path
    ensures r.Ok? ==> r.value.entries == map[] && r.value.Committed() == map[] && r.value.lib == lib
    ensures r.Ok? ==> |salt| == SALT_LEN && r.value.header == Header(salt, params, vdfIterations)
    ensures r.Ok? ==> lib.derive(passphrase, r.value.header, hardwareKey) == Some(r.value.masterKey)
    ensures r.Ok? ==> path in disk.files && ToBytes(r.value.header) <= disk.files[path]
    ensures r.Ok? ==>
      var size := |disk.files[path]|;
      OpenPath(lib, disk.files, path, passphrase, hardwareKey)
        == if size > MAX_VAULT_LEN then Err(TooLarge(size)) else Ok(Opened(r.value.header, r.value.masterKey, map[]))
  {
    if |salt| != SALT_LEN {
      return Err(BadSalt);
    }
    var invalid := ValidateKdfParams(params, vdfIterations);
    if invalid.Some? {
      return Err(BadParameters(invalid.value));
    }
    var reserved := disk.CreateNew(path);
    if !reserved {
      return Err(CannotCreate);
    }
    var header := Header(salt, params, vdfIterations);
    var key := lib.derive(passphrase, header, hardwareKey);
    if !key.Some? {
      return Err(CannotDerive);
    }
    var store := new Store(disk, path, lib, key.value, header, map[]);
    var saved := store.Save();
    if saved.Err? {
      return Err(CannotSave(saved.error));
    }
    ghost var data := disk.files[path];
    HeldOpens(lib, key.value, header, data, map[], passphrase, hardwareKey);
    ParsedIff(data, header, Parsed(data).value.1);
    store.Begin();
    r := Ok(store);
  }

  /** Opens an existing vault; the disk is only read. */
  method Open(disk: Disk, path: string, lib: Library, passphrase: seq<u8>, hardwareKey: Option<seq<u8>>)
    returns (r: Result<Store, OpenError>)
    requires disk.Valid() && Lawful(lib)
    ensures match OpenPath(lib, disk.files, path, passphrase, hardwareKey)
      case Err(e) => r == Err(e)
      case Ok(o) =>
        && r.Ok? && fresh(r.value) && r.value.Valid() && r.value.disk == disk && r.value.path == path
        && r.value.lib == lib && Opened(r.value.header, r.value.masterKey, r.value.entries) == o
        && r.value.Committed() == o.entries
  {
    if path !in disk.files {
      return Err(Missing);
    }
    var data := disk.files[path];
    if |data| > MAX_VAULT_LEN {
      return Err(TooLarge(|data|));
    }
    var parsed := Parse(data);
    if parsed.Err? {
      return Err(BadHeader(parsed.error));
    }
    var (header, ciphertext) := parsed.value;
    var key := lib.derive(passphrase, header, hardwareKey);
    if !key.Some? {
      return Err(NoKey);
    }
    var plain := lib.decryptAad(key.value, ciphertext, ToBytes(header));
    if !plain.Some? {
      return Err(BadCiphertext);
    }
    var payload := lib.deserialize(plain.value);
    if !payload.Some? {
      return Err(BadPayload);
    }
    var entries := InsertAll(payload.value);
    OpenedHolds(lib, data, passphrase, hardwareKey);
    ParsedIff(data, header, ciphertext);
    var store := new Store(disk, path, lib, key.value, header, entries);
    store.Begin();
    r := Ok(store);
  }

  method InsertAll(es: seq<SecretEntry>) returns (entries: Entries)
    ensures entries == FromEntries(es)
  {
    entries := map[];
    for i := 0 to |es|
      invariant entries == FromEntries(es[..i])
    {
      assert es[..i + 1][..i] == es[..i];
      entries := entries[es[i].name := es[i]];
    }
    assert es[..|es|] == es;
  }

  /** Every image since birth, opened with the right passphrase, is exactly the vault of the last
      completed rename, unless it has grown past the length limit. */
  lemma CrashRecovers(store: Store, passphrase: seq<u8>, hardwareKey: Option<seq<u8>>, i: nat)
    requires store.Valid() && store.born <= i < |store.log|
    requires store.lib.derive(passphrase, store.header, hardwareKey) == Some(store.masterKey)
    ensures store.path in store.disk.history[i]
    ensures var data := store.disk.history[i][store.path];
      OpenBytes(store.lib, data, passphrase, hardwareKey)
        == if |data| > MAX_VAULT_LEN then Err(TooLarge(|data|))
           else Ok(Opened(store.header, store.masterKey, store.log[i]))
  {
    assert store.Complete(store.disk.history[i], store.log[i]);
    HeldOpens(store.lib, store.masterKey, store.header, store.disk.history[i][store.path], store.log[i],
              passphrase, hardwareKey);
  }

  // ----- crashes in the middle of a run

  /** The ghost log and the map in memory, between two operations. */
  datatype Moment = Moment(log: seq<Entries>, entries: Entries)

  ghost function Now(store: Store): Moment
    reads store
  {
    Moment(store.log, store.entries)
  }

  /** The map of the last completed rename. */
  function CommittedAt(m: Moment): Entries
    requires m.log != []
  {
    m.log[|m.log| - 1]
  }

  /** How a run leaves its traces in the log; saved[k] tells whether operation k answers that it has
      written the map in memory to the file. */
  ghost predicate LogRun(moments: seq<Moment>, saved: seq<bool>) {
    && |moments| == |saved| + 1 && moments[0].log != []
    && forall k :: 0 <= k < |saved| ==> Traced(moments[k], moments[k + 1], saved[k])
  }

  ghost predicate Traced(m: Moment, n: Moment, saved: bool) {
    m.log != [] && Logged(m.log, n.log, saved, n.entries)
  }

  lemma LogRunGrows(moments: seq<Moment>, saved: seq<bool>, n: Moment, ok: bool)
    requires LogRun(moments, saved) && Traced(moments[|saved|], n, ok)
    ensures LogRun(moments + [n], saved + [ok])
  {
  }

  /** The file holds the map in memory after an operation that answers that it has saved, and what
      it held before otherwise. */
  lemma CommittedNext(moments: seq<Moment>, saved: seq<bool>, k: nat)
    requires LogRun(moments, saved) && k < |saved|
    ensures moments[k].log != [] && moments[k + 1].log != []
    ensures CommittedAt(moments[k + 1]) == if saved[k] then moments[k + 1].entries else CommittedAt(moments[k])
  {
    assert Traced(moments[k], moments[k + 1], saved[k]);
  }

  /** An image shown while operation k ran: the map committed before it, or, once its rename is
      complete, the map in memory that it then answers to have saved. */
  predicate ShownDuring(moments: seq<Moment>, saved: seq<bool>, i: nat, k: nat, m: Entries) {
    && k < |saved| && k + 1 < |moments| && moments[k].log != []
    && |moments[k].log| <= i < |moments[k + 1].log|
    && m == if saved[k] && i == |moments[k + 1].log| - 1 then moments[k + 1].entries else CommittedAt(moments[k])
  }

  /** Every image of the run was shown during one of its operations. */
  lemma {:induction false} ImageOfRun(moments: seq<Moment>, saved: seq<bool>, n: nat, i: nat) returns (k: nat)
    requires LogRun(moments, saved) && n <= |saved|
    requires |moments[0].log| <= i < |moments[n].log|
    ensures k < n && ShownDuring(moments, saved, i, k, moments[n].log[i])
  {
    assert Traced(moments[n - 1], moments[n], saved[n - 1]);
    if i < |moments[n - 1].log| {
      k := ImageOfRun(moments, saved, n - 1, i);
    } else {
      k := n - 1;
    }
  }

  /** A crash at any step of any run, reopened with the passphrase: exactly the map committed before
      the operation that was interrupted, or the map that this operation had just put in its place.
      Nothing partial, mixed, older or lost; the one exception is a file past the length limit. */
  lemma CrashDuringRun(store: Store, moments: seq<Moment>, saved: seq<bool>,
                       passphrase: seq<u8>, hardwareKey: Option<seq<u8>>, i: nat) returns (k: nat)
    requires store.Valid() && LogRun(moments, saved) && moments[|saved|] == Now(store)
    requires store.born < |moments[0].log| <= i < |store.log|
    requires store.lib.derive(passphrase, store.header, hardwareKey) == Some(store.masterKey)
    ensures k < |saved| && ShownDuring(moments, saved, i, k, store.log[i])
    ensures store.path in store.disk.history[i]
    ensures var data := store.disk.history[i][store.path];
      OpenBytes(store.lib, data, passphrase, hardwareKey)
        == if |data| > MAX_VAULT_LEN then Err(TooLarge(|data|))
           else Ok(Opened(store.header, store.masterKey, store.log[i]))
  {
    k := ImageOfRun(moments, saved, |saved|, i);
    CrashRecovers(store, passphrase, hardwareKey, i);
  }

  // ----- operations in sequence

  datatype Op = Put(name: string, value: seq<u8>) | Delete(name: string) | Get(name: string)

  datatype Answer = Stored | Removed(existed: bool) | Value(value: Option<seq<u8>>) | Failed(e: StoreError)

  /** The operation has written the map in memory to the file. */
  predicate Durable(answer: Answer) {
    answer.Stored? || answer == Removed(true)
  }

  predicate SaveFailed(answer: Answer) {
    answer.Failed? && answer.e.Save?
  }

  /** What one operation may do: to the secrets in memory, and to every image of the disk. */
  ghost predicate Follows(lib: Library, key: Key, op: Op, answer: Answer, m: Moment, n: Moment) {
    var before, after := SecretsOf(lib, key, m.entries), SecretsOf(lib, key, n.entries);
    && m.log != [] && Logged(m.log, n.log, Durable(answer), n.entries)
    && match op
       case Put(name, value) =>
         && (answer.Stored? || answer.Failed?)
         && (ValidateSecretName(name).Some? <==> answer.Failed? && answer.e.Name?)
         && (if answer.Stored? || SaveFailed(answer) then after == before[name := Some(value)] else n == m)
       case Delete(name) =>
         && (answer == Removed(name in before) || (SaveFailed(answer) && name in before))
         && (if answer == Removed(false) then n == m else after == before - {name})
       case Get(name) =>
         && n == m
         && answer == if name !in before then Value(None)
                      else if before[name].None? then Failed(Unseal) else Value(before[name])
  }

  method Perform(store: Store, op: Op) returns (answer: Answer)
    requires store.Valid()
    modifies store`entries, store`log, store.disk
    ensures store.Valid() && store.born == old(store.born)
    ensures Follows(store.lib, store.masterKey, op, answer, old(Now(store)), Now(store))
  {
    match op
    case Put(name, value) =>
      var r := store.PutSecret(name, value);
      answer := if r.Ok? then Stored else Failed(r.error);
    case Delete(name) =>
      var r := store.DeleteSecret(name);
      answer := if r.Ok? then Removed(r.value) else Failed(r.error);
    case Get(name) =>
      var r := store.GetSecret(name);
      answer := if r.Ok? then Value(r.value) else Failed(r.error);
  }

  ghost predicate History(lib: Library, key: Key, ops: seq<Op>, answers: seq<Answer>, moments: seq<Moment>) {
    && |answers| == |ops| && |moments| == |ops| + 1
    && moments[0].log != []
    && forall k :: 0 <= k < |ops| ==> Follows(lib, key, ops[k], answers[k], moments[k], moments[k + 1])
  }

  /** Any sequence of operations, with any failures. */
  method RunSession(store: Store, ops: seq<Op>) returns (answers: seq<Answer>, ghost moments: seq<Moment>)
    requires store.Valid()
    modifies store`entries, store`log, store.disk
    ensures store.Valid() && store.born == old(store.born)
    ensures History(store.lib, store.masterKey, ops, answers, moments)
    ensures moments[0] == old(Now(store)) && moments[|ops|] == Now(store)
  {
    answers, moments := [], [Now(store)];
    for i := 0 to |ops|
      invariant store.Valid() && store.born == old(store.born)
      invariant History(store.lib, store.masterKey, ops[..i], answers, moments)
      invariant moments[0] == old(Now(store)) && moments[i] == Now(store)
    {
      var answer := Perform(store, ops[i]);
      HistoryGrows(store.lib, store.masterKey, ops[..i], answers, moments, ops[i], answer, Now(store));
      assert ops[..i + 1] == ops[..i] + [ops[i]];
      answers, moments := answers + [answer], moments + [Now(store)];
    }
    assert ops[..|ops|] == ops;
  }

  lemma HistoryGrows(lib: Library, key: Key, ops: seq<Op>, answers: seq<Answer>, moments: seq<Moment>,
                     op: Op, answer: Answer, n: Moment)
    requires History(lib, key, ops, answers, moments)
    requires Follows(lib, key, op, answer, moments[|ops|], n)
    ensures History(lib, key, ops + [op], answers + [answer], moments + [n])
  {
  }

  /** While no save fails, file and memory agree between any two operations. */
  lemma {:induction false} InStep(lib: Library, key: Key, ops: seq<Op>, answers: seq<Answer>, moments: seq<Moment>, k: nat)
    requires History(lib, key, ops, answers, moments) && k <= |ops|
    requires CommittedAt(moments[0]) == moments[0].entries
    requires forall i :: 0 <= i < k ==> !SaveFailed(answers[i])
    ensures moments[k].log != [] && CommittedAt(moments[k]) == moments[k].entries
  {
    if k > 0 {
      InStep(lib, key, ops, answers, moments, k - 1);
      assert Follows(lib, key, ops[k - 1], answers[k - 1], moments[k - 1], moments[k]);
    }
  }

  function Durables(answers: seq<Answer>): (saved: seq<bool>)
    ensures |saved| == |answers|
  {
    seq(|answers|, k requires 0 <= k < |answers| => Durable(answers[k]))
  }

  /** So every crash in the middle of such a run is covered by CrashDuringRun. */
  lemma HistoryIsLogRun(lib: Library, key: Key, ops: seq<Op>, answers: seq<Answer>, moments: seq<Moment>)
    requires History(lib, key, ops, answers, moments)
    ensures LogRun(moments, Durables(answers))
  {
    forall k | 0 <= k < |ops|
      ensures Traced(moments[k], moments[k + 1], Durables(answers)[k])
    {
      assert Follows(lib, key, ops[k], answers[k], moments[k], moments[k + 1]);
    }
  }
}
