/** What every sequence of keys and ticks keeps. */
module InteractionTheorems {
  import opened Common
  import opened Utf8
  import opened Text
  import opened SecretName
  import opened Names
  import opened Interaction
  import E = Editor

  /** The name that an add or import flow is about to store. */
  function Pending(mode: Mode): Option<string> {
    match mode
    case AddTotpSeed(name, _) => Some(name)
    case EditValue(name, isNew) => if isNew then Some(name) else None
    case Generate(name, isNew, _, _) => if isNew then Some(name) else None
    case ConfirmImport(name, _, _) => Some(name)
    case _ => None
  }

  /** The existing entry that an edit or a deletion is about. */
  function Target(mode: Mode): Option<string> {
    match mode
    case EditValue(name, isNew) => if isNew then None else Some(name)
    case Generate(name, isNew, _, _) => if isNew then None else Some(name)
    case ConfirmDelete(name) => Some(name)
    case _ => None
  }

  predicate IsCount(count: string) {
    |count| <= 4 && forall i :: 0 <= i < |count| ==> IsDigit(count[i])
  }

  /** Holds whatever fails. */
  ghost predicate Sane(s: State) {
    && (s.vault.Some? <==> !s.mode.Unlock? && !s.mode.CreateVault?)
    && s.index < TABS
    && (s.selected < |s.names| || (s.selected == 0 && s.names == []))
    && Increasing(s.names)
    && (s.vault.None? ==> s == Locked(s).(mode := s.mode))
    && (Pending(s.mode).Some? ==> Pending(s.mode).value !in s.names)
    && (Target(s.mode).Some? ==> Target(s.mode).value in s.names)
    && (s.mode.Generate? ==> IsCount(s.mode.count))
  }

  /** The list shows exactly the names in the vault, in order. */
  ghost predicate InSync(s: State) {
    s.vault.Some? ==> s.names == Listed(s.vault.value.Keys)
  }

  lemma ListedIn(keys: set<string>, n: string)
    ensures n in Listed(keys) <==> n in keys
  {
    assert n in Listed(keys) <==> n in Elements(Listed(keys));
  }

  // ----- every step

  lemma TotpKeepsSane(s: State, name: string, input: string, uri: Option<string>, put: Saving)
    requires Sane(s) && s.mode == AddTotpSeed(name, input)
    ensures Sane(TotpEntered(s, name, input, uri, put)) && Sane(TotpMinted(s, name, uri, put))
  {
  }

  lemma AddTotpSeedKeepsSane(s: State, name: string, input: string, key: Key, e: Surroundings)
    requires Sane(s) && s.mode == AddTotpSeed(name, input)
    ensures Sane(InAddTotpSeed(s, name, input, key, e))
  {
    if IsCtrl(key, 'g') {
      TotpKeepsSane(s, name, input, MintedUri(e.random20, name), e.put);
    } else if key.code.Enter? {
      TotpKeepsSane(s, name, input, TypedUri(input, name), e.put);
    }
  }

  lemma EditKeepsSane(s: State, name: string, isNew: bool, key: Key, e: Surroundings)
    requires Sane(s) && s.mode == EditValue(name, isNew)
    ensures Sane(InEdit(s, name, isNew, key, e))
  {
  }

  lemma GenerateKeepsSane(s: State, name: string, isNew: bool, words: bool, count: string, key: Key, e: Surroundings)
    requires Sane(s) && s.mode == Generate(name, isNew, words, count)
    ensures Sane(InGenerate(s, name, isNew, words, count, key, e))
  {
  }

  lemma ImportKeepsSane(s: State, name: string, secret: seq<u8>, sas: string, key: Key, e: Surroundings)
    requires Sane(s) && s.mode == ConfirmImport(name, secret, sas)
    ensures Sane(InConfirmImport(s, name, secret, key, e))
  {
  }

  lemma DeleteKeepsSane(s: State, name: string, key: Key, e: Surroundings)
    requires Sane(s) && s.mode == ConfirmDelete(name)
    ensures Sane(InConfirmDelete(s, name, key, e))
  {
  }

  lemma BrowseKeepsSane(s: State, key: Key, e: Surroundings)
    requires Sane(s) && s.mode.Browse?
    ensures Sane(InBrowse(s, key, e))
  {
  }

  lemma PassphraseKeepsSane(s: State, key: Key, e: Surroundings)
    requires Sane(s) && s.vault.None?
    ensures Sane(Stepped(s, key, e))
  {
  }

  lemma StepKeepsSane(s: State, key: Key, e: Surroundings)
    requires Sane(s) && s.qr.None?
    ensures Sane(Stepped(s, key, e))
  {
    match s.mode
    case Unlock(_) => PassphraseKeepsSane(s, key, e);
    case CreateVault(_, _, _) => PassphraseKeepsSane(s, key, e);
    case Browse => BrowseKeepsSane(s, key, e);
    case AddName(_) =>
    case AddTotpName(_) =>
    case AddTotpSeed(name, input) => AddTotpSeedKeepsSane(s, name, input, key, e);
    case EditValue(name, isNew) => EditKeepsSane(s, name, isNew, key, e);
    case Generate(name, isNew, words, count) => GenerateKeepsSane(s, name, isNew, words, count, key, e);
    case ConfirmDelete(name) => DeleteKeepsSane(s, name, key, e);
    case ConfirmImport(name, secret, sas) => ImportKeepsSane(s, name, secret, sas, key, e);
  }

  lemma KeyKeepsSane(s: State, key: Key, e: Surroundings)
    requires Sane(s)
    ensures Sane(Handled(s, key, e))
  {
    if s.qr.None? {
      StepKeepsSane(s.(lastActivity := e.now), key, e);
    }
  }

  lemma PassKeepsSane(s: State, p: Pass)
    requires Sane(s)
    ensures Sane(Passed(s, p))
  {
    if p.key.Some? {
      KeyKeepsSane(s, p.key.value, p.e);
    }
  }

  // ----- what a key does to the vault

  datatype Change = Keep | Close | Open(v: Secrets) | Write(name: string, value: seq<u8>) | Remove(name: string)

  function WriteOf(name: string, uri: Option<string>): Change {
    if uri.Some? then Write(name, Encode(uri.value)) else Keep
  }

  function TotpChange(name: string, input: string, key: Key, e: Surroundings): Change {
    if IsCtrl(key, 'g') then WriteOf(name, MintedUri(e.random20, name))
    else if key.code.Enter? then WriteOf(name, TypedUri(input, name)) else Keep
  }

  /** The only keys that touch the vault. */
  function ChangeBy(s: State, key: Key, e: Surroundings): Change {
    if IsCtrl(key, 'c') then Keep
    else if IsCtrl(key, 'l') then Close
    else if s.qr.Some? then Keep
    else
      match s.mode
      case Unlock(input) => if key.code.Enter? && e.open(input).Some? then Open(e.open(input).value) else Keep
      case CreateVault(pass, confirm, confirming) =>
        if key.code.Enter? && confirming && pass != "" && pass == confirm && e.created then Open(map[]) else Keep
      case AddTotpSeed(name, input) => TotpChange(name, input, key, e)
      case EditValue(name, _) => if IsCtrl(key, 's') then Write(name, s.editor) else Keep
      case ConfirmDelete(name) => if IsYes(key.code) then Remove(name) else Keep
      case ConfirmImport(name, secret, _) => if IsYes(key.code) then Write(name, secret) else Keep
      case _ => Keep
  }

  function Effect(vault: Option<Secrets>, change: Change, put: Saving): Option<Secrets> {
    match change
    case Keep => vault
    case Close => None
    case Open(v) => Some(v)
    case Write(name, value) => if vault.Some? then Some(Written(vault.value, name, value, put)) else None
    case Remove(name) => if vault.Some? then Some(vault.value - {name}) else None
  }

  lemma TotpEffect(s: State, name: string, input: string, uri: Option<string>, put: Saving)
    ensures TotpMinted(s, name, uri, put).vault == Effect(s.vault, WriteOf(name, uri), put)
    ensures TotpEntered(s, name, input, uri, put).vault == Effect(s.vault, WriteOf(name, uri), put)
  {
  }

  lemma AddTotpSeedEffect(s: State, name: string, input: string, key: Key, e: Surroundings)
    ensures InAddTotpSeed(s, name, input, key, e).vault == Effect(s.vault, TotpChange(name, input, key, e), e.put)
  {
    if IsCtrl(key, 'g') {
      TotpEffect(s, name, input, MintedUri(e.random20, name), e.put);
    } else if key.code.Enter? {
      TotpEffect(s, name, input, TypedUri(input, name), e.put);
    }
  }

  lemma EditEffect(s: State, name: string, isNew: bool, key: Key, e: Surroundings)
    ensures InEdit(s, name, isNew, key, e).vault
         == Effect(s.vault, if IsCtrl(key, 's') then Write(name, s.editor) else Keep, e.put)
  {
  }

  lemma DeleteEffect(s: State, name: string, key: Key, e: Surroundings)
    ensures InConfirmDelete(s, name, key, e).vault == Effect(s.vault, if IsYes(key.code) then Remove(name) else Keep, e.put)
  {
  }

  lemma ImportEffect(s: State, name: string, secret: seq<u8>, key: Key, e: Surroundings)
    ensures InConfirmImport(s, name, secret, key, e).vault == Effect(s.vault, if IsYes(key.code) then Write(name, secret) else Keep, e.put)
  {
  }

  lemma NamingEffect(s: State, key: Key, e: Surroundings)
    requires (s.mode.AddName? || s.mode.AddTotpName? || s.mode.Generate?) && s.qr.None? && !IsCtrl(key, 'c') && !IsCtrl(key, 'l')
    ensures Stepped(s, key, e).vault == s.vault && ChangeBy(s, key, e) == Keep
  {
  }

  lemma PassphraseEffect(s: State, key: Key, e: Surroundings)
    requires (s.mode.Unlock? || s.mode.CreateVault?) && s.qr.None? && !IsCtrl(key, 'c') && !IsCtrl(key, 'l')
    ensures Stepped(s, key, e).vault == Effect(s.vault, ChangeBy(s, key, e), e.put)
  {
  }

  lemma BrowseEffect(s: State, key: Key, e: Surroundings)
    ensures InBrowse(s, key, e).vault == s.vault
  {
  }

  lemma StepEffect(s: State, key: Key, e: Surroundings)
    requires s.qr.None? && !IsCtrl(key, 'c') && !IsCtrl(key, 'l')
    ensures Stepped(s, key, e).vault == Effect(s.vault, ChangeBy(s, key, e), e.put)
  {
    match s.mode
    case Unlock(_) => PassphraseEffect(s, key, e);
    case CreateVault(_, _, _) => PassphraseEffect(s, key, e);
    case Browse => BrowseEffect(s, key, e);
    case AddTotpSeed(name, input) => AddTotpSeedEffect(s, name, input, key, e);
    case EditValue(name, isNew) => EditEffect(s, name, isNew, key, e);
    case ConfirmDelete(name) => DeleteEffect(s, name, key, e);
    case ConfirmImport(name, secret, _) => ImportEffect(s, name, secret, key, e);
    case _ => NamingEffect(s, key, e);
  }

  lemma KeyEffect(s: State, key: Key, e: Surroundings)
    ensures Handled(s, key, e).vault == Effect(s.vault, ChangeBy(s, key, e), e.put)
  {
    if !IsCtrl(key, 'c') && !IsCtrl(key, 'l') && s.qr.None? {
      StepEffect(s.(lastActivity := e.now), key, e);
      SameChange(s, key, e);
    }
  }

  lemma SameChange(s: State, key: Key, e: Surroundings)
    ensures ChangeBy(s.(lastActivity := e.now), key, e) == ChangeBy(s, key, e)
  {
  }

  // ----- what a key does to the list of names

  predicate Refreshes(s: State, change: Change, e: Surroundings) {
    match change
    case Keep => false
    case Close => false
    case Open(_) => true
    case Write(name, _) => Accepts(s, name, e.put)
    case Remove(name) => DeleteGoesThrough(s, name, e.deleteSaved)
  }

  ghost function NamesAfter(s: State, change: Change, e: Surroundings): seq<string> {
    var after := Effect(s.vault, change, e.put);
    if change.Close? then []
    else if Refreshes(s, change, e) && after.Some? then Listed(after.value.Keys)
    else s.names
  }

  lemma TotpNames(s: State, name: string, input: string, uri: Option<string>, put: Saving, e: Surroundings)
    requires e.put == put
    ensures TotpMinted(s, name, uri, put).names == NamesAfter(s, WriteOf(name, uri), e)
    ensures TotpEntered(s, name, input, uri, put).names == NamesAfter(s, WriteOf(name, uri), e)
  {
  }

  lemma AddTotpSeedNames(s: State, name: string, input: string, key: Key, e: Surroundings)
    ensures InAddTotpSeed(s, name, input, key, e).names == NamesAfter(s, TotpChange(name, input, key, e), e)
  {
    if IsCtrl(key, 'g') {
      TotpNames(s, name, input, MintedUri(e.random20, name), e.put, e);
    } else if key.code.Enter? {
      TotpNames(s, name, input, TypedUri(input, name), e.put, e);
    }
  }

  lemma EditNames(s: State, name: string, isNew: bool, key: Key, e: Surroundings)
    ensures InEdit(s, name, isNew, key, e).names
         == NamesAfter(s, if IsCtrl(key, 's') then Write(name, s.editor) else Keep, e)
  {
  }

  lemma BrowseNames(s: State, key: Key, e: Surroundings)
    ensures InBrowse(s, key, e).names == s.names
  {
  }

  lemma PassphraseNames(s: State, key: Key, e: Surroundings)
    requires (s.mode.Unlock? || s.mode.CreateVault?) && s.qr.None? && !IsCtrl(key, 'c') && !IsCtrl(key, 'l')
    ensures Stepped(s, key, e).names == NamesAfter(s, ChangeBy(s, key, e), e)
  {
  }

  lemma DeleteNames(s: State, name: string, key: Key, e: Surroundings)
    ensures InConfirmDelete(s, name, key, e).names == NamesAfter(s, if IsYes(key.code) then Remove(name) else Keep, e)
  {
  }

  lemma ImportNames(s: State, name: string, secret: seq<u8>, key: Key, e: Surroundings)
    ensures InConfirmImport(s, name, secret, key, e).names == NamesAfter(s, if IsYes(key.code) then Write(name, secret) else Keep, e)
  {
  }

  lemma NamingNames(s: State, key: Key, e: Surroundings)
    requires (s.mode.AddName? || s.mode.AddTotpName? || s.mode.Generate?) && s.qr.None? && !IsCtrl(key, 'c') && !IsCtrl(key, 'l')
    ensures Stepped(s, key, e).names == s.names && ChangeBy(s, key, e) == Keep
  {
  }

  lemma StepNames(s: State, key: Key, e: Surroundings)
    requires s.qr.None? && !IsCtrl(key, 'c') && !IsCtrl(key, 'l')
    ensures Stepped(s, key, e).names == NamesAfter(s, ChangeBy(s, key, e), e)
  {
    match s.mode
    case Unlock(_) => PassphraseNames(s, key, e);
    case CreateVault(_, _, _) => PassphraseNames(s, key, e);
    case Browse => BrowseNames(s, key, e);
    case AddTotpSeed(name, input) => AddTotpSeedNames(s, name, input, key, e);
    case EditValue(name, isNew) => EditNames(s, name, isNew, key, e);
    case ConfirmDelete(name) => DeleteNames(s, name, key, e);
    case ConfirmImport(name, secret, _) => ImportNames(s, name, secret, key, e);
    case _ => NamingNames(s, key, e);
  }

  lemma KeyNames(s: State, key: Key, e: Surroundings)
    ensures Handled(s, key, e).names == NamesAfter(s, ChangeBy(s, key, e), e)
  {
    if !IsCtrl(key, 'c') && !IsCtrl(key, 'l') && s.qr.None? {
      StepNames(s.(lastActivity := e.now), key, e);
      SameChange(s, key, e);
    }
  }

  /** A save failed in a way that parts the vault in memory from the list: a new name was written,
      or a present one removed. */
  predicate Desyncs(s: State, change: Change, e: Surroundings) {
    match change
    case Write(name, _) =>
      s.vault.Some? && name !in s.vault.value && ValidateSecretName(name).None? && e.put.NotSaved?
    case Remove(name) => s.vault.Some? && name in s.vault.value && !e.deleteSaved
    case _ => false
  }

  /** The list stays right exactly when no save fails in that way; and the next successful
      operation sets it right again, however wrong it was. */
  lemma SyncKeptIff(s: State, key: Key, e: Surroundings)
    requires Sane(s)
    ensures InSync(s) ==> (InSync(Handled(s, key, e)) <==> !Desyncs(s, ChangeBy(s, key, e), e))
    ensures Refreshes(s, ChangeBy(s, key, e), e) ==> InSync(Handled(s, key, e))
  {
    KeyEffect(s, key, e);
    KeyNames(s, key, e);
    var t, change := Handled(s, key, e), ChangeBy(s, key, e);
    match change
    case Write(name, value) =>
      if Desyncs(s, change, e) && InSync(s) {
        ListedIn(s.vault.value.Keys, name);
        ListedIn(t.vault.value.Keys, name);
      } else if s.vault.Some? && !Accepts(s, name, e.put) {
        assert t.vault.value.Keys == s.vault.value.Keys || Desyncs(s, change, e);
      }
    case Remove(name) =>
      if Desyncs(s, change, e) && InSync(s) {
        ListedIn(s.vault.value.Keys, name);
        ListedIn(t.vault.value.Keys, name);
      }
    case _ =>
  }

  /** A save that fails can leave the list wrong: a new entry is in the vault and not in the list. */
  lemma FailedSaveDesyncs() returns (s: State, key: Key, e: Surroundings)
    ensures Sane(s) && InSync(s) && !InSync(Handled(s, key, e))
  {
    s := State(EditValue("k", true), 0, 0, [], Some(map[]), [], None, None, None, 0, 0);
    key := Key(Char('s'), true);
    e := Surroundings(0, _ => None, true, NotSaved, true, None, None, "", None, (_, _) => None);
    OneLetterIsValid('k');
    SyncKeptIff(s, key, e);
  }

  // ----- whole runs

  function PassChange(s: State, p: Pass): Change {
    if p.key.None? then Keep else ChangeBy(s, p.key.value, p.e)
  }

  ghost predicate SavesSucceed(passes: seq<Pass>) {
    forall i :: 0 <= i < |passes| ==> !passes[i].e.put.NotSaved? && passes[i].e.deleteSaved
  }

  lemma PassSync(s: State, p: Pass)
    requires Sane(s) && InSync(s) && !Desyncs(s, PassChange(s, p), p.e)
    ensures InSync(Passed(s, p))
  {
    if p.key.Some? {
      SyncKeptIff(s, p.key.value, p.e);
    }
  }

  /** What a pass does to an open vault that stays open. */
  lemma PassEffect(s: State, p: Pass)
    requires Passed(s, p).vault.Some?
    ensures Passed(s, p).vault == Effect(s.vault, PassChange(s, p), p.e.put)
  {
    if p.key.Some? {
      KeyEffect(s, p.key.value, p.e);
    }
  }

  lemma RunGrows(states: seq<State>, passes: seq<Pass>, n: nat, t: State)
    requires n < |passes| && Run(states, passes[..n]) && t == Passed(states[n], passes[n])
    ensures Run(states + [t], passes[..n + 1])
  {
    var longer, done := states + [t], passes[..n + 1];
    forall i | 0 <= i <= n
      ensures FollowsAt(longer, done, i)
    {
      assert i < n ==> FollowsAt(states, passes[..n], i);
    }
  }

  /** The invariants hold throughout every run from a sane state; while saves succeed the list is
      the sorted set of names in the vault, and no pending name is in the vault. */
  lemma {:induction false} RunInvariant(states: seq<State>, passes: seq<Pass>, i: nat)
    requires Run(states, passes) && i < |states| && Sane(states[0])
    ensures Sane(states[i])
    ensures InSync(states[0]) && SavesSucceed(passes) ==> InSync(states[i])
    ensures InSync(states[0]) && SavesSucceed(passes) ==> PendingIsNew(states[i])
  {
    if i > 0 {
      RunInvariant(states, passes, i - 1);
      assert FollowsAt(states, passes, i - 1);
      PassKeepsSane(states[i - 1], passes[i - 1]);
      if InSync(states[0]) && SavesSucceed(passes) {
        PassSync(states[i - 1], passes[i - 1]);
      }
    }
    SyncedPendingIsNew(states[i]);
  }

  predicate PendingIsNew(s: State) {
    s.vault.Some? && Pending(s.mode).Some? ==> Pending(s.mode).value !in s.vault.value
  }

  lemma SyncedPendingIsNew(s: State)
    requires Sane(s)
    ensures InSync(s) ==> PendingIsNew(s)
  {
    if s.vault.Some? && Pending(s.mode).Some? {
      ListedIn(s.vault.value.Keys, Pending(s.mode).value);
    }
  }

  /** The front end starts sane and in sync, with or without a vault file. */
  lemma InitialIsSane(vaultExists: bool, now: nat, idleTimeout: nat)
    ensures Sane(Initial(vaultExists, now, idleTimeout)) && InSync(Initial(vaultExists, now, idleTimeout))
  {
  }

  // ----- the vault along a run

  /** The vaults of a run, as far as they follow from the changes made. */
  ghost predicate VaultRun(vaults: seq<Option<Secrets>>, changes: seq<Change>, puts: seq<Saving>) {
    && |vaults| == |changes| + 1 == |puts| + 1
    && forall k :: 0 <= k < |changes| && vaults[k + 1].Some? ==> vaults[k + 1] == Effect(vaults[k], changes[k], puts[k])
  }

  function Vaults(states: seq<State>): seq<Option<Secrets>> {
    seq(|states|, k requires 0 <= k < |states| => states[k].vault)
  }

  function Changes(states: seq<State>, passes: seq<Pass>): seq<Change>
    requires |passes| <= |states|
  {
    seq(|passes|, k requires 0 <= k < |passes| => PassChange(states[k], passes[k]))
  }

  function Puts(passes: seq<Pass>): seq<Saving> {
    seq(|passes|, k requires 0 <= k < |passes| => passes[k].e.put)
  }

  lemma RunIsVaultRun(states: seq<State>, passes: seq<Pass>)
    requires Run(states, passes)
    ensures VaultRun(Vaults(states), Changes(states, passes), Puts(passes))
  {
    forall k | 0 <= k < |passes| && states[k + 1].vault.Some?
      ensures states[k + 1].vault == Effect(states[k].vault, Changes(states, passes)[k], Puts(passes)[k])
    {
      assert FollowsAt(states, passes, k);
      PassEffect(states[k], passes[k]);
    }
  }

  ghost predicate OpenDuring(vaults: seq<Option<Secrets>>, i: nat, j: nat) {
    forall k :: i <= k <= j && k < |vaults| ==> vaults[k].Some?
  }

  predicate Touches(change: Change, n: string) {
    (change.Write? || change.Remove?) && change.name == n
  }

  ghost predicate Same(a: Option<Secrets>, b: Option<Secrets>, n: string) {
    a.Some? && b.Some? && n in a.value && n in b.value && a.value[n] == b.value[n]
  }

  lemma {:induction false} Undisturbed(vaults: seq<Option<Secrets>>, changes: seq<Change>, puts: seq<Saving>, i: nat, j: nat, n: string)
    requires VaultRun(vaults, changes, puts) && i <= j < |vaults| && OpenDuring(vaults, i, j) && n in vaults[i].value
    requires forall k :: i <= k < j ==> !changes[k].Open? && (n in vaults[k].value ==> !Touches(changes[k], n))
    ensures Same(vaults[i], vaults[j], n)
    decreases j - i
  {
    if i < j {
      assert vaults[j] == Effect(vaults[j - 1], changes[j - 1], puts[j - 1]);
      Undisturbed(vaults, changes, puts, i, j - 1, n);
    }
  }

  predicate WroteAt(changes: seq<Change>, k: nat, n: string, v: Option<seq<u8>>) {
    k < |changes| && v.Some? && changes[k] == Write(n, v.value)
  }

  lemma {:induction false} ValueHasSource(vaults: seq<Option<Secrets>>, changes: seq<Change>, puts: seq<Saving>, i: nat, j: nat, n: string)
    requires VaultRun(vaults, changes, puts) && i <= j < |vaults| && OpenDuring(vaults, i, j) && n in vaults[j].value
    requires forall k :: i <= k < j ==> !changes[k].Open?
    ensures Same(vaults[i], vaults[j], n) || exists k :: i <= k < j && WroteAt(changes, k, n, vaults[j].value[n])
    decreases j - i
  {
    assert i < j ==> vaults[j] == Effect(vaults[j - 1], changes[j - 1], puts[j - 1]);
    if i < j && !WroteAt(changes, j - 1, n, vaults[j].value[n]) {
      ValueHasSource(vaults, changes, puts, i, j - 1, n);
    }
  }

  /** The user saves an edit of an existing entry, or confirms its deletion. */
  predicate Alters(s: State, p: Pass, n: string) {
    p.key.Some? && s.qr.None?
    && ((s.mode == EditValue(n, false) && IsCtrl(p.key.value, 's')) || (s.mode == ConfirmDelete(n) && IsYes(p.key.value.code)))
  }

  lemma OnlyAltersTouch(s: State, p: Pass, n: string)
    requires Sane(s) && s.vault.Some?
    ensures !PassChange(s, p).Open?
    ensures PendingIsNew(s) && n in s.vault.value && !Alters(s, p, n) ==> !Touches(PassChange(s, p), n)
  {
  }

  /** No add or import flow overwrites: while saves succeed, an entry of the open vault keeps its value
      unless the user saves an edit of that very entry or confirms its deletion. */
  lemma NothingOverwritten(states: seq<State>, passes: seq<Pass>, i: nat, j: nat, n: string)
    requires Run(states, passes) && Sane(states[0]) && InSync(states[0]) && SavesSucceed(passes)
    requires i <= j < |states| && OpenDuring(Vaults(states), i, j) && n in Vaults(states)[i].value
    requires forall k {:trigger Alters(states[k], passes[k], n)} :: i <= k < j ==> !Alters(states[k], passes[k], n)
    ensures Same(Vaults(states)[i], Vaults(states)[j], n)
  {
    var vaults, changes, puts := Vaults(states), Changes(states, passes), Puts(passes);
    RunIsVaultRun(states, passes);
    forall k | i <= k < j
      ensures !changes[k].Open? && (n in vaults[k].value ==> !Touches(changes[k], n))
    {
      assert vaults[k].Some?;
      RunInvariant(states, passes, k);
      OnlyAltersTouch(states[k], passes[k], n);
    }
    Undisturbed(vaults, changes, puts, i, j, n);
  }

  /** Every value in the vault was there before, or a key of the user wrote it, whatever failed. */
  lemma Provenance(states: seq<State>, passes: seq<Pass>, i: nat, j: nat, n: string)
    requires Run(states, passes) && Sane(states[0])
    requires i <= j < |states| && OpenDuring(Vaults(states), i, j) && n in Vaults(states)[j].value
    ensures Same(Vaults(states)[i], Vaults(states)[j], n)
      || exists k :: i <= k < j && WroteAt(Changes(states, passes), k, n, Vaults(states)[j].value[n])
  {
    var vaults, changes, puts := Vaults(states), Changes(states, passes), Puts(passes);
    RunIsVaultRun(states, passes);
    forall k | i <= k < j
      ensures !changes[k].Open?
    {
      assert vaults[k].Some?;
      RunInvariant(states, passes, k);
      OnlyAltersTouch(states[k], passes[k], n);
    }
    ValueHasSource(vaults, changes, puts, i, j, n);
  }

  // ----- across locks

  /** The vault in the file after a change, given the one before it. */
  function FileAfter(file: Secrets, s: State, change: Change, e: Surroundings): Secrets {
    match change
    case Open(v) => if s.mode.CreateVault? then v else file
    case Write(name, value) => if Accepts(s, name, e.put) then s.vault.value[name := Some(value)] else file
    case Remove(name) => if s.vault.Some? && name in s.vault.value && e.deleteSaved then s.vault.value - {name} else file
    case _ => file
  }

  /** Unlocking opens that file. */
  predicate OpensFile(file: Secrets, s: State, p: Pass) {
    PassChange(s, p).Open? && s.mode.Unlock? ==> PassChange(s, p).v == file
  }

  /** files[k] is in the file when the run is in states[k]. */
  ghost predicate FileRun(states: seq<State>, passes: seq<Pass>, files: seq<Secrets>) {
    && Run(states, passes) && |files| == |states| && Sane(states[0])
    && (states[0].vault.Some? ==> states[0].vault.value == files[0])
    && forall k :: 0 <= k < |passes| ==> FileStep(states[k], passes[k], files[k], files[k + 1])
  }

  ghost predicate FileStep(s: State, p: Pass, file: Secrets, next: Secrets) {
    OpensFile(file, s, p) && next == FileAfter(file, s, PassChange(s, p), p.e)
  }

  lemma ChangeKept(s: State, change: Change, e: Surroundings, file: Secrets)
    requires (s.vault.Some? ==> s.vault.value == file) && (change.Open? && !s.mode.CreateVault? ==> change.v == file)
    requires !e.put.NotSaved? && e.deleteSaved
    ensures Effect(s.vault, change, e.put).Some? ==> Effect(s.vault, change, e.put).value == FileAfter(file, s, change, e)
  {
    if change.Remove? && s.vault.Some? && change.name !in s.vault.value {
      assert s.vault.value - {change.name} == s.vault.value;
    }
  }

  lemma OpensInTwoModes(s: State, p: Pass)
    requires PassChange(s, p).Open?
    ensures s.mode.Unlock? || s.mode.CreateVault?
  {
  }

  lemma FileKept(s: State, p: Pass, file: Secrets)
    requires OpensFile(file, s, p) && (s.vault.Some? ==> s.vault.value == file)
    requires !p.e.put.NotSaved? && p.e.deleteSaved
    ensures Passed(s, p).vault.Some? ==> Passed(s, p).vault.value == FileAfter(file, s, PassChange(s, p), p.e)
  {
    if Passed(s, p).vault.Some? {
      PassEffect(s, p);
      if PassChange(s, p).Open? {
        OpensInTwoModes(s, p);
      }
      ChangeKept(s, PassChange(s, p), p.e, file);
    }
  }

  /** While saves succeed, an open vault is exactly what the file holds; so an unlock after any lock
      shows the vault as it was last saved. */
  lemma {:induction false} OpenVaultIsFile(states: seq<State>, passes: seq<Pass>, files: seq<Secrets>, i: nat)
    requires FileRun(states, passes, files) && SavesSucceed(passes) && i < |states|
    ensures states[i].vault.Some? ==> states[i].vault.value == files[i]
  {
    if i > 0 {
      OpenVaultIsFile(states, passes, files, i - 1);
      RunInvariant(states, passes, i - 1);
      assert FollowsAt(states, passes, i - 1);
      assert FileStep(states[i - 1], passes[i - 1], files[i - 1], files[i]);
      FileKept(states[i - 1], passes[i - 1], files[i - 1]);
    }
  }

  lemma UnlockNotToCreate(s: State, key: Key, e: Surroundings)
    requires s.mode.Unlock?
    ensures !Handled(s, key, e).mode.CreateVault?
  {
  }

  /** A vault is created only in the mode that the front end may start in, and never returns to. */
  lemma NeverBackToCreate(s: State, p: Pass)
    requires Sane(s) && !s.mode.CreateVault?
    ensures !Passed(s, p).mode.CreateVault?
  {
    if p.key.Some? {
      if s.mode.Unlock? {
        UnlockNotToCreate(s, p.key.value, p.e);
      } else if !IsCtrl(p.key.value, 'l') {
        KeyKeepsSane(s, p.key.value, p.e);
        KeyEffect(s, p.key.value, p.e);
        OpenStaysOpen(s, p.key.value, p.e);
      }
    }
  }

  lemma OpenStaysOpen(s: State, key: Key, e: Surroundings)
    requires Sane(s) && s.vault.Some? && !IsCtrl(key, 'l')
    ensures Effect(s.vault, ChangeBy(s, key, e), e.put).Some?
  {
  }

  lemma {:induction false} NeverCreates(states: seq<State>, passes: seq<Pass>, i: nat, j: nat)
    requires Run(states, passes) && Sane(states[0]) && i <= j < |states| && !states[i].mode.CreateVault?
    ensures !states[j].mode.CreateVault?
    decreases j - i
  {
    if i < j {
      NeverCreates(states, passes, i, j - 1);
      RunInvariant(states, passes, j - 1);
      assert FollowsAt(states, passes, j - 1);
      NeverBackToCreate(states[j - 1], passes[j - 1]);
    }
  }

  /** No add or import flow overwrites, across any number of locks and unlocks: while saves succeed and
      unlocking opens the file, an entry of the file keeps its value unless the user saves an edit
      of that very entry or confirms its deletion. */
  lemma {:induction false} EntriesSurviveLocks(states: seq<State>, passes: seq<Pass>, files: seq<Secrets>, i: nat, j: nat, n: string)
    requires FileRun(states, passes, files) && SavesSucceed(passes) && InSync(states[0])
    requires i <= j < |states| && !states[i].mode.CreateVault? && n in files[i]
    requires forall k {:trigger Alters(states[k], passes[k], n)} :: i <= k < j ==> !Alters(states[k], passes[k], n)
    ensures n in files[j] && files[j][n] == files[i][n]
    decreases j - i
  {
    if i < j {
      var k := j - 1;
      EntriesSurviveLocks(states, passes, files, i, k, n);
      NeverCreates(states, passes, i, k);
      RunInvariant(states, passes, k);
      OpenVaultIsFile(states, passes, files, k);
      assert FileStep(states[k], passes[k], files[k], files[j]);
      FileKeepsEntry(states[k], passes[k], files[k], n);
    }
  }

  lemma FileKeepsEntry(s: State, p: Pass, file: Secrets, n: string)
    requires Sane(s) && PendingIsNew(s) && !s.mode.CreateVault? && (s.vault.Some? ==> s.vault.value == file)
    requires n in file && !Alters(s, p, n)
    ensures var next := FileAfter(file, s, PassChange(s, p), p.e); n in next && next[n] == file[n]
  {
    if s.vault.Some? {
      OnlyAltersTouch(s, p, n);
    }
  }

  // ----- imports

  /** `r` on the network tab, with a bundle for a name that is not listed. */
  predicate Receives(s: State, p: Pass, name: string, secret: seq<u8>) {
    && s.mode.Browse? && s.index == 1 && s.qr.None?
    && p.key.Some? && p.key.value.code == Char('r') && p.e.bundle == Some((name, secret))
    && name !in s.names
  }

  /** Confirming an import happens with no overlay, so the next key decides it. */
  predicate Confirming(s: State, name: string, secret: seq<u8>) {
    s.mode.ConfirmImport? && s.mode.name == name && s.mode.secret == secret && s.qr.None?
  }

  predicate FromBundle(s: State, key: Key, e: Surroundings, t: State)
    requires t.mode.ConfirmImport?
  {
    && Confirming(t, t.mode.name, t.mode.secret) && s.index == 1
    && key.code == Char('r') && e.bundle == Some((t.mode.name, t.mode.secret)) && t.mode.name !in s.names
  }

  lemma BrowseToImport(s: State, key: Key, e: Surroundings)
    requires s.mode.Browse? && s.qr.None?
    ensures var t := InBrowse(s, key, e); t.mode.ConfirmImport? ==> FromBundle(s, key, e, t)
  {
  }

  lemma TotpToImport(s: State, name: string, input: string, uri: Option<string>, put: Saving)
    ensures !TotpMinted(s, name, uri, put).mode.ConfirmImport? && !TotpEntered(s, name, input, uri, put).mode.ConfirmImport?
  {
  }

  lemma AddTotpSeedToImport(s: State, name: string, input: string, key: Key, e: Surroundings)
    ensures !InAddTotpSeed(s, name, input, key, e).mode.ConfirmImport?
  {
    if IsCtrl(key, 'g') {
      TotpToImport(s, name, input, MintedUri(e.random20, name), e.put);
    } else if key.code.Enter? {
      TotpToImport(s, name, input, TypedUri(input, name), e.put);
    }
  }

  lemma PassphraseToImport(s: State, key: Key, e: Surroundings)
    requires s.mode.Unlock? || s.mode.CreateVault?
    ensures !Stepped(s, key, e).mode.ConfirmImport?
  {
  }

  lemma StepToImport(s: State, key: Key, e: Surroundings)
    requires !s.mode.Browse?
    ensures !Stepped(s, key, e).mode.ConfirmImport?
  {
    match s.mode
    case Unlock(_) => PassphraseToImport(s, key, e);
    case CreateVault(_, _, _) => PassphraseToImport(s, key, e);
    case AddTotpSeed(name, input) => AddTotpSeedToImport(s, name, input, key, e);
    case EditValue(name, isNew) => EditToImport(s, name, isNew, key, e);
    case _ =>
  }

  lemma EditToImport(s: State, name: string, isNew: bool, key: Key, e: Surroundings)
    ensures !InEdit(s, name, isNew, key, e).mode.ConfirmImport?
  {
  }

  /** A bundle is up for confirmation only because it was just received, or still is. */
  lemma PassToImport(s: State, p: Pass)
    requires s.mode.ConfirmImport? ==> s.qr.None?
    ensures var t := Passed(s, p); t.mode.ConfirmImport? ==> StillOrJust(s, p, t)
  {
    if p.key.Some? && s.qr.None? {
      var a := s.(lastActivity := p.e.now);
      if s.mode.Browse? {
        BrowseToImport(a, p.key.value, p.e);
      } else {
        StepToImport(a, p.key.value, p.e);
      }
    }
  }

  predicate StillOrJust(s: State, p: Pass, t: State)
    requires t.mode.ConfirmImport?
  {
    && t.qr.None?
    && ((s.mode == t.mode && (p.key.None? || Ends(s, p))) || Receives(s, p, t.mode.name, t.mode.secret))
  }

  /** Bundle (name, secret) was received by pass r, and no key has been pressed since, but to quit. */
  ghost predicate Received(states: seq<State>, passes: seq<Pass>, r: nat, i: nat, name: string, secret: seq<u8>)
    requires i < |states| && |passes| + 1 == |states|
  {
    && r < i && Receives(states[r], passes[r], name, secret)
    && forall k :: r < k < i ==> passes[k].key.None? || Ends(states[k], passes[k])
  }

  lemma {:induction false} ImportWasReceived(states: seq<State>, passes: seq<Pass>, i: nat) returns (r: nat)
    requires Run(states, passes) && i < |states| && !states[0].mode.ConfirmImport? && states[i].mode.ConfirmImport?
    ensures states[i].qr.None? && Received(states, passes, r, i, states[i].mode.name, states[i].mode.secret)
  {
    var s, p := states[i - 1], passes[i - 1];
    assert FollowsAt(states, passes, i - 1);
    if s.mode.ConfirmImport? {
      r := ImportWasReceived(states, passes, i - 1);
      PassToImport(s, p);
    } else {
      PassToImport(s, p);
      r := i - 1;
    }
  }

  /** An imported secret enters the vault only by `y`, as it was received and shown for confirmation. */
  lemma ImportsOnlyByYes(states: seq<State>, passes: seq<Pass>, k: nat) returns (r: nat)
    requires Run(states, passes) && k < |passes| && !states[0].mode.ConfirmImport? && states[k].mode.ConfirmImport?
    requires PassChange(states[k], passes[k]) != Keep && PassChange(states[k], passes[k]) != Close
    ensures IsYes(passes[k].key.value.code)
    ensures PassChange(states[k], passes[k]) == Write(states[k].mode.name, states[k].mode.secret)
    ensures Received(states, passes, r, k, states[k].mode.name, states[k].mode.secret)
  {
    r := ImportWasReceived(states, passes, k);
  }

  // ----- idling

  /** The idle check fires. */
  predicate Fires(s: State, checkedAt: nat) {
    s.idleTimeout > 0 && s.vault.Some? && checkedAt - s.lastActivity >= s.idleTimeout
  }

  /** Without keys the vault stays exactly as it was, until a check finds it idle for too long and locks it. */
  lemma {:induction false} IdleRun(states: seq<State>, passes: seq<Pass>, i: nat)
    requires Run(states, passes) && Sane(states[0]) && i < |states|
    requires forall k :: 0 <= k < i ==> passes[k].key.None?
    ensures states[i] == if exists k :: 0 <= k < i && Fires(states[0], passes[k].checkedAt) then Locked(states[0]) else states[0]
  {
    if i > 0 {
      IdleRun(states, passes, i - 1);
      var s, p := states[i - 1], passes[i - 1];
      assert FollowsAt(states, passes, i - 1);
      assert states[i] == Autolocked(s, p.checkedAt);
      assert Fires(states[0], p.checkedAt) ==> exists k :: 0 <= k < i && Fires(states[0], passes[k].checkedAt);
    }
  }

  // ----- idling and keys

  /** A pass up to its idle check. */
  ghost function BeforeCheck(s: State, p: Pass): State {
    if p.key.Some? then Handled(s, p.key.value, p.e) else s
  }

  /** A key finds the vault open although it has been idle for the whole timeout. */
  predicate IsLate(s: State, p: Pass) {
    p.key.Some? && s.vault.Some? && p.e.now - s.lastActivity >= s.idleTimeout
  }

  /** The idle check comes after the key of its pass, and the key starts the timeout again. So a key
      acts on a vault idle for the whole timeout exactly when the timeout has passed since the check
      before it. */
  lemma LateKeyIff(states: seq<State>, passes: seq<Pass>, i: nat)
    requires Run(states, passes) && Sane(states[0]) && 0 < i < |passes|
    requires passes[i].key.Some? && !Ends(states[i - 1], passes[i - 1])
    requires var t := BeforeCheck(states[i - 1], passes[i - 1]); t.vault.Some? && t.idleTimeout > 0
    ensures var t := BeforeCheck(states[i - 1], passes[i - 1]);
      IsLate(states[i], passes[i]) <==> passes[i - 1].checkedAt < t.lastActivity + t.idleTimeout <= passes[i].e.now
    ensures BeforeCheck(states[i], passes[i]).vault
         == Effect(states[i].vault, PassChange(states[i], passes[i]), passes[i].e.put)
  {
    var s, p := states[i - 1], passes[i - 1];
    RunInvariant(states, passes, i - 1);
    if p.key.Some? {
      KeyKeepsSane(s, p.key.value, p.e);
    }
    assert FollowsAt(states, passes, i - 1);
    assert states[i] == Autolocked(BeforeCheck(s, p), p.checkedAt);
    KeyEffect(states[i], passes[i].key.value, passes[i].e);
  }

  lemma UnlockOpens(s: State, v: Secrets, names: seq<string>, p: Pass)
    requires s.mode.Unlock? && s.qr.None? && s.names == [] && s.selected == 0
    requires p.key == Some(Key(Enter, false)) && p.e.open(s.mode.input) == Some(v) && names == Listed(v.Keys)
    requires s.idleTimeout == 0 || p.checkedAt < p.e.now + s.idleTimeout
    ensures Passed(s, p) == s.(mode := Browse, names := names, vault := Some(v), lastActivity := p.e.now)
  {
  }

  lemma AskToDelete(s: State, p: Pass)
    requires s.mode.Browse? && s.index == 0 && s.qr.None? && s.selected < |s.names|
    requires p.key == Some(Key(Char('d'), false)) && (s.idleTimeout == 0 || p.checkedAt < p.e.now + s.idleTimeout)
    ensures Passed(s, p) == s.(mode := ConfirmDelete(s.names[s.selected]), lastActivity := p.e.now)
  {
  }

  lemma YesDeletes(s: State, p: Pass)
    requires s.mode.ConfirmDelete? && s.vault.Some? && s.qr.None?
    requires p.key == Some(Key(Char('y'), false)) && (s.idleTimeout == 0 || p.checkedAt < p.e.now + s.idleTimeout)
    ensures Passed(s, p).vault == Some(s.vault.value - {s.mode.name})
  {
    KeyEffect(s, p.key.value, p.e);
  }

  lemma Tick(s: State, p: Pass)
    requires p.key.None? && (s.idleTimeout == 0 || p.checkedAt < s.lastActivity + s.idleTimeout)
    ensures Passed(s, p) == s
  {
  }

  /** It does happen, for every timeout: unlock, press `d`, and press `y` just after the timeout, with the
      last idle check just before it. The entry is deleted. */
  lemma LateKeyActs(timeout: nat) returns (states: seq<State>, passes: seq<Pass>)
    requires timeout > 0
    ensures Run(states, passes) && |passes| == 4 && states[0] == Initial(true, 0, timeout)
    ensures passes[2].key.None? && passes[2].checkedAt == timeout - 1 && passes[3].e.now == timeout
    ensures IsLate(states[3], passes[3])
    ensures states[3].vault == Some(map["k" := Some([])]) && states[4].vault == Some(map[])
  {
    var v: Secrets := map["k" := Some([])];
    var e := Surroundings(0, _ => Some(v), true, NotSaved, true, None, None, "", None, (_, _) => None);
    var p0, p1 := Pass(Some(Key(Enter, false)), e, 0), Pass(Some(Key(Char('d'), false)), e, 0);
    var p2, p3 := Pass(None, e, timeout - 1), Pass(Some(Key(Char('y'), false)), e.(now := timeout), timeout);
    var s0 := Initial(true, 0, timeout);
    var s1 := s0.(mode := Browse, names := ["k"], vault := Some(v));
    var s2 := s1.(mode := ConfirmDelete("k"));
    var s4 := Passed(s2, p3);
    SortedIsUnique(["k"], Listed(v.Keys));
    UnlockOpens(s0, v, ["k"], p0);
    AskToDelete(s1, p1);
    Tick(s2, p2);
    YesDeletes(s2, p3);
    assert v - {"k"} == map[];
    passes, states := [p0, p1, p2, p3], [s0, s1, s2, s2, s4];
    assert FollowsAt(states, passes, 0) && FollowsAt(states, passes, 1);
    assert FollowsAt(states, passes, 2) && FollowsAt(states, passes, 3);
  }

  // ----- what is forgotten, and what is kept

  lemma {:induction false} LockedAgree(states: seq<State>, others: seq<State>, passes: seq<Pass>, k: nat, i: nat)
    requires Run(states, passes) && Run(others, passes) && Sane(states[0]) && Sane(others[0])
    requires k <= i < |states| && states[k].mode == Unlock("") && others[k].mode == Unlock("")
    requires states[k].index == others[k].index && states[k].lastActivity == others[k].lastActivity
    requires states[k].idleTimeout == others[k].idleTimeout
    ensures states[i] == others[i]
    decreases i - k
  {
    if k < i {
      LockedAgree(states, others, passes, k, i - 1);
      assert FollowsAt(states, passes, i - 1) && FollowsAt(others, passes, i - 1);
    } else {
      RunInvariant(states, passes, k);
      RunInvariant(others, passes, k);
    }
  }

  lemma LockKeyLocks(s: State, p: Pass)
    requires p.key.Some? && IsCtrl(p.key.value, 'l')
    ensures var t := Passed(s, p);
      t.mode == Unlock("") && t.index == s.index && t.idleTimeout == s.idleTimeout && t.lastActivity == p.e.now
  {
  }

  /** Ctrl-L forgets: in any two sessions on the same tab, whatever they have open, in any mode, nothing
      that ever follows it depends on what was open. */
  lemma LockForgets(states: seq<State>, others: seq<State>, passes: seq<Pass>, k: nat, i: nat)
    requires Run(states, passes) && Run(others, passes) && Sane(states[0]) && Sane(others[0])
    requires k < i < |states| && passes[k].key.Some? && IsCtrl(passes[k].key.value, 'l')
    requires states[k].index == others[k].index && states[k].idleTimeout == others[k].idleTimeout
    ensures states[i] == others[i]
  {
    assert FollowsAt(states, passes, k) && FollowsAt(others, passes, k);
    LockKeyLocks(states[k], passes[k]);
    LockKeyLocks(others[k], passes[k]);
    LockedAgree(states, others, passes, k + 1, i);
  }

  /** Opening an entry with `e` and saving it untouched changes nothing exactly when its value fits
      the editor, or its name is refused. */
  lemma UntouchedEdit(s: State, e: Surroundings, f: Surroundings)
    requires Sane(s) && s.mode.Browse? && s.index == 0 && s.qr.None? && f.put.Stored?
    requires SelectedName(s).Some? && SelectedName(s).value in s.vault.value && s.vault.value[SelectedName(s).value].Some?
    ensures var shown := Handled(s, Key(Char('e'), false), e);
      && shown.vault == s.vault && shown.mode == EditValue(SelectedName(s).value, false)
      && shown.editor <= s.vault.value[SelectedName(s).value].value
    ensures Handled(Handled(s, Key(Char('e'), false), e), Key(Char('s'), true), f).vault == s.vault <==>
      (|s.vault.value[SelectedName(s).value].value| <= E.CAPACITY || ValidateSecretName(SelectedName(s).value).Some?)
  {
    var name := SelectedName(s).value;
    var v := s.vault.value;
    var t := Handled(s, Key(Char('e'), false), e);
    assert t == EditBegun(s.(lastActivity := e.now));
    KeyEffect(t, Key(Char('s'), true), f);
    assert v[name := v[name]] == v;
    assert ValidateSecretName(name).None? ==> Written(v, name, t.editor, f.put)[name] == Some(t.editor);
  }

  // ----- received bundles

  /** The same pass, but for what is received. */
  ghost predicate SameButBundle(p: Pass, q: Pass) {
    q == p.(e := p.e.(bundle := q.e.bundle, fingerprint := q.e.fingerprint))
  }

  /** `r` on the network tab, with a bundle that can be put up for confirmation. */
  predicate Prompts(s: State, p: Pass) {
    && s.mode.Browse? && s.index == 1 && p.key.Some? && p.key.value.code == Char('r')
    && p.e.bundle.Some? && p.e.bundle.value.0 !in s.names
  }

  predicate ConfirmsImport(s: State, p: Pass) {
    s.mode.ConfirmImport? && p.key.Some? && IsYes(p.key.value.code)
  }

  /** Equal, or confirming different bundles. */
  predicate Alike(s: State, t: State) {
    s == t || (s.mode.ConfirmImport? && t.mode.ConfirmImport? && s.qr.None? && t == s.(mode := t.mode))
  }

  lemma StepIgnoresBundle(s: State, key: Key, e: Surroundings, f: Surroundings)
    requires !s.mode.Browse? && f == e.(bundle := f.bundle, fingerprint := f.fingerprint)
    ensures Stepped(s, key, e) == Stepped(s, key, f)
  {
    match s.mode
    case Unlock(_) =>
    case CreateVault(_, _, _) =>
    case AddTotpSeed(name, input) =>
    case EditValue(name, isNew) =>
    case Generate(_, _, _, _) =>
    case _ =>
  }

  lemma BrowseAlike(s: State, p: Pass, q: Pass)
    requires s.mode.Browse? && s.qr.None? && p.key.Some? && SameButBundle(p, q)
    requires Prompts(s, p) <==> Prompts(s, q)
    ensures Alike(InBrowse(s, p.key.value, p.e), InBrowse(s, p.key.value, q.e))
  {
  }

  lemma PassAlike(s: State, t: State, p: Pass, q: Pass)
    requires Alike(s, t) && SameButBundle(p, q) && (Prompts(s, p) <==> Prompts(s, q)) && !ConfirmsImport(s, p)
    ensures Alike(Passed(s, p), Passed(t, q))
  {
    if p.key.Some? {
      var key := p.key.value;
      var a, b := s.(lastActivity := p.e.now), t.(lastActivity := p.e.now);
      if !IsCtrl(key, 'c') && !IsCtrl(key, 'l') && s.qr.None? {
        if s.mode.Browse? {
          BrowseAlike(a, p, q);
        } else if s == t {
          StepIgnoresBundle(a, key, p.e, q.e);
        } else {
          assert Stepped(a, key, p.e) == a.(mode := Browse) == b.(mode := Browse) == Stepped(b, key, q.e);
        }
      }
    }
  }

  /** Received bytes reach nothing but a confirmation: two runs that differ only in the bundles
      received, and prompt at the same times since a prompt takes the next key, stay equal but for the
      bundle prompted with. So without `y` at a prompt they have the same vaults throughout. */
  lemma {:induction false} BundlesDoNotLeak(states: seq<State>, others: seq<State>, passes: seq<Pass>, otherPasses: seq<Pass>, i: nat)
    requires Run(states, passes) && Run(others, otherPasses) && |passes| == |otherPasses|
    requires i < |states| && Alike(states[0], others[0])
    requires forall k :: 0 <= k < i ==> SameButBundle(passes[k], otherPasses[k])
    requires forall k :: 0 <= k < i ==> (Prompts(states[k], passes[k]) <==> Prompts(states[k], otherPasses[k]))
    requires forall k :: 0 <= k < i ==> !ConfirmsImport(states[k], passes[k])
    ensures Alike(states[i], others[i]) && states[i].vault == others[i].vault
  {
    if i > 0 {
      BundlesDoNotLeak(states, others, passes, otherPasses, i - 1);
      assert FollowsAt(states, passes, i - 1) && FollowsAt(others, otherPasses, i - 1);
      PassAlike(states[i - 1], others[i - 1], passes[i - 1], otherPasses[i - 1]);
    }
  }
}
