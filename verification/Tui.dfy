/** The terminal front end: one object, driven key by key. */
module Tui {
  import opened Common
  import opened Utf8
  import opened Text
  import opened SecretName
  import opened Names
  import opened Interaction
  import E = Editor
  import O = Otpauth
  import L = LocalStore
  import T = InteractionTheorems

  // The handlers set the next mode themselves, so the mode they start from does not matter.

  lemma DeleteInMode(s: State, m: Mode, key: Key, e: Surroundings)
    requires m.ConfirmDelete?
    ensures Stepped(s.(mode := m), key, e) == InConfirmDelete(s, m.name, key, e)
  {
  }

  lemma ImportInMode(s: State, m: Mode, key: Key, e: Surroundings)
    requires m.ConfirmImport?
    ensures Stepped(s.(mode := m), key, e) == InConfirmImport(s, m.name, m.secret, key, e)
  {
  }

  lemma SeedInMode(s: State, m: Mode, key: Key, e: Surroundings)
    requires m.AddTotpSeed?
    ensures Stepped(s.(mode := m), key, e) == InAddTotpSeed(s, m.name, m.input, key, e)
  {
    if IsCtrl(key, 'g') {
      StoredInMode(s, m, MintedUri(e.random20, m.name), e.put);
    } else if key.code.Enter? {
      StoredInMode(s, m, TypedUri(m.input, m.name), e.put);
    }
  }

  lemma StoredInMode(s: State, m: Mode, uri: Option<string>, put: Saving)
    requires m.AddTotpSeed?
    ensures TotpMinted(s.(mode := m), m.name, uri, put) == TotpMinted(s, m.name, uri, put)
    ensures TotpEntered(s.(mode := m), m.name, m.input, uri, put) == TotpEntered(s, m.name, m.input, uri, put)
  {
  }

  class App {
    var mode: Mode
    var index: nat
    var selected: nat
    var secretNames: seq<string>
    var vault: Option<Secrets>  // the open vault of the manager
    var editor: seq<u8>
    var pairing: Option<string>
    var qrText: Option<string>
    var revealUntil: Option<nat>
    var lastActivity: nat
    const idleTimeout: nat

    ghost function Now(): State
      reads this
    {
      State(mode, index, selected, secretNames, vault, editor, pairing, qrText, revealUntil, lastActivity, idleTimeout)
    }

    /** The vault is open exactly in the modes that need it, tab and selection are in range, a locked
        object holds nothing, and no pending name is listed. */
    ghost predicate Valid()
      reads this
    {
      T.Sane(Now())
    }

    constructor (vaultExists: bool, now: nat, idleTimeout: nat)
      ensures Now() == Initial(vaultExists, now, idleTimeout) && Valid() && T.InSync(Now())
    {
      mode := if vaultExists then Unlock("") else CreateVault("", "", false);
      index, selected, secretNames, vault, editor := 0, 0, [], None, [];
      pairing, qrText, revealUntil, lastActivity := None, None, None, now;
      this.idleTimeout := idleTimeout;
    }

    method Lock()
      requires Valid()
      modifies this
      ensures Now() == Locked(old(Now())) && Valid()
    {
      vault := None;
      editor := [];
      secretNames := [];
      selected := 0;
      pairing := None;
      qrText := None;
      revealUntil := None;
      mode := Unlock("");
    }

    method MaybeAutolock(now: nat)
      requires Valid()
      modifies this
      ensures Now() == Autolocked(old(Now()), now) && Valid()
      ensures old(vault).Some? && vault.None? <==> T.Fires(old(Now()), now)
    {
      if idleTimeout == 0 {
        return;
      }
      var unlocked := !mode.Unlock? && !mode.CreateVault?;
      if unlocked && now - lastActivity >= idleTimeout {
        Lock();
      }
    }

    // ----- operations

    method RefreshNames() returns (ok: bool)
      modifies this`secretNames, this`selected
      ensures Now() == Refreshed(old(Now())) && ok == vault.Some?
    {
      if vault.None? {
        return false;
      }
      var names := KeysOf(vault.value);
      secretNames := Sort(names);
      if selected >= |secretNames| {
        selected := if |secretNames| == 0 then 0 else |secretNames| - 1;
      }
      ok := true;
    }

    method SelectName(name: string)
      modifies this`selected
      ensures Now() == NameSelected(old(Now()), name)
    {
      for i := 0 to |secretNames|
        invariant name !in secretNames[..i] && selected == old(selected)
      {
        if secretNames[i] == name {
          FirstPlace(secretNames, name, i);
          selected := i;
          return;
        }
        assert secretNames[..i + 1] == secretNames[..i] + [secretNames[i]];
      }
      assert secretNames[..|secretNames|] == secretNames;
    }

    method PutSecret(name: string, value: seq<u8>, put: Saving) returns (ok: bool)
      modifies this`vault
      ensures ok == Accepts(old(Now()), name, put)
      ensures vault == if old(vault).None? then None else Some(Written(old(vault).value, name, value, put))
    {
      if vault.None? || ValidateSecretName(name).Some? || put.NotSealed? {
        return false;
      }
      vault := Some(vault.value[name := Some(value)]);
      ok := put.Stored?;
    }

    method SaveEditedValue(name: string, value: seq<u8>, put: Saving) returns (ok: bool)
      modifies this`vault, this`secretNames, this`selected
      ensures ok == Accepts(old(Now()), name, put)
      ensures Now() == StoredAndListed(old(Now()), name, value, put)
    {
      ok := PutSecret(name, value, put);
      if ok {
        ok := RefreshNames();
      }
    }

    method DeleteNamed(name: string, saved: bool) returns (ok: bool)
      modifies this`vault, this`secretNames, this`selected
      ensures ok == DeleteGoesThrough(old(Now()), name, saved)
      ensures Now() == Deleted(old(Now()), name, saved)
    {
      if vault.None? {
        return false;
      }
      if name in vault.value {
        vault := Some(vault.value - {name});
        if !saved {
          return false;
        }
      } else {
        assert vault.value - {name} == vault.value;
      }
      if selected > 0 {
        selected := selected - 1;
      }
      ok := RefreshNames();
    }

    method TryUnlock(pass: string, e: Surroundings) returns (ok: bool)
      modifies this`vault, this`secretNames, this`selected
      ensures ok == e.open(pass).Some?
      ensures Now() == if ok then Refreshed(old(Now()).(vault := e.open(pass))) else old(Now())
    {
      var v := e.open(pass);
      if v.None? {
        return false;
      }
      vault := v;
      ok := RefreshNames();
    }

    method TryCreate(pass: string, e: Surroundings) returns (ok: bool)
      modifies this`vault, this`secretNames, this`selected
      ensures ok == e.created
      ensures Now() == if ok then Refreshed(old(Now()).(vault := Some(map[]))) else old(Now())
    {
      if !e.created {
        return false;
      }
      vault := Some(map[]);
      ok := RefreshNames();
    }

    method EnsurePairing(e: Surroundings)
      modifies this`pairing
      ensures Now() == Paired(old(Now()), e)
    {
      if pairing.None? {
        pairing := e.pairing;
      }
    }

    method BeginImport(e: Surroundings) returns (next: Mode)
      modifies this`pairing
      ensures Now().(mode := next) == ImportBegun(old(Now()), e)
      ensures next.ConfirmImport? ==> next.name !in secretNames && e.bundle == Some((next.name, next.secret))
    {
      EnsurePairing(e);
      if pairing.None? || e.bundle.None? {
        return Browse;
      }
      var (name, secret) := e.bundle.value;
      if name in secretNames {
        return Browse;
      }
      next := ConfirmImport(name, secret, e.fingerprint);
    }

    method BeginEdit() returns (next: Mode)
      modifies this`editor, this`index
      ensures Now().(mode := next) == EditBegun(old(Now()))
      ensures next.EditValue? ==>
        vault.Some? && next.name in vault.value && vault.value[next.name].Some? && editor <= vault.value[next.name].value
    {
      if selected >= |secretNames| {
        return Browse;
      }
      var name := secretNames[selected];
      if vault.None? || name !in vault.value || vault.value[name].None? {
        return Browse;
      }
      editor := EditorOf(vault.value[name].value);
      index := 0;
      next := EditValue(name, false);
    }

    method StoreGeneratedTotp(name: string, random20: Option<seq<u8>>, put: Saving) returns (next: Mode)
      modifies this`vault, this`secretNames, this`selected, this`qrText
      ensures Now().(mode := next) == TotpMinted(old(Now()), name, MintedUri(random20, name), put)
    {
      next := Browse;
      if random20.Some? {
        var uri := O.ToUri(O.Config(random20.value, 6, 30, O.Sha1), name);
        var ok := StoreTotp(name, uri, put);
        if ok {
          qrText := Some(uri);
        }
      }
    }

    method StoreTotp(name: string, uri: string, put: Saving) returns (ok: bool)
      modifies this`vault, this`secretNames, this`selected
      ensures ok == Accepts(old(Now()), name, put)
      ensures Now().(mode := Browse) == TotpStored(old(Now()), name, uri, put)
    {
      ok := SaveEditedValue(name, Encode(uri), put);
      if ok {
        SelectName(name);
      }
    }

    // ----- keys

    method StepPassphrase(m: Mode, key: Key, e: Surroundings) returns (next: Mode)
      requires m.Unlock? || m.CreateVault?
      modifies this`vault, this`secretNames, this`selected
      ensures Now().(mode := next) == Stepped(old(Now()).(mode := m), key, e)
    {
      if key.code.Enter? {
        match m
        case Unlock(input) =>
          var ok := TryUnlock(input, e);
          next := if ok then Browse else Unlock("");
        case CreateVault(pass, confirm, confirming) =>
          if !confirming {
            return CreateVault(pass, "", true);
          }
          next := CreateVault("", "", false);
          if pass != "" && pass == confirm {
            var ok := TryCreate(pass, e);
            if ok {
              next := Browse;
            }
          }
      } else {
        match m
        case Unlock(input) => next := Unlock(Typed(input, key.code));
        case CreateVault(pass, confirm, confirming) =>
          next := if confirming then CreateVault(pass, Typed(confirm, key.code), true)
                  else CreateVault(Typed(pass, key.code), confirm, false);
      }
    }

    method StepBrowse(key: Key, e: Surroundings) returns (next: Mode)
      modifies this
      ensures Now().(mode := next) == InBrowse(old(Now()), key, e)
    {
      next := Browse;
      if key.code.Tab? {
        index := (index + 1) % TABS;
      } else if key.code.BackTab? {
        index := if index == 0 then TABS - 1 else index - 1;
      } else if index == 0 {
        match key.code
        case Up =>
          selected := if selected == 0 then 0 else selected - 1;
          revealUntil := None;
        case Down =>
          if selected + 1 < |secretNames| {
            selected := selected + 1;
          }
          revealUntil := None;
        case Char(c) =>
          if c == 's' {
            revealUntil := Some(e.now + REVEAL_MS);
          } else if c == 'a' {
            next := AddName("");
          } else if c == 'e' {
            next := BeginEdit();
          } else if c == 't' {
            next := AddTotpName("");
          } else if c == 'd' && selected < |secretNames| {
            next := ConfirmDelete(secretNames[selected]);
          }
        case _ =>
      } else if index == 1 {
        match key.code
        case Char(c) =>
          if c == 'r' {
            next := BeginImport(e);
          } else if c == 'q' {
            EnsurePairing(e);
            qrText := pairing;
          } else if c == 'w' {
            EnsurePairing(e);
          }
        case _ =>
      }
    }

    /** The name of a new entry, typed for a value or for a one-time-password seed. */
    method StepName(m: Mode, key: Key) returns (next: Mode)
      requires m.AddName? || m.AddTotpName?
      modifies this`index, this`editor
      ensures Now().(mode := next) == if m.AddName? then InAddName(old(Now()), m.input, key) else InAddTotpName(old(Now()), m.input, key)
    {
      if key.code.Esc? {
        next := Browse;
      } else if key.code.Enter? {
        if m.input == "" || m.input in secretNames {
          next := m;
        } else if m.AddName? {
          editor := [];
          index := 0;
          next := EditValue(m.input, true);
        } else {
          next := AddTotpSeed(m.input, "");
        }
      } else {
        var input := Typed(m.input, key.code);
        next := if m.AddName? then AddName(input) else AddTotpName(input);
      }
    }

    method StepSeed(m: Mode, key: Key, e: Surroundings) returns (next: Mode)
      requires m.AddTotpSeed?
      modifies this`vault, this`secretNames, this`selected, this`qrText
      ensures Now().(mode := next) == Stepped(old(Now()).(mode := m), key, e)
    {
      var AddTotpSeed(name, input) := m;
      SeedInMode(Now(), m, key, e);
      if IsCtrl(key, 'g') {
        next := StoreGeneratedTotp(name, e.random20, e.put);
      } else if key.code.Esc? {
        next := Browse;
      } else if key.code.Enter? {
        next := EnterSeed(name, input, e.put);
      } else {
        next := AddTotpSeed(name, Typed(input, key.code));
      }
    }

    method EnterSeed(name: string, input: string, put: Saving) returns (next: Mode)
      modifies this`vault, this`secretNames, this`selected
      ensures Now().(mode := next) == TotpEntered(old(Now()), name, input, TypedUri(input, name), put)
    {
      var cfg := O.Parse(Trim(input));
      if cfg.None? {
        return AddTotpSeed(name, input);
      }
      var _ := StoreTotp(name, O.ToUri(cfg.value, name), put);
      next := Browse;
    }

    method StepEdit(name: string, isNew: bool, key: Key, e: Surroundings) returns (next: Mode)
      modifies this`vault, this`secretNames, this`selected, this`index, this`editor
      ensures Now().(mode := next) == InEdit(old(Now()), name, isNew, key, e)
    {
      next := EditValue(name, isNew);
      if IsCtrl(key, 's') {
        var ok := SaveEditedValue(name, editor, e.put);
        if ok {
          editor := [];
          index := 0;
          SelectName(name);
          next := Browse;
        }
      } else if IsCtrl(key, 'g') {
        next := Generate(name, isNew, true, "");
      } else if key.code.Esc? {
        editor := [];
        index := 0;
        next := Browse;
      } else {
        match key.code
        case Char(c) => editor := E.Pushed(editor, c);
        case Backspace => editor := DropLastChar(editor);
        case Enter => editor := E.Pushed(editor, '\n');
        case _ =>
      }
    }

    method StepGenerate(name: string, isNew: bool, words: bool, count: string, key: Key, e: Surroundings) returns (next: Mode)
      modifies this`editor
      ensures Now().(mode := next) == InGenerate(old(Now()), name, isNew, words, count, key, e)
    {
      next := Generate(name, isNew, words, count);
      match key.code
      case Esc => next := EditValue(name, isNew);
      case Char(c) =>
        if c == 'w' {
          next := Generate(name, isNew, true, count);
        } else if c == 'c' {
          next := Generate(name, isNew, false, count);
        } else if IsDigit(c) && |count| < 4 {
          next := Generate(name, isNew, words, count + [c]);
        }
      case Backspace => next := Generate(name, isNew, words, Popped(count));
      case Enter =>
        var n := GeneratedLength(words, count);
        var value := e.generated(words, n);
        if value.Some? {
          editor := EditorOf(Encode(value.value));
        }
        next := EditValue(name, isNew);
      case _ =>
    }

    method StepConfirmDelete(name: string, key: Key, e: Surroundings) returns (next: Mode)
      modifies this`vault, this`secretNames, this`selected
      ensures Now().(mode := next) == InConfirmDelete(old(Now()), name, key, e)
    {
      next := Browse;
      if IsYes(key.code) {
        var _ := DeleteNamed(name, e.deleteSaved);
      }
    }

    method StepConfirmImport(name: string, secret: seq<u8>, key: Key, e: Surroundings) returns (next: Mode)
      modifies this`vault, this`secretNames, this`selected, this`index
      ensures Now().(mode := next) == InConfirmImport(old(Now()), name, secret, key, e)
    {
      next := Browse;
      if IsYes(key.code) {
        var ok := SaveEditedValue(name, secret, e.put);
        if ok {
          SelectName(name);
          index := 0;
        }
      }
    }

    method StepConfirm(m: Mode, key: Key, e: Surroundings) returns (next: Mode)
      requires m.ConfirmDelete? || m.ConfirmImport?
      modifies this`vault, this`secretNames, this`selected, this`index
      ensures Now().(mode := next) == Stepped(old(Now()).(mode := m), key, e)
    {
      match m
      case ConfirmDelete(name) =>
        DeleteInMode(Now(), m, key, e);
        next := StepConfirmDelete(name, key, e);
      case ConfirmImport(name, secret, _) =>
        ImportInMode(Now(), m, key, e);
        next := StepConfirmImport(name, secret, key, e);
    }

    method StepEntry(m: Mode, key: Key, e: Surroundings) returns (next: Mode)
      requires m.EditValue? || m.Generate?
      modifies this`vault, this`secretNames, this`selected, this`index, this`editor
      ensures Now().(mode := next) == Stepped(old(Now()).(mode := m), key, e)
    {
      match m
      case EditValue(name, isNew) => next := StepEdit(name, isNew, key, e);
      case Generate(name, isNew, words, count) => next := StepGenerate(name, isNew, words, count, key, e);
    }

    method Step(m: Mode, key: Key, e: Surroundings) returns (next: Mode, quit: bool)
      modifies this
      ensures Now().(mode := next) == Stepped(old(Now()).(mode := m), key, e)
      ensures quit <==> key.code.Esc? && QuitsOnEsc(m)
    {
      quit := key.code.Esc? && QuitsOnEsc(m);
      match m
      case Unlock(_) => next := StepPassphrase(m, key, e);
      case CreateVault(_, _, _) => next := StepPassphrase(m, key, e);
      case Browse => next := StepBrowse(key, e);
      case AddName(_) => next := StepName(m, key);
      case AddTotpName(_) => next := StepName(m, key);
      case ConfirmDelete(_) => next := StepConfirm(m, key, e);
      case ConfirmImport(_, _, _) => next := StepConfirm(m, key, e);
      case AddTotpSeed(_, _) => next := StepSeed(m, key, e);
      case _ => next := StepEntry(m, key, e);
    }

    method HandleKey(key: Key, e: Surroundings) returns (quit: bool)
      requires Valid()
      modifies this
      ensures Now() == Handled(old(Now()), key, e) && Valid()
      ensures quit == Quits(old(Now()), key)
    {
      T.KeyKeepsSane(Now(), key, e);
      if IsCtrl(key, 'c') {
        return true;
      }
      lastActivity := e.now;
      if IsCtrl(key, 'l') {
        Lock();
        return false;
      }
      if qrText.Some? {
        qrText := None;
        return false;
      }
      var m := mode;
      mode := Browse;
      var next;
      next, quit := Step(m, key, e);
      mode := next;
    }

    /** A key press if there is one, then the idle check unless the key quits. */
    method OnePass(p: Pass) returns (quit: bool)
      requires Valid()
      modifies this
      ensures Valid() && Now() == Passed(old(Now()), p) && quit == Ends(old(Now()), p)
    {
      quit := false;
      if p.key.Some? {
        quit := HandleKey(p.key.value, p.e);
      }
      if !quit {
        MaybeAutolock(p.checkedAt);
      }
    }

    method Loop(passes: seq<Pass>) returns (ghost states: seq<State>, done: nat)
      requires Valid()
      modifies this
      ensures Valid() && done <= |passes| && Run(states, passes[..done])
      ensures states[0] == old(Now()) && states[done] == Now()
      ensures forall i :: 0 <= i < done ==> (Ends(states[i], passes[i]) ==> i == done - 1)
      ensures done < |passes| ==> done > 0 && Ends(states[done - 1], passes[done - 1])
    {
      states, done := [Now()], 0;
      while done < |passes|
        invariant done <= |passes| && |states| == done + 1 && states[0] == old(Now()) && states[done] == Now()
        invariant Valid()
        invariant Run(states, passes[..done]) && forall i :: 0 <= i < done ==> !Ends(states[i], passes[i])
      {
        var p := passes[done];
        done := done + 1;
        var quit := OnePass(p);
        T.RunGrows(states, passes, done - 1, Now());
        states := states + [Now()];
        if quit {
          return;
        }
      }
    }

    /** The event loop, over everything that will happen; it stops at the first key that quits.
        Throughout, the invariants hold; and while saves succeed, the list shows exactly the names in
        the vault, and no name about to be added is there already. */
    method RunApp(passes: seq<Pass>) returns (ghost states: seq<State>, done: nat)
      requires Valid()
      modifies this
      ensures Valid() && done <= |passes| && Run(states, passes[..done])
      ensures states[0] == old(Now()) && states[done] == Now()
      ensures forall i :: 0 <= i < done ==> (Ends(states[i], passes[i]) ==> i == done - 1)
      ensures done < |passes| ==> done > 0 && Ends(states[done - 1], passes[done - 1])
      ensures forall i :: 0 <= i <= done ==> T.Sane(states[i])
      ensures T.InSync(old(Now())) && T.SavesSucceed(passes[..done]) ==>
        forall i :: 0 <= i <= done ==> T.InSync(states[i]) && T.PendingIsNew(states[i])
    {
      states, done := Loop(passes);
      forall i | 0 <= i <= done
        ensures T.Sane(states[i])
        ensures T.InSync(old(Now())) && T.SavesSucceed(passes[..done]) ==> T.InSync(states[i]) && T.PendingIsNew(states[i])
      {
        T.RunInvariant(states, passes[..done], i);
      }
    }
  }

  /** The names of a vault, in whatever order its map yields them. */
  method KeysOf(v: Secrets) returns (names: seq<string>)
    ensures Elements(names) == v.Keys
    ensures forall i, j :: 0 <= i < j < |names| ==> names[i] != names[j]
  {
    var rest := v.Keys;
    names := [];
    while rest != {}
      invariant rest <= v.Keys && Elements(names) == v.Keys - rest
      invariant forall i, j :: 0 <= i < j < |names| ==> names[i] != names[j]
      decreases |rest|
    {
      var k :| k in rest;
      assert forall i :: 0 <= i < |names| ==> names[i] in Elements(names);
      assert Elements(names + [k]) == Elements(names) + {k};
      names := names + [k];
      rest := rest - {k};
    }
  }

  lemma {:induction false} FirstPlace(s: seq<string>, x: string, i: nat)
    requires i < |s| && s[i] == x && x !in s[..i]
    ensures x in s && IndexOf(s, x) == i
    decreases i
  {
    if i > 0 {
      assert s[..i][0] == s[0];
      assert s[..i] == [s[0]] + s[1..][..i - 1];
      FirstPlace(s[1..], x, i - 1);
    }
  }

  // ----- the vault underneath

  /** Storing in a vault has just the outcomes that the surroundings may have. */
  method PutReflects(store: L.Store, name: string, value: seq<u8>) returns (ok: bool, put: Saving)
    requires store.Valid()
    modifies store`entries, store`log, store.disk
    ensures store.Valid()
    ensures store.Secrets() == Written(old(store.Secrets()), name, value, put)
    ensures ok <==> ValidateSecretName(name).None? && put.Stored?
  {
    var r := store.PutSecret(name, value);
    ok := r.Ok?;
    put := if r.Ok? then Stored else if r.error.Save? then NotSaved else NotSealed;
  }

  method DeleteReflects(store: L.Store, name: string) returns (ok: bool, saved: bool)
    requires store.Valid()
    modifies store`entries, store`log, store.disk
    ensures store.Valid()
    ensures store.Secrets() == old(store.Secrets()) - {name}
    ensures ok <==> (name in old(store.entries) ==> saved)
  {
    var r := store.DeleteSecret(name);
    ok, saved := r.Ok?, r.Ok?;
  }
}
