/** The interaction state of the terminal front end, and what each key press makes of it. */
module Interaction {
  import opened Common
  import opened Utf8
  import opened Text
  import opened SecretName
  import opened Names
  import E = Editor
  import O = Otpauth

  datatype Mode =
    | CreateVault(pass: string, confirm: string, confirming: bool)
    | Unlock(input: string)
    | Browse
    | AddName(input: string)
    | AddTotpName(input: string)
    | AddTotpSeed(name: string, input: string)
    | EditValue(name: string, isNew: bool)
    | Generate(name: string, isNew: bool, words: bool, count: string)
    | ConfirmDelete(name: string)
    | ConfirmImport(name: string, secret: seq<u8>, sas: string)

  datatype KeyCode = Esc | Enter | Tab | BackTab | Up | Down | Backspace | Char(c: char) | OtherKey

  datatype Key = Key(code: KeyCode, ctrl: bool)

  /** How far sealing and saving a vault gets. */
  datatype Saving = Stored | NotSealed | NotSaved

  /** What the surroundings contribute to one key press: the time; the vault behind a passphrase;
      whether creating, storing and deleting go through; pairing; a received bundle; randomness. */
  datatype Surroundings = Surroundings(
    now: nat,
    open: string -> Option<Secrets>,
    created: bool,
    put: Saving,
    deleteSaved: bool,
    pairing: Option<string>,
    bundle: Option<(string, seq<u8>)>,
    fingerprint: string,
    random20: Option<seq<u8>>,
    generated: (bool, nat) -> Option<string>)

  datatype State = State(
    mode: Mode,
    index: nat,
    selected: nat,
    names: seq<string>,
    vault: Option<Secrets>,
    editor: seq<u8>,
    pairing: Option<string>,
    qr: Option<string>,
    revealUntil: Option<nat>,
    lastActivity: nat,
    idleTimeout: nat)

  const TABS := 2
  const REVEAL_MS := 10_000

  function Initial(vaultExists: bool, now: nat, idleTimeout: nat): State {
    State(if vaultExists then Unlock("") else CreateVault("", "", false), 0, 0, [], None, [], None, None, None, now, idleTimeout)
  }

  // ----- operations on the state

  function Locked(s: State): State {
    s.(mode := Unlock(""), selected := 0, names := [], vault := None, editor := [],
       pairing := None, qr := None, revealUntil := None)
  }

  function Autolocked(s: State, now: nat): State {
    if s.idleTimeout > 0 && !s.mode.Unlock? && !s.mode.CreateVault? && now - s.lastActivity >= s.idleTimeout then Locked(s) else s
  }

  function Clamped(selected: nat, len: nat): nat {
    if selected < len then selected else if len == 0 then 0 else len - 1
  }

  ghost function Refreshed(s: State): State {
    match s.vault
    case None => s
    case Some(v) => var names := Listed(v.Keys); s.(names := names, selected := Clamped(s.selected, |names|))
  }

  function NameSelected(s: State, name: string): State {
    if name in s.names then s.(selected := IndexOf(s.names, name)) else s
  }

  function SelectedName(s: State): Option<string> {
    if s.selected < |s.names| then Some(s.names[s.selected]) else None
  }

  function Written(v: Secrets, name: string, value: seq<u8>, put: Saving): Secrets {
    if ValidateSecretName(name).Some? || put.NotSealed? then v else v[name := Some(value)]
  }

  /** `put_secret` answers Ok. */
  predicate Accepts(s: State, name: string, put: Saving) {
    s.vault.Some? && ValidateSecretName(name).None? && put.Stored?
  }

  /** `put_secret`, then `refresh_names` when it answers Ok. */
  ghost function StoredAndListed(s: State, name: string, value: seq<u8>, put: Saving): State {
    match s.vault
    case None => s
    case Some(v) =>
      var t := s.(vault := Some(Written(v, name, value, put)));
      if Accepts(s, name, put) then Refreshed(t) else t
  }

  /** `delete_secret` answers Ok: the name was absent, or the save went through. */
  predicate DeleteGoesThrough(s: State, name: string, saved: bool) {
    s.vault.Some? && (name in s.vault.value ==> saved)
  }

  ghost function Deleted(s: State, name: string, saved: bool): State {
    match s.vault
    case None => s
    case Some(v) =>
      var t := s.(vault := Some(v - {name}));
      if DeleteGoesThrough(s, name, saved)
      then Refreshed(t.(selected := if s.selected > 0 then s.selected - 1 else 0)) else t
  }

  function Paired(s: State, e: Surroundings): State {
    if s.pairing.None? then s.(pairing := e.pairing) else s
  }

  function ImportBegun(s: State, e: Surroundings): State {
    var t := Paired(s, e);
    if t.pairing.None? || e.bundle.None? || e.bundle.value.0 in s.names then t.(mode := Browse)
    else t.(mode := ConfirmImport(e.bundle.value.0, e.bundle.value.1, e.fingerprint))
  }

  function EditorOf(bytes: seq<u8>): seq<u8> {
    if |bytes| <= E.CAPACITY then bytes else bytes[..E.CAPACITY]
  }

  function EditBegun(s: State): State {
    match SelectedName(s)
    case None => s.(mode := Browse)
    case Some(name) =>
      if s.vault.None? || name !in s.vault.value || s.vault.value[name].None? then s.(mode := Browse)
      else s.(mode := EditValue(name, false), index := 0, editor := EditorOf(s.vault.value[name].value))
  }

  /** The canonical URI of a typed seed, if it is one. */
  function TypedUri(input: string, name: string): Option<string> {
    match O.Parsed(Trim(input))
    case None => None
    case Some(cfg) => Some(O.ToUri(cfg, name))
  }

  /** The canonical URI of a freshly minted secret. */
  function MintedUri(random20: Option<seq<u8>>, name: string): Option<string> {
    match random20
    case None => None
    case Some(secret) => Some(O.ToUri(O.Config(secret, 6, 30, O.Sha1), name))
  }

  function Popped(s: string): string {
    if s == "" then "" else s[..|s| - 1]
  }

  /** Line editing common to all the input modes. */
  function Typed(input: string, code: KeyCode): string {
    match code
    case Backspace => Popped(input)
    case Char(c) => input + [c]
    case _ => input
  }

  // ----- one key, by mode

  predicate IsCtrl(key: Key, c: char) {
    key.ctrl && key.code == Char(c)
  }

  ghost function InUnlock(s: State, input: string, key: Key, e: Surroundings): State {
    if key.code.Enter? then
      match e.open(input)
      case Some(v) => Refreshed(s.(vault := Some(v))).(mode := Browse)
      case None => s.(mode := Unlock(""))
    else s.(mode := Unlock(Typed(input, key.code)))
  }

  ghost function InCreate(s: State, pass: string, confirm: string, confirming: bool, key: Key, e: Surroundings): State {
    if key.code.Enter? then
      if !confirming then s.(mode := CreateVault(pass, "", true))
      else if pass != "" && pass == confirm && e.created then Refreshed(s.(vault := Some(map[]))).(mode := Browse)
      else s.(mode := CreateVault("", "", false))
    else if confirming then s.(mode := CreateVault(pass, Typed(confirm, key.code), true))
    else s.(mode := CreateVault(Typed(pass, key.code), confirm, false))
  }

  function InBrowse(s: State, key: Key, e: Surroundings): State {
    var b := s.(mode := Browse);
    match key.code
    case Tab => b.(index := (s.index + 1) % TABS)
    case BackTab => b.(index := if s.index == 0 then TABS - 1 else s.index - 1)
    case Up => if s.index == 0 then b.(selected := if s.selected == 0 then 0 else s.selected - 1, revealUntil := None) else b
    case Down =>
      if s.index == 0 then b.(selected := if s.selected + 1 < |s.names| then s.selected + 1 else s.selected, revealUntil := None)
      else b
    case Char(c) =>
      if s.index == 0 then
        if c == 's' then b.(revealUntil := Some(e.now + REVEAL_MS))
        else if c == 'a' then b.(mode := AddName(""))
        else if c == 'e' then EditBegun(s)
        else if c == 't' then b.(mode := AddTotpName(""))
        else if c == 'd' && SelectedName(s).Some? then b.(mode := ConfirmDelete(SelectedName(s).value))
        else b
      else if s.index == 1 then
        if c == 'r' then ImportBegun(s, e)
        else if c == 'q' then Paired(b, e).(qr := Paired(b, e).pairing)
        else if c == 'w' then Paired(b, e)
        else b
      else b
    case _ => b
  }

  function InAddName(s: State, input: string, key: Key): State {
    if key.code.Esc? then s.(mode := Browse)
    else if key.code.Enter? then
      if input == "" || input in s.names then s.(mode := AddName(input))
      else s.(mode := EditValue(input, true), index := 0, editor := [])
    else s.(mode := AddName(Typed(input, key.code)))
  }

  function InAddTotpName(s: State, input: string, key: Key): State {
    if key.code.Esc? then s.(mode := Browse)
    else if key.code.Enter? then
      if input == "" || input in s.names then s.(mode := AddTotpName(input))
      else s.(mode := AddTotpSeed(input, ""))
    else s.(mode := AddTotpName(Typed(input, key.code)))
  }

  ghost function InAddTotpSeed(s: State, name: string, input: string, key: Key, e: Surroundings): State {
    if IsCtrl(key, 'g') then TotpMinted(s, name, MintedUri(e.random20, name), e.put)
    else if key.code.Enter? then TotpEntered(s, name, input, TypedUri(input, name), e.put)
    else if key.code.Esc? then s.(mode := Browse)
    else s.(mode := AddTotpSeed(name, Typed(input, key.code)))
  }

  ghost function TotpStored(s: State, name: string, uri: string, put: Saving): State {
    var t := StoredAndListed(s, name, Encode(uri), put).(mode := Browse);
    if Accepts(s, name, put) then NameSelected(t, name) else t
  }

  ghost function TotpEntered(s: State, name: string, input: string, uri: Option<string>, put: Saving): State {
    match uri
    case None => s.(mode := AddTotpSeed(name, input))
    case Some(u) => TotpStored(s, name, u, put)
  }

  ghost function TotpMinted(s: State, name: string, uri: Option<string>, put: Saving): State {
    match uri
    case None => s.(mode := Browse)
    case Some(u) =>
      var t := TotpStored(s, name, u, put);
      if Accepts(s, name, put) then t.(qr := Some(u)) else t
  }

  ghost function InEdit(s: State, name: string, isNew: bool, key: Key, e: Surroundings): State {
    var same := s.(mode := EditValue(name, isNew));
    if IsCtrl(key, 's') then
      var t := StoredAndListed(same, name, s.editor, e.put);
      if Accepts(s, name, e.put) then NameSelected(t, name).(mode := Browse, index := 0, editor := []) else t
    else if IsCtrl(key, 'g') then s.(mode := Generate(name, isNew, true, ""))
    else
      match key.code
      case Esc => s.(mode := Browse, index := 0, editor := [])
      case Char(c) => same.(editor := E.Pushed(s.editor, c))
      case Backspace => same.(editor := DropLastChar(s.editor))
      case Enter => same.(editor := E.Pushed(s.editor, '\n'))
      case _ => same
  }

  const USIZE_MAX := 0xFFFF_FFFF_FFFF_FFFF

  function GeneratedLength(words: bool, count: string): nat {
    var default := if words then 6 else 20;
    var n := match ParseUnsigned(count, USIZE_MAX) case Some(k) => k case None => default;
    if n < 1 then 1 else if n > 256 then 256 else n
  }

  function InGenerate(s: State, name: string, isNew: bool, words: bool, count: string, key: Key, e: Surroundings): State {
    var same := s.(mode := Generate(name, isNew, words, count));
    match key.code
    case Esc => s.(mode := EditValue(name, isNew))
    case Enter =>
      var t := s.(mode := EditValue(name, isNew));
      var value := e.generated(words, GeneratedLength(words, count));
      if value.Some? then t.(editor := EditorOf(Encode(value.value))) else t
    case Backspace => s.(mode := Generate(name, isNew, words, Popped(count)))
    case Char(c) =>
      if c == 'w' then s.(mode := Generate(name, isNew, true, count))
      else if c == 'c' then s.(mode := Generate(name, isNew, false, count))
      else if IsDigit(c) && |count| < 4 then s.(mode := Generate(name, isNew, words, count + [c]))
      else same
    case _ => same
  }

  predicate IsYes(code: KeyCode) {
    code == Char('y') || code == Char('Y')
  }

  ghost function InConfirmDelete(s: State, name: string, key: Key, e: Surroundings): State {
    if IsYes(key.code) then Deleted(s, name, e.deleteSaved).(mode := Browse) else s.(mode := Browse)
  }

  ghost function InConfirmImport(s: State, name: string, secret: seq<u8>, key: Key, e: Surroundings): State {
    if IsYes(key.code) then
      var t := StoredAndListed(s, name, secret, e.put).(mode := Browse);
      if Accepts(s, name, e.put) then NameSelected(t, name).(index := 0) else t
    else s.(mode := Browse)
  }

  // ----- one key in any mode

  ghost function Stepped(s: State, key: Key, e: Surroundings): State {
    match s.mode
    case Unlock(input) => InUnlock(s, input, key, e)
    case CreateVault(pass, confirm, confirming) => InCreate(s, pass, confirm, confirming, key, e)
    case Browse => InBrowse(s, key, e)
    case AddName(input) => InAddName(s, input, key)
    case AddTotpName(input) => InAddTotpName(s, input, key)
    case AddTotpSeed(name, input) => InAddTotpSeed(s, name, input, key, e)
    case EditValue(name, isNew) => InEdit(s, name, isNew, key, e)
    case Generate(name, isNew, words, count) => InGenerate(s, name, isNew, words, count, key, e)
    case ConfirmDelete(name) => InConfirmDelete(s, name, key, e)
    case ConfirmImport(name, secret, _) => InConfirmImport(s, name, secret, key, e)
  }

  predicate QuitsOnEsc(mode: Mode) {
    mode.Unlock? || mode.CreateVault? || mode.Browse?
  }

  ghost function Handled(s: State, key: Key, e: Surroundings): State {
    var active := s.(lastActivity := e.now);
    if IsCtrl(key, 'c') then s
    else if IsCtrl(key, 'l') then Locked(active)
    else if s.qr.Some? then active.(qr := None)
    else Stepped(active, key, e)
  }

  predicate Quits(s: State, key: Key) {
    IsCtrl(key, 'c') || (!IsCtrl(key, 'l') && s.qr.None? && key.code.Esc? && QuitsOnEsc(s.mode))
  }

  // ----- runs

  /** One pass of the event loop: a key press or none, then the idle check. */
  datatype Pass = Pass(key: Option<Key>, e: Surroundings, checkedAt: nat)

  ghost function Passed(s: State, p: Pass): State {
    match p.key
    case None => Autolocked(s, p.checkedAt)
    case Some(key) => if Quits(s, key) then Handled(s, key, p.e) else Autolocked(Handled(s, key, p.e), p.checkedAt)
  }

  predicate Ends(s: State, p: Pass) {
    p.key.Some? && Quits(s, p.key.value)
  }

  ghost predicate Run(states: seq<State>, passes: seq<Pass>) {
    |states| == |passes| + 1 && forall i :: 0 <= i < |passes| ==> FollowsAt(states, passes, i)
  }

  ghost predicate FollowsAt(states: seq<State>, passes: seq<Pass>, i: int)
    requires 0 <= i < |passes| && i + 1 < |states|
  {
    states[i + 1] == Passed(states[i], passes[i])
  }
}
