/** Each task of the front end, from its first key to its last, in a run of the event loop. */
module InteractionTasks {
  import opened Common
  import opened Utf8
  import opened Text
  import opened SecretName
  import opened Names
  import opened Interaction
  import opened InteractionFlows
  import T = InteractionTheorems
  import E = Editor
  import O = Otpauth

  // ----- moving about

  const UP := Key(Up, false)
  const DOWN := Key(Down, false)
  const TAB := Key(Tab, false)
  const BACKTAB := Key(BackTab, false)

  predicate Browsing(s: State, tab: nat) {
    s.mode.Browse? && s.qr.None? && s.index == tab
  }

  lemma MoveKey(s: State, p: Pass, key: Key)
    requires Browsing(s, 0) && (key == UP || key == DOWN) && Press(p, key, s.idleTimeout)
    requires s.selected < |s.names|
    ensures Passed(s, p) == s.(lastActivity := p.e.now, revealUntil := None, selected :=
      if key == UP then (if s.selected == 0 then 0 else s.selected - 1)
      else (if s.selected == |s.names| - 1 then s.selected else s.selected + 1))
  {
    PressSteps(s, p, key);
  }

  /** Down moves the selection one entry at a time and stops at the last; Up stops at the first. */
  lemma {:induction false} Moving(s: State, key: Key, n: nat, passes: seq<Pass>)
    requires Browsing(s, 0) && (key == UP || key == DOWN) && Presses(passes, Times(key, n), s.idleTimeout)
    requires s.selected < |s.names|
    ensures var t, to := After(s, passes), if key == UP then s.selected - n else s.selected + n;
      t == s.(lastActivity := t.lastActivity, revealUntil := if n == 0 then s.revealUntil else None, selected :=
        if to < 0 then 0 else if to >= |s.names| then |s.names| - 1 else to)
    decreases n
  {
    if n > 0 {
      TimesLast(key, n);
      var a, p := CutLast(s, passes, Times(key, n - 1), key, s.idleTimeout);
      Moving(s, key, n - 1, a);
      MoveKey(After(s, a), p, key);
    }
  }

  /** Every entry can be selected: up to the first, then down to it. */
  lemma Reaching(s: State, k: nat, passes: seq<Pass>)
    requires Browsing(s, 0) && s.selected < |s.names| && k < |s.names|
    requires Presses(passes, Times(UP, s.selected) + Times(DOWN, k), s.idleTimeout)
    ensures var t := After(s, passes); Browsing(t, 0) && t.vault == s.vault && SelectedName(t) == Some(s.names[k])
  {
    var a, b := Cut(s, passes, Times(UP, s.selected), Times(DOWN, k), s.idleTimeout);
    Moving(s, UP, s.selected, a);
    FirstThenDown(s, After(s, a), k, b);
  }

  lemma FirstThenDown(s: State, u: State, k: nat, passes: seq<Pass>)
    requires Browsing(u, 0) && u.selected == 0 && u.names == s.names && u.vault == s.vault && u.idleTimeout == s.idleTimeout
    requires k < |s.names| && Presses(passes, Times(DOWN, k), s.idleTimeout)
    ensures var t := After(u, passes); Browsing(t, 0) && t.vault == s.vault && SelectedName(t) == Some(s.names[k])
  {
    Moving(u, DOWN, k, passes);
  }

  lemma TabKey(s: State, p: Pass, key: Key)
    requires s.mode.Browse? && s.qr.None? && s.index < TABS && (key == TAB || key == BACKTAB) && Press(p, key, s.idleTimeout)
    ensures Passed(s, p) == s.(lastActivity := p.e.now, index := 1 - s.index)
  {
    PressSteps(s, p, key);
  }

  function Turned(index: nat, n: nat): int {
    if n % 2 == 0 then index else 1 - index
  }

  lemma TurnedOnce(index: nat, n: nat)
    requires index < TABS && n > 0
    ensures 0 <= Turned(index, n) == 1 - Turned(index, n - 1) < TABS
  {
  }

  /** There are two tabs: both keys go to the other one. */
  lemma {:induction false} Tabbing(s: State, key: Key, n: nat, passes: seq<Pass>)
    requires s.mode.Browse? && s.qr.None? && s.index < TABS && (key == TAB || key == BACKTAB)
    requires Presses(passes, Times(key, n), s.idleTimeout)
    ensures var t := After(s, passes); t == s.(lastActivity := t.lastActivity, index := t.index) && t.index == Turned(s.index, n)
    decreases n
  {
    if n > 0 {
      TimesLast(key, n);
      var a, p := CutLast(s, passes, Times(key, n - 1), key, s.idleTimeout);
      Tabbing(s, key, n - 1, a);
      TurnedOnce(s.index, n);
      TabKey(After(s, a), p, key);
    }
  }

  lemma RevealKey(s: State, p: Pass)
    requires Browsing(s, 0) && Press(p, Plain('s'), s.idleTimeout)
    ensures Passed(s, p) == s.(lastActivity := p.e.now, revealUntil := Some(p.e.now + 10_000))
  {
    PressSteps(s, p, Plain('s'));
  }

  /** `s` shows the selected value for ten seconds, or until the selection moves. */
  lemma Revealing(s: State, p: Pass, q: Pass, key: Key)
    requires Browsing(s, 0) && s.selected < |s.names| && Press(p, Plain('s'), s.idleTimeout)
    requires (key == UP || key == DOWN) && Press(q, key, s.idleTimeout)
    ensures After(s, [p]) == s.(lastActivity := p.e.now, revealUntil := Some(p.e.now + 10_000))
    ensures After(s, [p, q]).revealUntil == None
  {
    AfterOne(s, p);
    AfterTwo(s, p, q);
    RevealKey(s, p);
    MoveKey(Passed(s, p), q, key);
  }

  // ----- adding and editing

  /** The vault is shown with `name` selected and mapped to `value`, and every other entry as it was. */
  ghost predicate Holds(s: State, t: State, name: string, value: seq<u8>) {
    && t.mode.Browse? && s.vault.Some? && t.vault == Some(s.vault.value[name := Some(value)])
    && T.InSync(t) && SelectedName(t) == Some(name)
  }

  lemma SaveShows(s: State, name: string, value: seq<u8>, put: Saving)
    requires Accepts(s, name, put)
    ensures var t := NameSelected(StoredAndListed(s, name, value, put), name);
      && t.vault == Some(s.vault.value[name := Some(value)]) && T.InSync(t) && SelectedName(t) == Some(name)
      && t.qr == s.qr && t.idleTimeout == s.idleTimeout && t.lastActivity == s.lastActivity
  {
    T.ListedIn(s.vault.value[name := Some(value)].Keys, name);
  }

  /** Ctrl-S stores the text in the editor and empties it; when storing fails the text stays. */
  lemma SaveKey(s: State, p: Pass)
    requires s.mode.EditValue? && s.qr.None? && s.vault.Some? && Press(p, Ctrl('s'), s.idleTimeout)
    ensures var t := Passed(s, p);
      if Accepts(s, s.mode.name, p.e.put) then Holds(s, t, s.mode.name, s.editor) && t.editor == [] && t.index == 0 && t.qr.None?
      else t == s.(lastActivity := p.e.now, vault := t.vault)
  {
    PressSteps(s, p, Ctrl('s'));
    EditorSaves(s.(lastActivity := p.e.now), s.mode.name, s.mode.isNew, p.e);
  }

  lemma EditorSaves(s: State, name: string, isNew: bool, e: Surroundings)
    requires s.mode == EditValue(name, isNew) && s.vault.Some?
    ensures var t := InEdit(s, name, isNew, Ctrl('s'), e);
      if Accepts(s, name, e.put) then Holds(s, t, name, s.editor) && t.editor == [] && t.index == 0 && t.qr == s.qr
      else t == s.(vault := t.vault)
  {
    if Accepts(s, name, e.put) {
      SaveShows(s, name, s.editor, e.put);
    }
  }

  lemma OpenForm(s: State, p: Pass, c: char)
    requires Browsing(s, 0) && (c == 'a' || c == 't') && Press(p, Plain(c), s.idleTimeout)
    ensures Passed(s, p) == s.(mode := if c == 'a' then AddName("") else AddTotpName(""), lastActivity := p.e.now)
  {
    PressSteps(s, p, Plain(c));
  }

  lemma FormOpened(s: State, c: char, passes: seq<Pass>)
    requires Browsing(s, 0) && (c == 'a' || c == 't') && Presses(passes, [Plain(c)], s.idleTimeout)
    ensures var t := After(s, passes); t == s.(mode := if c == 'a' then AddName("") else AddTotpName(""), lastActivity := t.lastActivity)
  {
    assert passes == [passes[0]] && [Plain(c)][0] == Plain(c);
    AfterOne(s, passes[0]);
    OpenForm(s, passes[0], c);
  }

  /** `a` or `t`, and the characters of a name. */
  lemma NameTyped(s: State, c: char, name: string, passes: seq<Pass>)
    requires Browsing(s, 0) && (c == 'a' || c == 't') && Presses(passes, [Plain(c)] + Keys(name), s.idleTimeout)
    ensures var t := After(s, passes);
      t == s.(mode := if c == 'a' then AddName(name) else AddTotpName(name), lastActivity := t.lastActivity)
  {
    var a, b := Cut(s, passes, [Plain(c)], Keys(name), s.idleTimeout);
    FormOpened(s, c, a);
    Typing(After(s, a), name, b);
    assert "" + name == name;
  }

  lemma NameEntered(s: State, p: Pass)
    requires (s.mode.AddName? || s.mode.AddTotpName?) && s.qr.None? && Press(p, ENTER, s.idleTimeout)
    ensures Passed(s, p) ==
      if s.mode.input == "" || s.mode.input in s.names then s.(lastActivity := p.e.now)
      else if s.mode.AddName? then s.(mode := EditValue(s.mode.input, true), index := 0, editor := [], lastActivity := p.e.now)
      else s.(mode := AddTotpSeed(s.mode.input, ""), lastActivity := p.e.now)
  {
    PressSteps(s, p, ENTER);
  }

  /** An empty name or one in the list is not taken, and can be corrected. */
  lemma NameNotTaken(s: State, c: char, name: string, passes: seq<Pass>)
    requires Browsing(s, 0) && (c == 'a' || c == 't') && Presses(passes, [Plain(c)] + Keys(name) + [ENTER], s.idleTimeout)
    requires name == "" || name in s.names
    ensures var t := After(s, passes);
      t == s.(mode := if c == 'a' then AddName(name) else AddTotpName(name), lastActivity := t.lastActivity)
  {
    var a, p := CutLast(s, passes, [Plain(c)] + Keys(name), ENTER, s.idleTimeout);
    NameTyped(s, c, name, a);
    NameEntered(After(s, a), p);
  }

  lemma NameTaken(s: State, c: char, name: string, passes: seq<Pass>)
    requires Browsing(s, 0) && (c == 'a' || c == 't') && Presses(passes, [Plain(c)] + Keys(name) + [ENTER], s.idleTimeout)
    requires name != "" && name !in s.names
    ensures var t := After(s, passes);
      t == if c == 'a' then s.(mode := EditValue(name, true), editor := [], lastActivity := t.lastActivity)
           else s.(mode := AddTotpSeed(name, ""), lastActivity := t.lastActivity)
  {
    var a, p := CutLast(s, passes, [Plain(c)] + Keys(name), ENTER, s.idleTimeout);
    NameTyped(s, c, name, a);
    NameEntered(After(s, a), p);
  }

  lemma TextTyped(s: State, name: string, text: string, passes: seq<Pass>)
    requires Browsing(s, 0) && name != "" && name !in s.names && |Encode(text)| <= E.CAPACITY
    requires Presses(passes, [Plain('a')] + Keys(name) + [ENTER] + TextKeys(text), s.idleTimeout)
    ensures var t := After(s, passes); t == s.(mode := EditValue(name, true), editor := Encode(text), lastActivity := t.lastActivity)
  {
    var a, b := Cut(s, passes, [Plain('a')] + Keys(name) + [ENTER], TextKeys(text), s.idleTimeout);
    NameTaken(s, 'a', name, a);
    assert [] + Encode(text) == Encode(text);
    TypingText(After(s, a), text, b);
  }

  /** Adding an entry: `a`, a fresh name, Enter, a text that fits, Ctrl-S. Afterwards the vault maps the
      name to the text and everything else as before; when storing fails the text is still there. */
  lemma Adding(s: State, name: string, text: string, passes: seq<Pass>)
    requires Browsing(s, 0) && s.vault.Some? && name != "" && name !in s.names && |Encode(text)| <= E.CAPACITY
    requires Presses(passes, [Plain('a')] + Keys(name) + [ENTER] + TextKeys(text) + [Ctrl('s')], s.idleTimeout)
    ensures var t := After(s, passes);
      if ValidateSecretName(name).None? && passes[|passes| - 1].e.put.Stored? then Holds(s, t, name, Encode(text)) && Browsing(t, 0)
      else t.mode == EditValue(name, true) && t.editor == Encode(text)
  {
    var a, p := CutLast(s, passes, [Plain('a')] + Keys(name) + [ENTER] + TextKeys(text), Ctrl('s'), s.idleTimeout);
    TextTyped(s, name, text, a);
    SaveKey(After(s, a), p);
  }

  /** Esc instead gives it up: nothing has changed. */
  lemma AddingGivenUp(s: State, name: string, text: string, passes: seq<Pass>)
    requires Browsing(s, 0) && name != "" && name !in s.names && |Encode(text)| <= E.CAPACITY
    requires Presses(passes, [Plain('a')] + Keys(name) + [ENTER] + TextKeys(text) + [ESC], s.idleTimeout)
    ensures var t := After(s, passes); t == s.(editor := [], lastActivity := t.lastActivity)
  {
    var a, p := CutLast(s, passes, [Plain('a')] + Keys(name) + [ENTER] + TextKeys(text), ESC, s.idleTimeout);
    TextTyped(s, name, text, a);
    PressSteps(After(s, a), p, ESC);
  }

  /** Esc in a name or seed form goes back to the list, with nothing changed. */
  lemma FormGivenUp(s: State, p: Pass)
    requires s.mode.AddName? || s.mode.AddTotpName? || s.mode.AddTotpSeed?
    requires s.qr.None? && Press(p, ESC, s.idleTimeout)
    ensures Passed(s, p) == s.(mode := Browse, lastActivity := p.e.now)
  {
    PressSteps(s, p, ESC);
  }

  lemma EditOpened(s: State, name: string, value: seq<u8>, p: Pass)
    requires Browsing(s, 0) && SelectedName(s) == Some(name) && Press(p, Plain('e'), s.idleTimeout)
    requires s.vault.Some? && name in s.vault.value && s.vault.value[name] == Some(value) && |value| <= E.CAPACITY
    ensures Passed(s, p) == s.(mode := EditValue(name, false), editor := value, lastActivity := p.e.now)
  {
    PressSteps(s, p, Plain('e'));
  }

  /** Editing the selected entry: `e`, a text, Ctrl-S append the text to the value. */
  lemma Editing(s: State, name: string, value: seq<u8>, text: string, passes: seq<Pass>)
    requires Browsing(s, 0) && SelectedName(s) == Some(name) && |value + Encode(text)| <= E.CAPACITY
    requires s.vault.Some? && name in s.vault.value && s.vault.value[name] == Some(value) && ValidateSecretName(name).None?
    requires Presses(passes, [Plain('e')] + TextKeys(text) + [Ctrl('s')], s.idleTimeout) && passes[|passes| - 1].e.put.Stored?
    ensures Holds(s, After(s, passes), name, value + Encode(text))
  {
    var a, p := CutLast(s, passes, [Plain('e')] + TextKeys(text), Ctrl('s'), s.idleTimeout);
    var b, c := Cut(s, a, [Plain('e')], TextKeys(text), s.idleTimeout);
    assert b == [b[0]] && [Plain('e')][0] == Plain('e');
    AfterOne(s, b[0]);
    EditOpened(s, name, value, b[0]);
    TypingText(After(s, b), text, c);
    SaveKey(After(s, a), p);
  }

  // ----- one-time passwords

  lemma SeedStored(s: State, name: string, input: string, p: Pass)
    requires s.mode == AddTotpSeed(name, input) && s.qr.None? && s.vault.Some? && Press(p, ENTER, s.idleTimeout)
    ensures var t := Passed(s, p);
      if O.Parsed(input).None? then t == s.(lastActivity := p.e.now)
      else if Accepts(s, name, p.e.put) then Holds(s, t, name, Encode(O.ToUri(O.Parsed(input).value, name)))
      else t.mode.Browse? && t.names == s.names
  {
    TrimTwice(input);
    SeedEntered(s, name, input, p);
    TotpEntry(s.(lastActivity := p.e.now), name, input, TypedUri(input, name), p.e.put);
  }

  lemma SeedEntered(s: State, name: string, input: string, p: Pass)
    requires s.mode == AddTotpSeed(name, input) && s.qr.None? && Press(p, ENTER, s.idleTimeout)
    ensures Passed(s, p) == TotpEntered(s.(lastActivity := p.e.now), name, input, TypedUri(input, name), p.e.put)
  {
    PressSteps(s, p, ENTER);
  }

  lemma TotpEntry(s: State, name: string, input: string, uri: Option<string>, put: Saving)
    requires s.mode == AddTotpSeed(name, input) && s.vault.Some?
    ensures var t := TotpEntered(s, name, input, uri, put);
      if uri.None? then t == s
      else if Accepts(s, name, put) then Holds(s, t, name, Encode(uri.value))
      else t.mode.Browse? && t.names == s.names
  {
    if uri.Some? && Accepts(s, name, put) {
      SaveShows(s, name, Encode(uri.value), put);
    }
  }

  lemma SeedTyped(s: State, name: string, seed: string, passes: seq<Pass>)
    requires Browsing(s, 0) && name != "" && name !in s.names
    requires Presses(passes, [Plain('t')] + Keys(name) + [ENTER] + Keys(seed), s.idleTimeout)
    ensures var t := After(s, passes); t == s.(mode := AddTotpSeed(name, seed), lastActivity := t.lastActivity)
  {
    var a, b := Cut(s, passes, [Plain('t')] + Keys(name) + [ENTER], Keys(seed), s.idleTimeout);
    NameTaken(s, 't', name, a);
    Typing(After(s, a), seed, b);
    assert "" + seed == seed;
  }

  /** Adding a one-time password: `t`, a fresh name, Enter, a seed or URI, Enter. What is stored reads
      back as the configuration that was typed. */
  lemma AddingTotp(s: State, name: string, seed: string, passes: seq<Pass>)
    requires Browsing(s, 0) && s.vault.Some? && name != "" && name !in s.names && ValidateSecretName(name).None?
    requires Presses(passes, [Plain('t')] + Keys(name) + [ENTER] + Keys(seed) + [ENTER], s.idleTimeout)
    requires passes[|passes| - 1].e.put.Stored?
    ensures var t := After(s, passes);
      if O.Parsed(seed).None? then t == s.(mode := AddTotpSeed(name, seed), lastActivity := t.lastActivity)
      else var uri := O.ToUri(O.Parsed(seed).value, name); Holds(s, t, name, Encode(uri)) && O.Parsed(uri) == O.Parsed(seed)
  {
    var ab, q := CutLast(s, passes, [Plain('t')] + Keys(name) + [ENTER] + Keys(seed), ENTER, s.idleTimeout);
    SeedTyped(s, name, seed, ab);
    SeedStored(After(s, ab), name, seed, q);
    O.StoringKeepsMeaning(seed, name);
  }

  lemma SeedMinted(s: State, name: string, input: string, p: Pass)
    requires s.mode == AddTotpSeed(name, input) && s.qr.None? && Accepts(s, name, p.e.put) && Press(p, Ctrl('g'), s.idleTimeout)
    ensures var t := Passed(s, p);
      if p.e.random20.None? then t == s.(mode := Browse, lastActivity := p.e.now)
      else var uri := O.ToUri(O.Config(p.e.random20.value, 6, 30, O.Sha1), name); Holds(s, t, name, Encode(uri)) && t.qr == Some(uri)
  {
    MintKey(s, name, input, p);
    MintEntry(s.(lastActivity := p.e.now), name, MintedUri(p.e.random20, name), p.e.put);
  }

  lemma MintKey(s: State, name: string, input: string, p: Pass)
    requires s.mode == AddTotpSeed(name, input) && s.qr.None? && Press(p, Ctrl('g'), s.idleTimeout)
    ensures Passed(s, p) == TotpMinted(s.(lastActivity := p.e.now), name, MintedUri(p.e.random20, name), p.e.put)
  {
    PressSteps(s, p, Ctrl('g'));
  }

  lemma MintEntry(s: State, name: string, uri: Option<string>, put: Saving)
    requires s.mode.AddTotpSeed? && Accepts(s, name, put)
    ensures var t := TotpMinted(s, name, uri, put);
      if uri.None? then t == s.(mode := Browse) else Holds(s, t, name, Encode(uri.value)) && t.qr == uri
  {
    if uri.Some? {
      SaveShows(s, name, Encode(uri.value), put);
    }
  }

  /** Ctrl-G in place of a seed stores 20 fresh bytes as a code of 6 digits every 30 seconds, and shows
      exactly what it stored. */
  lemma Minting(s: State, name: string, secret: seq<u8>, passes: seq<Pass>)
    requires Browsing(s, 0) && s.vault.Some? && name != "" && name !in s.names && ValidateSecretName(name).None?
    requires Presses(passes, [Plain('t')] + Keys(name) + [ENTER] + [Ctrl('g')], s.idleTimeout)
    requires var e := passes[|passes| - 1].e; e.put.Stored? && e.random20 == Some(secret) && |secret| == 20
    ensures var t := After(s, passes);
      && t.qr.Some? && Holds(s, t, name, Encode(t.qr.value)) && O.Parsed(t.qr.value) == Some(O.Config(secret, 6, 30, O.Sha1))
  {
    var a, p := CutLast(s, passes, [Plain('t')] + Keys(name) + [ENTER], Ctrl('g'), s.idleTimeout);
    NameTaken(s, 't', name, a);
    SeedMinted(After(s, a), name, "", p);
    O.UriReadsBackIff(O.Config(secret, 6, 30, O.Sha1), name);
  }

  /** While a QR code is shown, the next key only takes it away, unless it locks or quits. */
  lemma CodeDismissed(s: State, p: Pass, key: Key)
    requires s.qr.Some? && Press(p, key, s.idleTimeout) && !IsCtrl(key, 'c') && !IsCtrl(key, 'l')
    ensures Passed(s, p) == s.(qr := None, lastActivity := p.e.now)
  {
  }

  // ----- deleting and importing

  lemma DeleteAsked(s: State, p: Pass)
    requires Browsing(s, 0) && Press(p, Plain('d'), s.idleTimeout)
    ensures Passed(s, p) == s.(lastActivity := p.e.now, mode :=
      match SelectedName(s) case Some(name) => ConfirmDelete(name) case None => Browse)
  {
    PressSteps(s, p, Plain('d'));
  }

  lemma DeleteAnswered(s: State, p: Pass, key: Key)
    requires s.mode.ConfirmDelete? && s.qr.None? && s.vault.Some? && Press(p, key, s.idleTimeout)
    requires !IsCtrl(key, 'c') && !IsCtrl(key, 'l')
    ensures var t := Passed(s, p);
      if key.code != Char('y') && key.code != Char('Y') then t == s.(mode := Browse, lastActivity := p.e.now)
      else t.mode.Browse? && t.vault == Some(s.vault.value - {s.mode.name}) && (p.e.deleteSaved ==> T.InSync(t))
  {
    PressSteps(s, p, key);
  }

  /** A sorted list stays sorted when an entry is taken out. */
  lemma ListWithout(keys: set<string>, i: nat)
    requires i < |Listed(keys)|
    ensures var s := Listed(keys); Listed(keys - {s[i]}) == s[..i] + s[i + 1..]
  {
    var s := Listed(keys);
    TakenOut(s, i);
    SortedIsUnique(s[..i] + s[i + 1..], Listed(keys - {s[i]}));
  }

  lemma TakenOut(s: seq<string>, i: nat)
    requires Increasing(s) && i < |s|
    ensures var t := s[..i] + s[i + 1..]; Increasing(t) && Elements(t) == Elements(s) - {s[i]}
  {
    var t := s[..i] + s[i + 1..];
    forall k | 0 <= k < |s| && k != i ensures s[k] != s[i] && s[k] in t {
      Irreflexive(s[i]);
      assert t[if k < i then k else k - 1] == s[k];
    }
  }

  predicate ListedWithout(s: State, t: State) {
    var i := s.selected;
    i < |s.names| && t.names == s.names[..i] + s.names[i + 1..] && t.selected == if i == 0 then 0 else i - 1
  }

  /** After a deletion the list is as before without the entry, and the entry above it is selected. */
  lemma DeletionShown(s: State, p: Pass, key: Key)
    requires s.mode.ConfirmDelete? && s.qr.None? && T.InSync(s) && s.vault.Some? && Press(p, key, s.idleTimeout)
    requires SelectedName(s) == Some(s.mode.name) && (key == Plain('y') || key == Plain('Y')) && p.e.deleteSaved
    ensures ListedWithout(s, Passed(s, p))
  {
    DeletedFromList(s, s.mode.name, p.e.now);
    YesShrinks(s, p, key);
  }

  lemma YesShrinks(s: State, p: Pass, key: Key)
    requires s.mode.ConfirmDelete? && s.qr.None? && Press(p, key, s.idleTimeout) && (key == Plain('y') || key == Plain('Y'))
    requires p.e.deleteSaved && ListedWithout(s, Deleted(s.(lastActivity := p.e.now), s.mode.name, true))
    ensures ListedWithout(s, Passed(s, p))
  {
    YesKey(s, p, key);
  }

  lemma YesKey(s: State, p: Pass, key: Key)
    requires s.mode.ConfirmDelete? && s.qr.None? && Press(p, key, s.idleTimeout) && (key == Plain('y') || key == Plain('Y'))
    ensures Passed(s, p) == Deleted(s.(lastActivity := p.e.now), s.mode.name, p.e.deleteSaved).(mode := Browse)
  {
    PressSteps(s, p, key);
  }

  lemma DeletedFromList(s: State, name: string, now: nat)
    requires T.InSync(s) && s.vault.Some? && SelectedName(s) == Some(name)
    ensures ListedWithout(s, Deleted(s.(lastActivity := now), name, true))
  {
    var v := s.vault.value;
    ListWithout(v.Keys, s.selected);
    assert (v - {name}).Keys == v.Keys - {name};
  }

  /** Deleting: `d`, then `y` or `Y`, remove exactly the selected entry; `d` and any other key change nothing. */
  lemma Deleting(s: State, p: Pass, q: Pass, key: Key)
    requires Browsing(s, 0) && s.vault.Some? && SelectedName(s).Some? && !IsCtrl(key, 'c') && !IsCtrl(key, 'l')
    requires Press(p, Plain('d'), s.idleTimeout) && Press(q, key, s.idleTimeout)
    ensures var t := After(s, [p, q]);
      if key.code != Char('y') && key.code != Char('Y') then t == s.(lastActivity := q.e.now)
      else t.mode.Browse? && t.vault == Some(s.vault.value - {SelectedName(s).value}) && (q.e.deleteSaved ==> T.InSync(t))
  {
    AfterTwo(s, p, q);
    DeleteAsked(s, p);
    DeleteAnswered(Passed(s, p), q, key);
  }

  lemma BundleReceived(s: State, name: string, secret: seq<u8>, p: Pass)
    requires Browsing(s, 1) && (s.pairing.Some? || p.e.pairing.Some?) && p.e.bundle == Some((name, secret))
    requires name !in s.names && Press(p, Plain('r'), s.idleTimeout)
    ensures var t := Passed(s, p);
      t == s.(mode := ConfirmImport(name, secret, p.e.fingerprint), pairing := t.pairing, lastActivity := p.e.now)
  {
    PressSteps(s, p, Plain('r'));
  }

  lemma ImportAnswered(s: State, p: Pass, key: Key)
    requires s.mode.ConfirmImport? && s.qr.None? && s.vault.Some? && Press(p, key, s.idleTimeout)
    requires !IsCtrl(key, 'c') && !IsCtrl(key, 'l')
    ensures var t := Passed(s, p);
      if key.code != Char('y') && key.code != Char('Y') then t == s.(mode := Browse, lastActivity := p.e.now)
      else Accepts(s, s.mode.name, p.e.put) ==> Holds(s, t, s.mode.name, s.mode.secret) && t.index == 0
  {
    PressSteps(s, p, key);
    var active := s.(lastActivity := p.e.now);
    if Accepts(s, s.mode.name, p.e.put) {
      SaveShows(active, s.mode.name, s.mode.secret, p.e.put);
    }
  }

  /** Importing: on the network tab `r`, then `y` or `Y`, store the secret of the bundle under the name it
      came with; `r` and any other key store nothing. */
  lemma Importing(s: State, name: string, secret: seq<u8>, p: Pass, q: Pass, key: Key)
    requires Browsing(s, 1) && s.vault.Some? && (s.pairing.Some? || p.e.pairing.Some?) && p.e.bundle == Some((name, secret))
    requires name !in s.names && ValidateSecretName(name).None? && q.e.put.Stored?
    requires Press(p, Plain('r'), s.idleTimeout) && Press(q, key, s.idleTimeout) && !IsCtrl(key, 'c') && !IsCtrl(key, 'l')
    ensures var t := After(s, [p, q]);
      if key.code != Char('y') && key.code != Char('Y') then t.mode.Browse? && t.vault == s.vault && t.names == s.names
      else Holds(s, t, name, secret)
  {
    AfterTwo(s, p, q);
    BundleReceived(s, name, secret, p);
    ImportAnswered(Passed(s, p), q, key);
  }

  /** Without a bundle, a pairing code or a free name, nothing is imported. */
  lemma BundleRefused(s: State, p: Pass)
    requires Browsing(s, 1) && Press(p, Plain('r'), s.idleTimeout)
    requires p.e.bundle.None? || (s.pairing.None? && p.e.pairing.None?) || p.e.bundle.value.0 in s.names
    ensures var t := Passed(s, p); t == s.(pairing := t.pairing, lastActivity := p.e.now)
  {
    PressSteps(s, p, Plain('r'));
  }

  /** The network tab makes one pairing code and keeps it; `q` shows it. */
  lemma Pairing(s: State, p: Pass, c: char)
    requires Browsing(s, 1) && (c == 'q' || c == 'w') && Press(p, Plain(c), s.idleTimeout)
    ensures var t, code := Passed(s, p), if s.pairing.Some? then s.pairing else p.e.pairing;
      t == s.(pairing := code, qr := if c == 'q' then code else None, lastActivity := p.e.now)
  {
    PressSteps(s, p, Plain(c));
  }

  // ----- generating a value

  predicate IsNumber(w: string) {
    forall i :: 0 <= i < |w| ==> IsDigit(w[i])
  }

  lemma GeneratorKey(s: State, p: Pass, c: char)
    requires s.mode.Generate? && s.qr.None? && Press(p, Plain(c), s.idleTimeout)
    ensures (c == 'w' || c == 'c') ==> Passed(s, p) == s.(mode := s.mode.(words := c == 'w'), lastActivity := p.e.now)
    ensures IsDigit(c) ==>
      Passed(s, p) == s.(mode := s.mode.(count := if |s.mode.count| < 4 then s.mode.count + [c] else s.mode.count), lastActivity := p.e.now)
  {
    PressSteps(s, p, Plain(c));
  }

  /** Of the digits typed, the first four count. */
  lemma {:induction false} CountTyped(s: State, w: string, passes: seq<Pass>)
    requires s.mode.Generate? && s.mode.count == "" && s.qr.None? && IsNumber(w) && Presses(passes, Keys(w), s.idleTimeout)
    ensures var t := After(s, passes);
      t == s.(mode := s.mode.(count := if |w| <= 4 then w else w[..4]), lastActivity := t.lastActivity)
    decreases |w|
  {
    if w != "" {
      var front, c := w[..|w| - 1], w[|w| - 1];
      KeysLast(front, c);
      assert front + [c] == w;
      var a, p := CutLast(s, passes, Keys(front), Plain(c), s.idleTimeout);
      CountTyped(s, front, a);
      GeneratorKey(After(s, a), p, c);
      assert |w| > 4 ==> front[..4] == w[..4];
    }
  }

  /** How many words or characters a count asks for. */
  function Wanted(words: bool, count: string): nat
    requires IsNumber(count)
  {
    if count == "" then (if words then 6 else 20)
    else if DecimalValue(count) == 0 then 1
    else if DecimalValue(count) >= 256 then 256
    else DecimalValue(count)
  }

  lemma {:induction false} NumberBound(w: string)
    requires IsNumber(w) && |w| <= 4
    ensures DecimalValue(w) < [1, 10, 100, 1000, 10_000][|w|]
  {
    if w != "" {
      NumberBound(w[..|w| - 1]);
    }
  }

  lemma LengthIsWanted(words: bool, count: string)
    requires IsNumber(count) && |count| <= 4
    ensures GeneratedLength(words, count) == Wanted(words, count)
  {
    NumberBound(count);
  }

  lemma GeneratorAnswers(s: State, p: Pass)
    requires s.mode.Generate? && s.qr.None? && IsNumber(s.mode.count) && |s.mode.count| <= 4 && Press(p, ENTER, s.idleTimeout)
    ensures var made := p.e.generated(s.mode.words, Wanted(s.mode.words, s.mode.count));
      Passed(s, p) == s.(mode := EditValue(s.mode.name, s.mode.isNew), lastActivity := p.e.now,
        editor := match made case None => s.editor case Some(value) => EditorOf(Encode(value)))
  {
    LengthIsWanted(s.mode.words, s.mode.count);
    PressSteps(s, p, ENTER);
  }

  /** Generating: Ctrl-G in the editor, `w` or `c` or neither, a number or none, Enter. The editor then
      holds what was generated, words or characters, as many as asked for: 1 to 256, and 6 words or 20
      characters unless told. */
  lemma Generating(s: State, kind: string, count: string, passes: seq<Pass>)
    requires s.mode.EditValue? && s.qr.None? && IsNumber(count) && |count| <= 4 && (kind == "" || kind == "w" || kind == "c")
    requires Presses(passes, [Ctrl('g')] + Keys(kind) + Keys(count) + [ENTER], s.idleTimeout)
    ensures var t, words := After(s, passes), kind != "c";
      var made := passes[|passes| - 1].e.generated(words, Wanted(words, count));
      t == s.(editor := match made case None => s.editor case Some(value) => EditorOf(Encode(value)), lastActivity := t.lastActivity)
  {
    var abc, q := CutLast(s, passes, [Ctrl('g')] + Keys(kind) + Keys(count), ENTER, s.idleTimeout);
    var ab, c := Cut(s, abc, [Ctrl('g')] + Keys(kind), Keys(count), s.idleTimeout);
    KindChosen(s, kind, ab);
    CountTyped(After(s, ab), count, c);
    GeneratorAnswers(After(s, abc), q);
  }

  lemma KindChosen(s: State, kind: string, passes: seq<Pass>)
    requires s.mode.EditValue? && s.qr.None? && (kind == "" || kind == "w" || kind == "c")
    requires Presses(passes, [Ctrl('g')] + Keys(kind), s.idleTimeout)
    ensures var t := After(s, passes);
      t == s.(mode := Generate(s.mode.name, s.mode.isNew, kind != "c", ""), lastActivity := t.lastActivity)
  {
    var a, b := Cut(s, passes, [Ctrl('g')], Keys(kind), s.idleTimeout);
    assert a == [a[0]] && [Ctrl('g')][0] == Ctrl('g');
    AfterOne(s, a[0]);
    PressSteps(s, a[0], Ctrl('g'));
    if kind != "" {
      assert b == [b[0]] && Keys(kind)[0] == Plain(kind[0]);
      AfterOne(After(s, a), b[0]);
      GeneratorKey(After(s, a), b[0], kind[0]);
    }
  }

  // ----- leaving

  lemma EscKey(s: State, p: Pass)
    requires Press(p, ESC, s.idleTimeout) && !Quits(s, ESC)
    ensures var t := Passed(s, p);
      t.vault == s.vault && t.names == s.names && t.qr.None? && t.idleTimeout == s.idleTimeout
    ensures s.qr.Some? ==> Passed(s, p).mode == s.mode
    ensures s.qr.None? ==> Passed(s, p).mode == if s.mode.Generate? then EditValue(s.mode.name, s.mode.isNew) else Browse
  {
    if s.qr.None? {
      PressSteps(s, p, ESC);
    }
  }

  lemma EscAgain(s: State, passes: seq<Pass>, n: nat)
    requires Presses(passes, [ESC, ESC, ESC], s.idleTimeout) && n < 3
    ensures After(s, passes[..n + 1]) == Passed(After(s, passes[..n]), passes[n]) && Press(passes[n], ESC, s.idleTimeout)
  {
    assert passes[..n + 1][..n] == passes[..n] && [ESC, ESC, ESC][n] == ESC;
  }

  /** Esc leads out: wherever one is, at most three times Esc reach a state in which Esc quits, and the
      vault and the list have not changed. */
  lemma EscLeadsOut(s: State, passes: seq<Pass>) returns (n: nat)
    requires Presses(passes, [ESC, ESC, ESC], s.idleTimeout)
    ensures n <= 3 && Quits(After(s, passes[..n]), ESC)
    ensures After(s, passes[..n]).vault == s.vault && After(s, passes[..n]).names == s.names
  {
    n := 0;
    while n < 3 && !Quits(After(s, passes[..n]), ESC)
      invariant n <= 3
      invariant var t := After(s, passes[..n]);
        && t.vault == s.vault && t.names == s.names && t.idleTimeout == s.idleTimeout
        && (n >= 1 ==> t.qr.None?) && (n >= 2 ==> !t.mode.Generate?) && (n >= 3 ==> t.mode.Browse?)
    {
      EscAgain(s, passes, n);
      EscKey(After(s, passes[..n]), passes[n]);
      n := n + 1;
    }
  }

  // ----- from the prompt to an entry

  lemma FreshIsUnlisted(s: State, name: string)
    requires T.InSync(s) && s.vault.Some? && name !in s.vault.value
    ensures name !in s.names
  {
    T.ListedIn(s.vault.value.Keys, name);
  }

  /** Unlocking and then adding. */
  lemma OpenedThenAdded(s: State, w: string, name: string, text: string, passes: seq<Pass>, adding: seq<Pass>)
    requires s.mode == Unlock("") && s.qr.None? && s.index == 0 && Presses(passes, Keys(w) + [ENTER], s.idleTimeout)
    requires Presses(adding, [Plain('a')] + Keys(name) + [ENTER] + TextKeys(text) + [Ctrl('s')], s.idleTimeout)
    requires passes[|w|].e.open(w).Some? && name !in passes[|w|].e.open(w).value
    requires ValidateSecretName(name).None? && |Encode(text)| <= E.CAPACITY && adding[|adding| - 1].e.put.Stored?
    ensures After(After(s, passes), adding).vault == Some(passes[|w|].e.open(w).value[name := Some(Encode(text))])
  {
    Unlocking(s, w, passes);
    var t := After(s, passes);
    FreshIsUnlisted(t, name);
    Adding(t, name, text, adding);
  }

  /** In a run from the start: a passphrase, Enter, `a`, a name that is not in the vault behind the
      passphrase, Enter, a text that fits and Ctrl-S leave that vault with exactly this entry added. */
  lemma PromptToEntry(states: seq<State>, opening: seq<Pass>, adding: seq<Pass>, now: nat, timeout: nat, w: string, name: string, text: string)
    requires Run(states, opening + adding) && states[0] == Initial(true, now, timeout)
    requires Presses(opening, Keys(w) + [ENTER], timeout)
    requires Presses(adding, [Plain('a')] + Keys(name) + [ENTER] + TextKeys(text) + [Ctrl('s')], timeout)
    requires opening[|w|].e.open(w).Some? && name !in opening[|w|].e.open(w).value
    requires ValidateSecretName(name).None? && |Encode(text)| <= E.CAPACITY && adding[|adding| - 1].e.put.Stored?
    ensures states[|states| - 1].vault == Some(opening[|w|].e.open(w).value[name := Some(Encode(text))])
  {
    RunEndsAfter(states, opening + adding);
    AfterConcat(states[0], opening, adding);
    OpenedThenAdded(states[0], w, name, text, opening, adding);
  }
}
