/** What sequences of key presses do: typing, and the tasks of the front end from first key to last. */
module InteractionFlows {
  import opened Common
  import opened Utf8
  import opened Text
  import opened SecretName
  import opened Names
  import opened Interaction
  import T = InteractionTheorems
  import E = Editor
  import O = Otpauth

  // ----- pressing keys

  ghost function After(s: State, passes: seq<Pass>): State {
    if passes == [] then s else Passed(After(s, passes[..|passes| - 1]), passes[|passes| - 1])
  }

  /** Every run ends in the state after its passes. */
  lemma {:induction false} RunEndsAfter(states: seq<State>, passes: seq<Pass>)
    requires Run(states, passes)
    ensures states[|passes|] == After(states[0], passes)
    decreases |passes|
  {
    if passes != [] {
      var n := |passes| - 1;
      assert FollowsAt(states, passes, n);
      var earlier, front := states[..n + 1], passes[..n];
      forall i | 0 <= i < n ensures FollowsAt(earlier, front, i) {
        assert FollowsAt(states, passes, i);
      }
      RunEndsAfter(earlier, front);
    }
  }

  lemma {:induction false} AfterConcat(s: State, a: seq<Pass>, b: seq<Pass>)
    ensures After(s, a + b) == After(After(s, a), b)
    decreases |b|
  {
    if b == [] {
      assert a + b == a;
    } else {
      assert (a + b)[..|a + b| - 1] == a + b[..|b| - 1];
      AfterConcat(s, a, b[..|b| - 1]);
    }
  }

  /** Passes in which no key is pressed, before the timeout, make no difference. */
  lemma PausesIgnored(s: State, a: seq<Pass>, p: Pass, b: seq<Pass>)
    requires var t := After(s, a); p.key.None? && (t.idleTimeout == 0 || p.checkedAt < t.lastActivity + t.idleTimeout)
    ensures After(s, a + [p] + b) == After(s, a + b)
  {
    assert (a + [p])[..|a|] == a;
    AfterConcat(s, a + [p], b);
    AfterConcat(s, a, b);
  }

  predicate Press(p: Pass, key: Key, idleTimeout: nat) {
    p.key == Some(key) && (idleTimeout == 0 || p.checkedAt < p.e.now + idleTimeout)
  }

  /** One pass for each key, in order, each with its idle check before the timeout. */
  predicate Presses(passes: seq<Pass>, keys: seq<Key>, idleTimeout: nat) {
    |passes| == |keys| && forall i :: 0 <= i < |keys| ==> Press(passes[i], keys[i], idleTimeout)
  }

  lemma PressesCut(passes: seq<Pass>, j: seq<Key>, k: seq<Key>, idleTimeout: nat)
    requires Presses(passes, j + k, idleTimeout)
    ensures Presses(passes[..|j|], j, idleTimeout) && Presses(passes[|j|..], k, idleTimeout)
  {
    forall i | 0 <= i < |j| ensures Press(passes[..|j|][i], j[i], idleTimeout) {
      assert (j + k)[i] == j[i] && Press(passes[i], (j + k)[i], idleTimeout);
    }
    forall i | 0 <= i < |k| ensures Press(passes[|j|..][i], k[i], idleTimeout) {
      assert (j + k)[|j| + i] == k[i] && Press(passes[|j| + i], (j + k)[|j| + i], idleTimeout);
    }
  }

  lemma Cut(s: State, passes: seq<Pass>, j: seq<Key>, k: seq<Key>, idleTimeout: nat) returns (a: seq<Pass>, b: seq<Pass>)
    requires Presses(passes, j + k, idleTimeout)
    ensures passes == a + b && Presses(a, j, idleTimeout) && Presses(b, k, idleTimeout)
    ensures After(s, passes) == After(After(s, a), b)
  {
    PressesCut(passes, j, k, idleTimeout);
    a, b := passes[..|j|], passes[|j|..];
    assert passes == a + b;
    AfterConcat(s, a, b);
  }

  /** The last of some keys. */
  lemma CutLast(s: State, passes: seq<Pass>, keys: seq<Key>, last: Key, idleTimeout: nat) returns (a: seq<Pass>, p: Pass)
    requires Presses(passes, keys + [last], idleTimeout)
    ensures passes == a + [p] && Presses(a, keys, idleTimeout) && Press(p, last, idleTimeout)
    ensures After(s, passes) == Passed(After(s, a), p)
  {
    var b;
    a, b := Cut(s, passes, keys, [last], idleTimeout);
    p := b[0];
    assert b == [p] && passes[..|passes| - 1] == a;
    assert [last][0] == last;
  }

  lemma AfterOne(s: State, p: Pass)
    ensures After(s, [p]) == Passed(s, p)
  {
    assert [p][..0] == [];
    assert After(s, []) == s;
  }

  lemma AfterTwo(s: State, p: Pass, q: Pass)
    ensures After(s, [p, q]) == Passed(Passed(s, p), q)
  {
    assert [p, q][..1] == [p];
    AfterOne(s, p);
  }

  predicate SameTimes(s: State, t: State) {
    t.lastActivity == s.lastActivity && t.idleTimeout == s.idleTimeout
  }

  lemma BrowseKeepsTimes(s: State, key: Key, e: Surroundings)
    ensures SameTimes(s, InBrowse(s, key, e))
  {
  }

  lemma TotpKeepsTimes(s: State, name: string, input: string, key: Key, e: Surroundings)
    ensures SameTimes(s, InAddTotpSeed(s, name, input, key, e))
  {
  }

  lemma EditKeepsTimes(s: State, name: string, isNew: bool, key: Key, e: Surroundings)
    ensures SameTimes(s, InEdit(s, name, isNew, key, e))
  {
  }

  lemma GenerateKeepsTimes(s: State, name: string, isNew: bool, words: bool, count: string, key: Key, e: Surroundings)
    ensures SameTimes(s, InGenerate(s, name, isNew, words, count, key, e))
  {
  }

  lemma StepKeepsTimes(s: State, key: Key, e: Surroundings)
    ensures SameTimes(s, Stepped(s, key, e))
  {
    match s.mode
    case Unlock(_) =>
    case CreateVault(_, _, _) =>
    case Browse => BrowseKeepsTimes(s, key, e);
    case AddName(_) =>
    case AddTotpName(_) =>
    case AddTotpSeed(name, input) => TotpKeepsTimes(s, name, input, key, e);
    case EditValue(name, isNew) => EditKeepsTimes(s, name, isNew, key, e);
    case Generate(name, isNew, words, count) => GenerateKeepsTimes(s, name, isNew, words, count, key, e);
    case ConfirmDelete(_) =>
    case ConfirmImport(_, _, _) =>
  }

  lemma PressSteps(s: State, p: Pass, key: Key)
    requires Press(p, key, s.idleTimeout) && s.qr.None? && !Quits(s, key) && !IsCtrl(key, 'l')
    ensures Passed(s, p) == Stepped(s.(lastActivity := p.e.now), key, p.e)
  {
    StepKeepsTimes(s.(lastActivity := p.e.now), key, p.e);
  }

  const ENTER := Key(Enter, false)
  const ESC := Key(Esc, false)
  const BACKSPACE := Key(Backspace, false)

  function Plain(c: char): Key {
    Key(Char(c), false)
  }

  function Ctrl(c: char): Key {
    Key(Char(c), true)
  }

  function Keys(w: string): seq<Key> {
    seq(|w|, i requires 0 <= i < |w| => Plain(w[i]))
  }

  /** In the editor the Enter key types the line breaks. */
  function TextKey(c: char): Key {
    if c == '\n' then ENTER else Plain(c)
  }

  function TextKeys(w: string): seq<Key> {
    seq(|w|, i requires 0 <= i < |w| => TextKey(w[i]))
  }

  function Times(key: Key, n: nat): seq<Key> {
    seq(n, _ => key)
  }

  lemma KeysLast(w: string, c: char)
    ensures Keys(w + [c]) == Keys(w) + [Plain(c)]
  {
  }

  lemma TextKeysLast(w: string, c: char)
    ensures TextKeys(w + [c]) == TextKeys(w) + [TextKey(c)]
  {
  }

  lemma TimesLast(key: Key, n: nat)
    requires n > 0
    ensures Times(key, n) == Times(key, n - 1) + [key]
  {
  }

  // ----- typing into a field

  /** The text in the field that the keys go to. */
  function Field(mode: Mode): Option<string> {
    match mode
    case Unlock(input) => Some(input)
    case CreateVault(pass, confirm, confirming) => Some(if confirming then confirm else pass)
    case AddName(input) => Some(input)
    case AddTotpName(input) => Some(input)
    case AddTotpSeed(_, input) => Some(input)
    case _ => None
  }

  function WithField(mode: Mode, text: string): Mode {
    match mode
    case Unlock(_) => Unlock(text)
    case CreateVault(pass, confirm, confirming) => if confirming then CreateVault(pass, text, true) else CreateVault(text, confirm, false)
    case AddName(_) => AddName(text)
    case AddTotpName(_) => AddTotpName(text)
    case AddTotpSeed(name, _) => AddTotpSeed(name, text)
    case _ => mode
  }

  lemma FieldReplaced(mode: Mode, x: string, y: string)
    requires Field(mode).Some?
    ensures Field(WithField(mode, x)) == Some(x) && WithField(WithField(mode, x), y) == WithField(mode, y)
    ensures WithField(mode, Field(mode).value) == mode
  {
  }

  lemma FieldKey(s: State, p: Pass, key: Key)
    requires s.qr.None? && Field(s.mode).Some? && Press(p, key, s.idleTimeout)
    requires key == BACKSPACE || (key.code.Char? && !key.ctrl)
    ensures var before := Field(s.mode).value;
      Passed(s, p) == s.(lastActivity := p.e.now, mode := WithField(s.mode,
        if key.code.Char? then before + [key.code.c] else if before == "" then "" else before[..|before| - 1]))
  {
    PressSteps(s, p, key);
  }

  /** Typing appends: after the characters of any text the field holds what it held and the text,
      and nothing else has changed. */
  lemma {:induction false} Typing(s: State, w: string, passes: seq<Pass>)
    requires s.qr.None? && Field(s.mode).Some? && Presses(passes, Keys(w), s.idleTimeout)
    ensures var t := After(s, passes);
      t == s.(mode := WithField(s.mode, Field(s.mode).value + w), lastActivity := t.lastActivity)
    decreases |w|
  {
    var before := Field(s.mode).value;
    if w == "" {
      assert before + w == before;
      FieldReplaced(s.mode, before, before);
    } else {
      var front, c := w[..|w| - 1], w[|w| - 1];
      KeysLast(front, c);
      assert front + [c] == w;
      var a, p := CutLast(s, passes, Keys(front), Plain(c), s.idleTimeout);
      Typing(s, front, a);
      FieldReplaced(s.mode, before + front, before + w);
      FieldKey(After(s, a), p, Plain(c));
      assert before + front + [c] == before + w;
    }
  }

  function WithoutLast(w: string, n: nat): string {
    if n <= |w| then w[..|w| - n] else ""
  }

  lemma WithoutOneMore(w: string, n: nat)
    requires n > 0
    ensures var v := WithoutLast(w, n - 1); WithoutLast(w, n) == if v == "" then "" else v[..|v| - 1]
  {
  }

  /** Backspace, pressed n times, removes the last n characters. */
  lemma {:induction false} Erasing(s: State, n: nat, passes: seq<Pass>)
    requires s.qr.None? && Field(s.mode).Some? && Presses(passes, Times(BACKSPACE, n), s.idleTimeout)
    ensures var t := After(s, passes);
      t == s.(mode := WithField(s.mode, WithoutLast(Field(s.mode).value, n)), lastActivity := t.lastActivity)
    decreases n
  {
    var before := Field(s.mode).value;
    if n == 0 {
      assert WithoutLast(before, 0) == before;
      FieldReplaced(s.mode, before, before);
    } else {
      TimesLast(BACKSPACE, n);
      var a, p := CutLast(s, passes, Times(BACKSPACE, n - 1), BACKSPACE, s.idleTimeout);
      Erasing(s, n - 1, a);
      FieldReplaced(s.mode, WithoutLast(before, n - 1), WithoutLast(before, n));
      FieldKey(After(s, a), p, BACKSPACE);
      WithoutOneMore(before, n);
    }
  }

  /** Typing any text and erasing as many characters leaves everything as it was. */
  lemma TypeThenErase(s: State, w: string, passes: seq<Pass>)
    requires s.qr.None? && Field(s.mode).Some? && Presses(passes, Keys(w) + Times(BACKSPACE, |w|), s.idleTimeout)
    ensures After(s, passes) == s.(lastActivity := After(s, passes).lastActivity)
  {
    var a, b := Cut(s, passes, Keys(w), Times(BACKSPACE, |w|), s.idleTimeout);
    var before := Field(s.mode).value;
    Typing(s, w, a);
    FieldReplaced(s.mode, before + w, before);
    Erasing(After(s, a), |w|, b);
    assert (before + w)[..|before + w| - |w|] == before;
  }

  // ----- typing into the editor

  lemma EditorKey(s: State, c: char, p: Pass)
    requires s.qr.None? && s.mode.EditValue? && Press(p, TextKey(c), s.idleTimeout)
    requires |s.editor| + |EncodeChar(c)| <= E.CAPACITY
    ensures Passed(s, p) == s.(editor := s.editor + EncodeChar(c), lastActivity := p.e.now)
  {
    PressSteps(s, p, TextKey(c));
  }

  lemma EditorBackspace(s: State, p: Pass)
    requires s.qr.None? && s.mode.EditValue? && Press(p, BACKSPACE, s.idleTimeout)
    ensures Passed(s, p) == s.(editor := DropLastChar(s.editor), lastActivity := p.e.now)
  {
    PressSteps(s, p, BACKSPACE);
  }

  lemma {:induction false} TypingText(s: State, w: string, passes: seq<Pass>)
    requires s.qr.None? && s.mode.EditValue? && Presses(passes, TextKeys(w), s.idleTimeout)
    requires |s.editor + Encode(w)| <= E.CAPACITY
    ensures var t := After(s, passes); t == s.(editor := s.editor + Encode(w), lastActivity := t.lastActivity)
    decreases |w|
  {
    if w == "" {
      assert s.editor + Encode("") == s.editor;
    } else {
      var front, c := w[..|w| - 1], w[|w| - 1];
      TextKeysLast(front, c);
      assert front + [c] == w;
      var a, p := CutLast(s, passes, TextKeys(front), TextKey(c), s.idleTimeout);
      E.EncodePushed(front, c);
      TypingText(s, front, a);
      TextGrows(s, After(s, a), front, c, p);
    }
  }

  lemma TextGrows(s: State, t: State, w: string, c: char, p: Pass)
    requires t == s.(editor := s.editor + Encode(w), lastActivity := t.lastActivity) && s.qr.None? && s.mode.EditValue?
    requires Press(p, TextKey(c), s.idleTimeout) && |s.editor + Encode(w + [c])| <= E.CAPACITY
    ensures Passed(t, p) == s.(editor := s.editor + Encode(w + [c]), lastActivity := p.e.now)
  {
    E.EncodePushed(w, c);
    EditorKey(t, c, p);
    assert s.editor + Encode(w) + EncodeChar(c) == s.editor + Encode(w + [c]);
  }

  /** A character that fits, and then Backspace, leave the editor and everything else as it was. */
  lemma TextKeyErased(s: State, c: char, p: Pass, q: Pass)
    requires s.qr.None? && s.mode.EditValue? && |s.editor| + |EncodeChar(c)| <= E.CAPACITY
    requires Press(p, TextKey(c), s.idleTimeout) && Press(q, BACKSPACE, s.idleTimeout)
    ensures After(s, [p, q]) == s.(lastActivity := q.e.now)
  {
    AfterTwo(s, p, q);
    EditorKey(s, c, p);
    EditorBackspace(Passed(s, p), q);
    E.BackspaceUndoesPush(s.editor, c);
  }

  // ----- opening and creating

  /** From the empty prompt, the characters of any passphrase and Enter open what is behind that
      passphrase, with all its names listed, or leave the empty prompt. */
  lemma Unlocking(s: State, w: string, passes: seq<Pass>)
    requires s.mode == Unlock("") && s.qr.None? && Presses(passes, Keys(w) + [ENTER], s.idleTimeout)
    ensures var t, found := After(s, passes), passes[|w|].e.open(w);
      && (found.Some? ==> t.mode == Browse && t.vault == found && T.InSync(t) && t.index == s.index && t.qr.None? && t.idleTimeout == s.idleTimeout)
      && (found.None? ==> t == s.(lastActivity := t.lastActivity))
  {
    var a, p := CutLast(s, passes, Keys(w), ENTER, s.idleTimeout);
    Typing(s, w, a);
    assert "" + w == w && passes[|w|] == p;
    PressSteps(After(s, a), p, ENTER);
  }

  /** A new vault takes the same passphrase twice, not empty; it is empty, and anything else starts over. */
  lemma Creating(s: State, w: string, v: string, passes: seq<Pass>)
    requires s.mode == CreateVault("", "", false) && s.qr.None?
    requires Presses(passes, Keys(w) + [ENTER] + Keys(v) + [ENTER], s.idleTimeout)
    ensures var t := After(s, passes);
      if w != "" && w == v && passes[|passes| - 1].e.created
      then t == s.(mode := Browse, vault := Some(map[]), names := [], selected := 0, lastActivity := t.lastActivity)
      else t == s.(lastActivity := t.lastActivity)
  {
    var abc, q := CutLast(s, passes, Keys(w) + [ENTER] + Keys(v), ENTER, s.idleTimeout);
    var ab, c := Cut(s, abc, Keys(w) + [ENTER], Keys(v), s.idleTimeout);
    var a, p := CutLast(s, ab, Keys(w), ENTER, s.idleTimeout);
    Typing(s, w, a);
    assert "" + w == w && "" + v == v;
    PressSteps(After(s, a), p, ENTER);
    Typing(After(s, ab), v, c);
    PressSteps(After(s, abc), q, ENTER);
    SortedIsUnique([], Listed({}));
  }
}
