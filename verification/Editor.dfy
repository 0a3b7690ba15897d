/** The secret-value editor: UTF-8 text edited in place, at its end, in a fixed buffer. */
module Editor {
  import opened Utf8

  const CAPACITY := 64 * 1024

  class SecureEditor {
    const buf: array<u8>
    var len: nat

    ghost predicate Valid()
      reads this, buf
    {
      && buf.Length == CAPACITY
      && len <= CAPACITY
      && forall i :: len <= i < CAPACITY ==> buf[i] == 0
    }

    ghost function Contents(): (bytes: seq<u8>)
      requires Valid()
      reads this, buf
      ensures |bytes| == len
    {
      buf[..len]
    }

    /** Seeds the buffer with `init`, truncated to capacity. */
    constructor FromBytes(init: seq<u8>)
      ensures Valid() && fresh(buf)
      ensures Contents() == if |init| <= CAPACITY then init else init[..CAPACITY]
    {
      var n := if |init| <= CAPACITY then |init| else CAPACITY;
      buf := new u8[CAPACITY](i => 0);
      len := n;
      new;
      for i := 0 to n
        invariant buf.Length == CAPACITY && len == n
        invariant forall k :: 0 <= k < i ==> buf[k] == init[k]
        invariant forall k :: i <= k < CAPACITY ==> buf[k] == 0
      {
        buf[i] := init[i];
      }
      assert buf[..n] == init[..n];
    }

    method AsBytes() returns (bytes: seq<u8>)
      requires Valid()
      ensures bytes == Contents()
    {
      bytes := buf[..len];
    }

    /** Appends a character, or does nothing when it does not fit. */
    method PushChar(c: char)
      requires Valid()
      modifies this`len, buf
      ensures Valid()
      ensures Contents() == Pushed(old(Contents()), c)
    {
      var bytes := EncodeChar(c);
      if len + |bytes| > CAPACITY {
        return;
      }
      var end := len + |bytes|;
      ghost var before := buf[..len];
      for i := 0 to |bytes|
        invariant len == old(len) && buf[..len] == before
        invariant forall k :: 0 <= k < i ==> buf[len + k] == bytes[k]
        invariant forall k :: end <= k < CAPACITY ==> buf[k] == 0
      {
        buf[len + i] := bytes[i];
      }
      assert buf[..end] == buf[..len] + buf[len..end];
      assert buf[len..end] == bytes;
      len := end;
    }

    /** Removes the last character and wipes its bytes. */
    method Backspace()
      requires Valid()
      modifies this`len, buf
      ensures Valid()
      ensures Contents() == DropLastChar(old(Contents()))
    {
      if len == 0 {
        return;
      }
      var i := len - 1;
      while i > 0 && IsContinuation(buf[i])
        invariant 0 <= i < len == old(len)
        invariant DropLastChar(buf[..len]) == DropLastChar(buf[..i + 1])
      {
        assert buf[..i + 1][..i] == buf[..i];
        i := i - 1;
      }
      assert buf[..i + 1][..i] == buf[..i];
      ghost var kept := buf[..i];
      for k := i to len
        invariant len == old(len) && buf[..i] == kept
        invariant forall j :: i <= j < k ==> buf[j] == 0
        invariant forall j :: len <= j < CAPACITY ==> buf[j] == 0
      {
        buf[k] := 0;
      }
      len := i;
    }
  }

  function Pushed(bytes: seq<u8>, c: char): seq<u8> {
    if |bytes| + |EncodeChar(c)| > CAPACITY then bytes else bytes + EncodeChar(c)
  }

  // ----- the abstract editor: a stack of characters

  datatype Edit = Push(c: char) | Backspace

  function EditBytes(bytes: seq<u8>, edits: seq<Edit>): seq<u8> {
    if edits == [] then bytes
    else
      var before := EditBytes(bytes, edits[..|edits| - 1]);
      match edits[|edits| - 1]
      case Push(c) => Pushed(before, c)
      case Backspace => DropLastChar(before)
  }

  /** The same edits on characters; the stack is bounded by the size of its encoding. */
  function EditText(text: string, edits: seq<Edit>): string {
    if edits == [] then text
    else
      var before := EditText(text, edits[..|edits| - 1]);
      match edits[|edits| - 1]
      case Push(c) => if |Encode(before + [c])| > CAPACITY then before else before + [c]
      case Backspace => if before == [] then [] else before[..|before| - 1]
  }

  lemma EncodePushed(s: string, c: char)
    ensures Encode(s + [c]) == Encode(s) + EncodeChar(c)
  {
    assert (s + [c])[..|s|] == s;
  }

  /** From a valid seed, after any edits, the bytes are the encoding of the abstract text. */
  lemma {:induction false} EditsRefine(text: string, edits: seq<Edit>)
    ensures EditBytes(Encode(text), edits) == Encode(EditText(text, edits))
    decreases |edits|
  {
    if edits != [] {
      var front := edits[..|edits| - 1];
      var before := EditText(text, front);
      EditsRefine(text, front);
      match edits[|edits| - 1]
      case Push(c) => EncodePushed(before, c);
      case Backspace => DropLastEncoded(before);
    }
  }

  /** Backspace undoes a push that fits, whatever the buffer held before. */
  lemma BackspaceUndoesPush(bytes: seq<u8>, c: char)
    requires |bytes| + |EncodeChar(c)| <= CAPACITY
    ensures DropLastChar(Pushed(bytes, c)) == bytes
  {
    CharShape(c);
    DropEncodedChar(bytes, EncodeChar(c));
  }

  /** Edits never exceed the capacity of the buffer. */
  lemma {:induction false} EditsFit(text: string, edits: seq<Edit>)
    requires |Encode(text)| <= CAPACITY
    ensures |Encode(EditText(text, edits))| <= CAPACITY
    decreases |edits|
  {
    if edits != [] {
      var front := edits[..|edits| - 1];
      EditsFit(text, front);
      DropLastEncoded(EditText(text, front));
    }
  }

  /** A seed longer than the buffer is cut; what is left is text, and so edits as text, exactly
      when the first byte cut off does not continue a character. */
  lemma CutSeedIsText(text: string)
    requires |Encode(text)| > CAPACITY
    ensures IsText(Encode(text)[..CAPACITY]) <==> !IsContinuation(Encode(text)[CAPACITY])
  {
    CutIsText(text, CAPACITY);
  }

  /** Such a cut does happen: 65535 ASCII characters and one of two bytes. */
  lemma CutCanSplitACharacter() returns (text: string)
    ensures |Encode(text)| > CAPACITY && !IsText(Encode(text)[..CAPACITY])
  {
    var bytes: seq<u8> := seq(CAPACITY - 1, _ => 0x61);
    var front, c := AsciiText(bytes), '\U{00E9}';
    text := front + [c];
    AsciiIsText(bytes);
    EncodePushed(front, c);
    CutSeedIsText(text);
  }
}
