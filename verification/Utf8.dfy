/** Words of fixed width, and the UTF-8 encoding of text (section 3 of RFC 3629). */
module Utf8 {
  type u8 = x: int | 0 <= x < 256
  type u32 = x: int | 0 <= x < 0x1_0000_0000
  type u64 = x: int | 0 <= x < 0x1_0000_0000_0000_0000

  function EncodeChar(c: char): (r: seq<u8>)
    ensures 1 <= |r| <= 4
  {
    var n := c as int;
    if n < 0x80 then [n]
    else if n < 0x800 then [0xC0 + n / 0x40, 0x80 + n % 0x40]
    else if n < 0x1_0000 then [0xE0 + n / 0x1000, 0x80 + n / 0x40 % 0x40, 0x80 + n % 0x40]
    else [0xF0 + n / 0x4_0000, 0x80 + n / 0x1000 % 0x40, 0x80 + n / 0x40 % 0x40, 0x80 + n % 0x40]
  }

  function Encode(s: string): seq<u8> {
    if s == [] then [] else Encode(s[..|s| - 1]) + EncodeChar(s[|s| - 1])
  }

  /** A byte of the form 10xxxxxx. */
  predicate IsContinuation(b: u8) {
    b / 0x40 == 2
  }

  /** The lengths of section 3 of RFC 3629, and the characters of its examples in section 7. */
  lemma EncodingTable(c: char)
    ensures var n := c as int;
      |EncodeChar(c)| == if n <= 0x7F then 1 else if n <= 0x7FF then 2 else if n <= 0xFFFF then 3 else 4
    ensures EncodeChar('A') == [0x41] && EncodeChar('\U{2262}') == [0xE2, 0x89, 0xA2]
    ensures EncodeChar('\U{0391}') == [0xCE, 0x91] && EncodeChar('\U{233B4}') == [0xF0, 0xA3, 0x8E, 0xB4]
  {
  }

  /** One lead byte, then continuation bytes only. */
  lemma CharShape(c: char)
    ensures var r := EncodeChar(c);
      !IsContinuation(r[0]) && forall i :: 1 <= i < |r| ==> IsContinuation(r[i])
  {
  }

  /** What is left after stepping back over the last character. */
  function DropLastChar(bytes: seq<u8>): (r: seq<u8>)
    ensures r <= bytes
  {
    if bytes == [] then []
    else if |bytes| > 1 && IsContinuation(bytes[|bytes| - 1]) then DropLastChar(bytes[..|bytes| - 1])
    else bytes[..|bytes| - 1]
  }

  lemma {:induction false} DropEncodedChar(bytes: seq<u8>, r: seq<u8>)
    requires r != [] && !IsContinuation(r[0]) && forall i :: 1 <= i < |r| ==> IsContinuation(r[i])
    ensures DropLastChar(bytes + r) == bytes
    decreases |r|
  {
    var all := bytes + r;
    assert all[|all| - 1] == r[|r| - 1];
    if |r| > 1 {
      assert all[..|all| - 1] == bytes + r[..|r| - 1];
      DropEncodedChar(bytes, r[..|r| - 1]);
    } else {
      assert all[..|all| - 1] == bytes;
    }
  }

  /** Dropping the last character's bytes is dropping the last character. */
  lemma DropLastEncoded(s: string)
    ensures DropLastChar(Encode(s)) == if s == [] then [] else Encode(s[..|s| - 1])
  {
    if s != [] {
      CharShape(s[|s| - 1]);
      DropEncodedChar(Encode(s[..|s| - 1]), EncodeChar(s[|s| - 1]));
    }
  }

  // ----- decoding

  lemma EncodeCharInjective(c: char, d: char)
    requires EncodeChar(c) == EncodeChar(d)
    ensures c == d
  {
    var n, m := c as int, d as int;
    CodePoint(c);
    CodePoint(d);
  }

  function Value(r: seq<int>): int
    requires 1 <= |r| <= 4
  {
    if |r| == 1 then r[0]
    else if |r| == 2 then (r[0] - 0xC0) * 0x40 + r[1] - 0x80
    else if |r| == 3 then (r[0] - 0xE0) * 0x1000 + (r[1] - 0x80) * 0x40 + r[2] - 0x80
    else (r[0] - 0xF0) * 0x4_0000 + (r[1] - 0x80) * 0x1000 + (r[2] - 0x80) * 0x40 + r[3] - 0x80
  }

  lemma CodePoint(c: char)
    ensures Value(EncodeChar(c)) == c as int
  {
    var n := c as int;
    assert n == n / 0x40 * 0x40 + n % 0x40;
    assert n / 0x40 == n / 0x1000 * 0x40 + n / 0x40 % 0x40;
    assert n / 0x1000 == n / 0x4_0000 * 0x40 + n / 0x1000 % 0x40;
  }

  lemma LastEncoded(s: string)
    requires s != []
    ensures var front := Encode(s[..|s| - 1]); Encode(s) == front + EncodeChar(s[|s| - 1])
  {
  }

  lemma TailsEqual(x: seq<u8>, a: seq<u8>, b: seq<u8>)
    requires x + a == x + b
    ensures a == b
  {
    assert (x + a)[|x|..] == a && (x + b)[|x|..] == b;
  }

  lemma FrontsEqual(s: string, t: string)
    requires s != [] && t != [] && Encode(s) == Encode(t)
    ensures Encode(s[..|s| - 1]) == Encode(t[..|t| - 1])
  {
    DropLastEncoded(s);
    DropLastEncoded(t);
  }

  lemma CharsEqual(front: seq<u8>, c: char, d: char)
    requires front + EncodeChar(c) == front + EncodeChar(d)
    ensures c == d
  {
    TailsEqual(front, EncodeChar(c), EncodeChar(d));
    EncodeCharInjective(c, d);
  }

  lemma LastsEqual(s: string, t: string)
    requires s != [] && t != [] && Encode(s) == Encode(t) && s[..|s| - 1] == t[..|t| - 1]
    ensures s[|s| - 1] == t[|t| - 1]
  {
    LastEncoded(s);
    LastEncoded(t);
    CharsEqual(Encode(s[..|s| - 1]), s[|s| - 1], t[|t| - 1]);
  }

  /** Different texts have different encodings. */
  lemma {:induction false} EncodeInjective(s: string, t: string)
    requires Encode(s) == Encode(t)
    ensures s == t
    decreases |s|
  {
    if s == [] || t == [] {
      assert |s| == |t|;
    } else {
      FrontsEqual(s, t);
      EncodeInjective(s[..|s| - 1], t[..|t| - 1]);
      LastsEqual(s, t);
      assert s == s[..|s| - 1] + [s[|s| - 1]] && t == t[..|t| - 1] + [t[|t| - 1]];
    }
  }

  // ----- ASCII

  predicate IsAscii(bytes: seq<u8>) {
    forall i :: 0 <= i < |bytes| ==> bytes[i] < 0x80
  }

  function AsciiText(bytes: seq<u8>): (s: string)
    requires IsAscii(bytes)
    ensures |s| == |bytes|
  {
    seq(|bytes|, i requires 0 <= i < |bytes| => bytes[i] as char)
  }

  lemma {:induction false} AsciiIsText(bytes: seq<u8>)
    requires IsAscii(bytes)
    ensures Encode(AsciiText(bytes)) == bytes
  {
    if bytes != [] {
      var front := bytes[..|bytes| - 1];
      AsciiIsText(front);
      assert AsciiText(bytes)[..|bytes| - 1] == AsciiText(front);
      assert bytes == front + [bytes[|bytes| - 1]];
    }
  }

  // ----- truncation

  lemma NoProperPrefix(c: char, d: char)
    requires EncodeChar(d) <= EncodeChar(c)
    ensures EncodeChar(d) == EncodeChar(c)
  {
    assert EncodeChar(d)[0] == EncodeChar(c)[0];
  }

  /** Valid UTF-8. */
  ghost predicate IsText(bytes: seq<u8>) {
    exists t :: Encode(t) == bytes
  }

  /** Cutting an encoding short leaves the encoding of some text exactly when the cut does not
      fall before a continuation byte. */
  lemma {:induction false} CutIsText(s: string, k: nat)
    requires k < |Encode(s)|
    ensures IsText(Encode(s)[..k]) <==> !IsContinuation(Encode(s)[k])
    decreases |s|
  {
    var front, r := Encode(s[..|s| - 1]), EncodeChar(s[|s| - 1]);
    CharShape(s[|s| - 1]);
    if k < |front| {
      CutIsText(s[..|s| - 1], k);
      assert Encode(s)[..k] == front[..k] && Encode(s)[k] == front[k];
    } else if k == |front| {
      var t := s[..|s| - 1];
      assert Encode(t) == Encode(s)[..k] && Encode(s)[k] == r[0];
    } else {
      var p := r[..k - |front|];
      assert Encode(s)[..k] == front + p && Encode(s)[k] == r[|p|];
      forall t
        ensures Encode(t) != front + p
      {
        if Encode(t) == front + p {
          PartialCharIsNotText(front, p, s[|s| - 1], t);
        }
      }
      assert IsContinuation(Encode(s)[k]);
    }
  }

  lemma PartialCharIsNotText(front: seq<u8>, p: seq<u8>, c: char, t: string)
    requires p != [] && p < EncodeChar(c)
    ensures Encode(t) != front + p
  {
    CharShape(c);
    if Encode(t) == front + p {
      DropEncodedChar(front, p);
      DropLastEncoded(t);
      assert t != [];
      assert Encode(t)[|front|..] == EncodeChar(t[|t| - 1]) == p;
      NoProperPrefix(c, t[|t| - 1]);
    }
  }
}
