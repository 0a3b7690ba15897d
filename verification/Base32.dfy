/** Base32 text (section 6 of RFC 4648): unpadded when written, lenient when read. */
module Base32 {
  import opened Common
  import opened Utf8
  import opened Bits

  const WORD := 0x1_0000_0000  // the accumulator is a 32-bit word

  type Symbol = x: nat | x < 32

  function SymbolChar(v: Symbol): char {
    "ABCDEFGHIJKLMNOPQRSTUVWXYZ234567"[v]
  }

  function Upper(c: char): char {
    if 'a' <= c <= 'z' then (c as int - 32) as char else c
  }

  predicate IsSeparator(c: char) {
    c == '=' || c == ' ' || c == '-'
  }

  function CharSymbol(c: char): Option<Symbol> {
    if 'A' <= c <= 'Z' then Some(c as int - 'A' as int)
    else if '2' <= c <= '7' then Some(c as int - '2' as int + 26)
    else None
  }

  /** The symbols of a text, without separators and regardless of case; None if a character is
      neither a symbol nor a separator. */
  function Symbols(s: string): Option<seq<Symbol>> {
    if s == [] then Some([])
    else
      match Symbols(s[..|s| - 1])
      case None => None
      case Some(front) =>
        var c := Upper(s[|s| - 1]);
        if IsSeparator(c) then Some(front)
        else
          match CharSymbol(c)
          case None => None
          case Some(v) => Some(front + [v])
  }

  /** Decoding: the whole bytes of the big-endian bit string of the symbols. */
  function Decoded(s: string): Option<seq<u8>> {
    match Symbols(s)
    case None => None
    case Some(syms) =>
      var bytes := SymbolBytes(syms);
      if bytes == [] then None else Some(bytes)
  }

  function SymbolBytes(syms: seq<Symbol>): seq<u8> {
    PackFits(Unpack(syms, 5), 8);
    Pack(Unpack(syms, 5), 8)
  }

  lemma PackFits(b: seq<bool>, w: nat)
    requires w > 0
    ensures forall i :: 0 <= i < |Pack(b, w)| ==> Pack(b, w)[i] < Pow2(w)
    ensures Pow2(8) == 256 && Pow2(5) == 32
  {
    UnpackPack(b, w);
    assert Pow2(4) == 16;
  }

  /** Encoding: the bit string of the bytes, filled up with zeros to whole symbols. */
  function Encoded(data: seq<u8>): string {
    SymbolText(ByteSymbols(data))
  }

  function SymbolText(syms: seq<Symbol>): (text: string)
    ensures |text| == |syms|
  {
    seq(|syms|, i requires 0 <= i < |syms| => SymbolChar(syms[i]))
  }

  function Padding(data: seq<u8>): (p: seq<bool>)
    ensures |p| < 5
  {
    seq((5 - |data| * 8 % 5) % 5, _ => false)
  }

  function ByteSymbols(data: seq<u8>): seq<Symbol> {
    PackFits(Unpack(data, 8) + Padding(data), 5);
    Pack(Unpack(data, 8) + Padding(data), 5)
  }

  // ----- the loops of the implementation

  /** The next symbol is taken in, and a whole byte written out if there is one. */
  method TakeSymbol(acc: nat, pending: nat, before: seq<u8>, v: Symbol, ghost syms: seq<Symbol>)
    returns (word: nat, nbits: nat, out: seq<u8>)
    requires acc < WORD && pending < 8
    requires Unpack(syms, 5) == Unpack(before, 8) + NatBits(acc, pending)
    ensures word < WORD && nbits < 8
    ensures Unpack(syms + [v], 5) == Unpack(out, 8) + NatBits(word, nbits)
  {
    out := before;
    word := acc * 32 % WORD + v;
    nbits := pending + 5;
    DecodeStep(syms, before, acc, nbits, v, word);
    if nbits >= 8 {
      nbits := nbits - 8;
      out := out + [Shr(word, nbits) % 256];
    }
  }

  method DecodeBase32(s: string) returns (r: Option<seq<u8>>)
    ensures r == Decoded(s)
  {
    var acc, nbits := 0, 0;
    var out: seq<u8> := [];
    ghost var syms: seq<Symbol> := [];
    for i := 0 to |s|
      invariant 0 <= acc < WORD && 0 <= nbits < 8
      invariant Symbols(s[..i]) == Some(syms)
      invariant Unpack(syms, 5) == Unpack(out, 8) + NatBits(acc, nbits)
    {
      assert s[..i + 1][..i] == s[..i];
      var c := Upper(s[i]);
      if IsSeparator(c) {
        continue;
      }
      var val := CharSymbol(c);
      if val.None? {
        NoSymbols(s, i + 1);
        return None;
      }
      acc, nbits, out := TakeSymbol(acc, nbits, out, val.value, syms);
      syms := syms + [val.value];
    }
    assert s[..|s|] == s;
    Pow2Values();
    PackUnpack(out, 8, NatBits(acc, nbits));
    r := if out == [] then None else Some(out);
  }

  lemma AppendSymbol(syms: seq<Symbol>, v: Symbol)
    ensures SymbolText(syms + [v]) == SymbolText(syms) + [SymbolChar(v)]
  {
  }

  /** The inner loop of encoding: writes out the whole symbols among the pending bits. */
  method DrainSymbols(acc: nat, pending: nat, written: string, ghost before: seq<Symbol>, ghost stream: seq<bool>)
    returns (bits: nat, text: string, ghost syms: seq<Symbol>)
    requires written == SymbolText(before)
    requires stream == Unpack(before, 5) + NatBits(acc, pending)
    ensures bits < 5
    ensures text == SymbolText(syms)
    ensures stream == Unpack(syms, 5) + NatBits(acc, bits)
  {
    bits, text, syms := pending, written, before;
    while bits >= 5
      invariant text == SymbolText(syms)
      invariant stream == Unpack(syms, 5) + NatBits(acc, bits)
    {
      bits := bits - 5;
      var v := Shr(acc, bits) % 32;
      EmitSymbol(stream, syms, acc, bits, v);
      text := text + [SymbolChar(v)];
      syms := syms + [v];
    }
  }

  /** One round of the outer loop of encoding: a byte is taken in, and whole symbols are written out. */
  method TakeOne(b: u8, acc: nat, pending: nat, written: string, ghost before: seq<Symbol>, ghost stream: seq<bool>)
    returns (text: string, word: nat, bits: nat, ghost syms: seq<Symbol>)
    requires acc < WORD && pending < 5 && written == SymbolText(before)
    requires stream == Unpack(before, 5) + NatBits(acc, pending)
    ensures word < WORD && bits < 5 && text == SymbolText(syms)
    ensures stream + NatBits(b, 8) == Unpack(syms, 5) + NatBits(word, bits)
  {
    ghost var more := stream + NatBits(b, 8);
    word := acc * 256 % WORD + b;
    assert word < WORD && more == Unpack(before, 5) + NatBits(word, pending + 8) by {
      TakeByte(stream, before, acc, pending, b);
    }
    bits, text, syms := DrainSymbols(word, pending + 8, written, before, more);
  }

  /** The outer loop of encoding. */
  method TakeBytes(data: seq<u8>) returns (text: string, acc: nat, bits: nat, ghost syms: seq<Symbol>)
    ensures acc < WORD && bits < 5
    ensures text == SymbolText(syms)
    ensures Unpack(data, 8) == Unpack(syms, 5) + NatBits(acc, bits)
  {
    text, acc, bits, syms := "", 0, 0, [];
    ghost var stream: seq<bool> := [];
    for i := 0 to |data|
      invariant acc < WORD && bits < 5
      invariant text == SymbolText(syms)
      invariant stream == Unpack(data[..i], 8) && stream == Unpack(syms, 5) + NatBits(acc, bits)
    {
      text, acc, bits, syms := TakeOne(data[i], acc, bits, text, syms, stream);
      UnpackNext(data, i);
      stream := stream + NatBits(data[i], 8);
    }
    assert data[..|data|] == data;
  }

  method EncodeBase32(data: seq<u8>) returns (text: string)
    ensures text == Encoded(data)
  {
    var acc, bits;
    ghost var syms;
    text, acc, bits, syms := TakeBytes(data);
    Finish(data, syms, acc, bits);
    if bits > 0 {
      var v := acc * Pow2(5 - bits) % WORD % 32;
      AppendSymbol(syms, v);
      text := text + [SymbolChar(v)];
    }
  }

  // ----- why the loops are right

  lemma Pow2Values()
    ensures Pow2(8) == 256 && Pow2(5) == 32 && Pow2(32) == WORD
  {
    assert Pow2(4) == 16;
    assert Pow2(8) == 16 * Pow2(4);
    assert Pow2(12) == 16 * Pow2(8);
    assert Pow2(16) == 16 * Pow2(12);
    assert Pow2(20) == 16 * Pow2(16);
    assert Pow2(24) == 16 * Pow2(20);
    assert Pow2(28) == 16 * Pow2(24);
  }

  lemma Assoc(a: seq<bool>, b: seq<bool>, c: seq<bool>)
    ensures a + b + c == a + (b + c)
  {
  }

  // Arithmetic of the word, without bits.
  lemma Word5(acc: nat, v: nat)
    requires v < 32
    ensures (acc * 32 + v) % WORD == acc * 32 % WORD + v < WORD
  {
    var q, r := acc / 0x800_0000, acc % 0x800_0000;
    assert acc * 32 == WORD * q + 32 * r;
  }

  lemma Word8(acc: nat, v: nat)
    requires v < 256
    ensures (acc * 256 + v) % WORD == acc * 256 % WORD + v < WORD
  {
    var q, r := acc / 0x100_0000, acc % 0x100_0000;
    assert acc * 256 == WORD * q + 256 * r;
  }

  lemma LowBits(x: nat, w: nat)
    requires w <= 32
    ensures NatBits(x % WORD, w) == NatBits(x, w)
  {
    Pow2Values();
    HighBitsShed(x, 32, w);
  }

  lemma Append5(n: nat, v: nat, w: nat)
    requires v < 32
    ensures NatBits(n * 32 + v, w + 5) == NatBits(n, w) + NatBits(v, 5)
  {
    Pow2Values();
    ShiftIn(n, 5, v, w);
  }

  lemma Append8(n: nat, v: nat, w: nat)
    requires v < 256
    ensures NatBits(n * 256 + v, w + 8) == NatBits(n, w) + NatBits(v, 8)
  {
    Pow2Values();
    ShiftIn(n, 8, v, w);
  }

  /** Shifting five new bits into the accumulator keeps the pending bits, although the word sheds
      its high ones. */
  lemma TakeIn5(acc: nat, v: nat, pending: nat)
    requires v < 32 && pending + 5 <= 32
    ensures NatBits(acc * 32 % WORD + v, pending + 5) == NatBits(acc, pending) + NatBits(v, 5)
    ensures acc * 32 % WORD + v < WORD
  {
    Append5(acc, v, pending);
    Word5(acc, v);
    LowBits(acc * 32 + v, pending + 5);
  }

  lemma TakeIn8(acc: nat, v: nat, pending: nat)
    requires v < 256 && pending + 8 <= 32
    ensures NatBits(acc * 256 % WORD + v, pending + 8) == NatBits(acc, pending) + NatBits(v, 8)
    ensures acc * 256 % WORD + v < WORD
  {
    Append8(acc, v, pending);
    Word8(acc, v);
    LowBits(acc * 256 + v, pending + 8);
  }

  /** The top `k` of the pending bits are what shifting and masking extract. */
  lemma SplitOff(acc: nat, k: nat, pending: nat)
    requires k == 5 || k == 8
    ensures NatBits(acc, pending + k) == NatBits(Shr(acc, pending) % (if k == 5 then 32 else 256), k) + NatBits(acc, pending)
  {
    Pow2Values();
    SplitBits(acc, k, pending);
    HighBitsShed(Shr(acc, pending), k, k);
  }

  // One step of each loop.
  lemma DecodeStep(syms: seq<Symbol>, out: seq<u8>, acc: nat, nbits: nat, v: Symbol, word: nat)
    requires 5 <= nbits < 13 && Unpack(syms, 5) == Unpack(out, 8) + NatBits(acc, nbits - 5)
    requires word == acc * 32 % WORD + v
    ensures word < WORD
    ensures nbits < 8 ==> Unpack(syms + [v], 5) == Unpack(out, 8) + NatBits(word, nbits)
    ensures nbits >= 8 ==> Unpack(syms + [v], 5) == Unpack(out + [Shr(word, nbits - 8) % 256], 8) + NatBits(word, nbits - 8)
  {
    TakeIn5(acc, v, nbits - 5);
    UnpackAppend(syms, v, 5);
    Assoc(Unpack(out, 8), NatBits(acc, nbits - 5), NatBits(v, 5));
    if nbits >= 8 {
      var byte := Shr(word, nbits - 8) % 256;
      SplitOff(word, 8, nbits - 8);
      UnpackAppend(out, byte, 8);
      Assoc(Unpack(out, 8), NatBits(byte, 8), NatBits(word, nbits - 8));
    }
  }

  lemma TakeByte(stream: seq<bool>, syms: seq<Symbol>, acc: nat, bits: nat, b: u8)
    requires bits < 5 && stream == Unpack(syms, 5) + NatBits(acc, bits)
    ensures var word := acc * 256 % WORD + b;
      word < WORD && stream + NatBits(b, 8) == Unpack(syms, 5) + NatBits(word, bits + 8)
  {
    TakeIn8(acc, b, bits);
    Assoc(Unpack(syms, 5), NatBits(acc, bits), NatBits(b, 8));
  }

  lemma UnpackNext(data: seq<u8>, i: nat)
    requires i < |data|
    ensures Unpack(data[..i + 1], 8) == Unpack(data[..i], 8) + NatBits(data[i], 8)
  {
    assert data[..i + 1] == data[..i] + [data[i]];
    UnpackAppend(data[..i], data[i], 8);
  }

  lemma EmitSymbol(stream: seq<bool>, syms: seq<Symbol>, acc: nat, bits: nat, v: Symbol)
    requires stream == Unpack(syms, 5) + NatBits(acc, bits + 5) && v == Shr(acc, bits) % 32
    ensures stream == Unpack(syms + [v], 5) + NatBits(acc, bits)
    ensures SymbolText(syms + [v]) == SymbolText(syms) + [SymbolChar(v)]
  {
    SplitOff(acc, 5, bits);
    UnpackAppend(syms, v, 5);
    Assoc(Unpack(syms, 5), NatBits(v, 5), NatBits(acc, bits));
  }

  lemma {:induction false} NoSymbols(s: string, i: nat)
    requires i <= |s| && Symbols(s[..i]).None?
    ensures Symbols(s).None?
    decreases |s| - i
  {
    if i < |s| {
      assert s[..i + 1][..i] == s[..i];
      NoSymbols(s, i + 1);
    } else {
      assert s[..i] == s;
    }
  }

  lemma LastSymbol(acc: nat, bits: nat)
    requires 0 < bits < 5
    ensures NatBits(acc * Pow2(5 - bits) % WORD % 32, 5) == NatBits(acc, bits) + NatBits(0, 5 - bits)
  {
    Pow2Values();
    ShiftIn(acc, 5 - bits, 0, bits);
    HighBitsShed(acc * Pow2(5 - bits), 32, 5);
    HighBitsShed(acc * Pow2(5 - bits) % WORD, 5, 5);
  }

  lemma {:induction false} ZeroBits(k: nat)
    ensures NatBits(0, k) == seq(k, _ => false)
    decreases k
  {
    if k > 0 {
      ZeroBits(k - 1);
    }
  }

  lemma AllBitsTaken(data: seq<u8>, syms: seq<Symbol>, k: nat)
    requires k < 5 && Unpack(syms, 5) == Unpack(data, 8) + NatBits(0, k)
    ensures ByteSymbols(data) == syms
  {
    Pow2Values();
    UnpackLength(syms, 5);
    UnpackLength(data, 8);
    ZeroBits(k);
    PaddingUnique(|data|, |syms|, k);
    assert Unpack(syms, 5) + [] == Unpack(data, 8) + Padding(data);
    PackUnpack(syms, 5, []);
  }

  lemma Finish(data: seq<u8>, syms: seq<Symbol>, acc: nat, bits: nat)
    requires bits < 5 && Unpack(data, 8) == Unpack(syms, 5) + NatBits(acc, bits)
    ensures ByteSymbols(data) == if bits > 0 then syms + [acc * Pow2(5 - bits) % WORD % 32] else syms
  {
    if bits > 0 {
      var v := acc * Pow2(5 - bits) % WORD % 32;
      LastSymbol(acc, bits);
      UnpackAppend(syms, v, 5);
      Assoc(Unpack(syms, 5), NatBits(acc, bits), NatBits(0, 5 - bits));
      AllBitsTaken(data, syms + [v], 5 - bits);
    } else {
      AllBitsTaken(data, syms, 0);
    }
  }

  lemma PaddingFills(n: nat)
    ensures (n * 8 + (5 - n * 8 % 5) % 5) % 5 == 0
  {
  }

  lemma PaddingUnique(n: nat, m: nat, k: nat)
    requires k < 5 && m * 5 == n * 8 + k
    ensures k == (5 - n * 8 % 5) % 5
  {
    if k == 0 {
      Remainder(n * 8, m, 0);
    } else {
      Remainder(n * 8, m - 1, 5 - k);
    }
  }

  lemma Remainder(x: nat, q: int, r: nat)
    requires x == 5 * q + r && r < 5
    ensures x % 5 == r
  {
  }

  // ----- round trip and leniency

  lemma SymbolRead(text: string, front: seq<Symbol>, v: Symbol)
    requires text != [] && Symbols(text[..|text| - 1]) == Some(front)
    requires var c := Upper(text[|text| - 1]); !IsSeparator(c) && CharSymbol(c) == Some(v)
    ensures Symbols(text) == Some(front + [v])
  {
  }

  lemma {:induction false} SymbolsOfText(syms: seq<Symbol>)
    ensures Symbols(SymbolText(syms)) == Some(syms)
    decreases |syms|
  {
    var text := SymbolText(syms);
    if syms != [] {
      var front := syms[..|syms| - 1];
      var v := syms[|syms| - 1];
      SymbolsOfText(front);
      assert text[..|text| - 1] == SymbolText(front);
      SymbolRoundTrip(v);
      SymbolRead(text, front, v);
      assert syms == front + [v];
    }
  }

  lemma SymbolRoundTrip(v: Symbol)
    ensures var c := Upper(SymbolChar(v)); !IsSeparator(c) && CharSymbol(c) == Some(v)
  {
  }

  /** The symbols written for `data` spell out exactly its bits and the padding. */
  lemma SymbolsSpellBits(data: seq<u8>)
    ensures Unpack(ByteSymbols(data), 5) == Unpack(data, 8) + Padding(data)
  {
    var padded := Unpack(data, 8) + Padding(data);
    UnpackLength(data, 8);
    PaddingFills(|data|);
    PackedWhole(padded);
  }

  lemma PackedWhole(b: seq<bool>)
    requires |b| % 5 == 0
    ensures Unpack(Pack(b, 5), 5) == b
  {
    UnpackPack(b, 5);
    UnpackLength(Pack(b, 5), 5);
    FifthsFill(|b|, |Pack(b, 5)|);
  }

  lemma FifthsFill(n: nat, m: nat)
    requires n % 5 == 0 && m * 5 <= n < m * 5 + 5
    ensures n == m * 5
  {
  }

  /** Decoding inverts encoding on every nonempty byte string. */
  lemma RoundTrip(data: seq<u8>)
    requires data != []
    ensures Decoded(Encoded(data)) == Some(data)
  {
    var syms := ByteSymbols(data);
    SymbolsOfText(syms);
    SymbolsSpellBits(data);
    Pow2Values();
    PackUnpack(data, 8, Padding(data));
  }

  /** A decoded text holds floor(5k/8) bytes for k symbols: the leading bits of their bit string. */
  lemma DecodesLeadingBits(s: string, syms: seq<Symbol>)
    requires Symbols(s) == Some(syms)
    ensures |syms| * 5 / 8 == 0 ==> Decoded(s).None?
    ensures |syms| * 5 / 8 > 0 ==> Decoded(s).Some? && LeadingBytes(Decoded(s).value, syms)
  {
    var bytes := SymbolBytes(syms);
    UnpackLength(syms, 5);
    UnpackPack(Unpack(syms, 5), 8);
    UnpackLength(bytes, 8);
  }

  ghost predicate LeadingBytes(bytes: seq<u8>, syms: seq<Symbol>) {
    |bytes| == |syms| * 5 / 8 && Unpack(bytes, 8) <= Unpack(syms, 5)
  }

  /** The alphabet of section 6 of RFC 4648. */
  lemma Alphabet(v: Symbol)
    ensures v < 26 ==> SymbolChar(v) as int == 'A' as int + v
    ensures v >= 26 ==> SymbolChar(v) as int == '2' as int + v - 26
    ensures CharSymbol(SymbolChar(v)) == Some(v)
    ensures v < 26 ==> Upper(('a' as int + v) as char) == SymbolChar(v)
  {
    SymbolRoundTrip(v);
  }

  /** What is written for `data` spells its bits, followed by fewer than five zeros. */
  lemma EncodedSpells(data: seq<u8>) returns (syms: seq<Symbol>, zeros: nat)
    ensures Symbols(Encoded(data)) == Some(syms) && |Encoded(data)| == |syms| && zeros < 5
    ensures Unpack(syms, 5) == Unpack(data, 8) + seq(zeros, _ => false)
  {
    syms, zeros := ByteSymbols(data), |Padding(data)|;
    SymbolsOfText(syms);
    SymbolsSpellBits(data);
  }

  /** Case does not matter. */
  lemma {:induction false} CaseIgnored(s: string, t: string)
    requires |s| == |t| && forall i :: 0 <= i < |s| ==> Upper(s[i]) == Upper(t[i])
    ensures Decoded(s) == Decoded(t)
  {
    SameSymbols(s, t);
  }

  lemma {:induction false} SameSymbols(s: string, t: string)
    requires |s| == |t| && forall i :: 0 <= i < |s| ==> Upper(s[i]) == Upper(t[i])
    ensures Symbols(s) == Symbols(t)
    decreases |s|
  {
    if s != [] {
      SameSymbols(s[..|s| - 1], t[..|t| - 1]);
    }
  }

  /** A separator may be inserted anywhere. */
  lemma SeparatorIgnored(s: string, i: nat, c: char)
    requires i <= |s| && IsSeparator(c)
    ensures Decoded(s[..i] + [c] + s[i..]) == Decoded(s)
  {
    SeparatorInserted(s, i, c);
  }

  lemma SameLast(s: string, t: string)
    requires s != [] && t != [] && Symbols(s[..|s| - 1]) == Symbols(t[..|t| - 1]) && s[|s| - 1] == t[|t| - 1]
    ensures Symbols(s) == Symbols(t)
  {
  }

  lemma {:induction false} SeparatorInserted(s: string, i: nat, c: char)
    requires i <= |s| && IsSeparator(c)
    ensures Symbols(s[..i] + [c] + s[i..]) == Symbols(s)
    decreases |s|
  {
    var t := s[..i] + [c] + s[i..];
    if i == |s| {
      assert t[..|t| - 1] == s;
    } else {
      var front := s[..|s| - 1];
      SeparatorInserted(front, i, c);
      assert t[..|t| - 1] == front[..i] + [c] + front[i..];
      SameLast(s, t);
    }
  }
}
