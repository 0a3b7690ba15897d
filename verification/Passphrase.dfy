/** Choosing words by consecutive fields of a random bit stream. */
module Passphrase {
  import opened Common
  import opened Utf8
  import opened Arithmetic
  import opened Bits
  import T = Text

  datatype WordError = BadWordlist | NeedBytes(needed: nat, got: nat)

  /** k when n is 2^k, else None. */
  function Exponent(n: nat): (k: Option<nat>)
    ensures k.Some? ==> n == Pow2(k.value)
  {
    if n == 0 then None
    else if n == 1 then Some(0)
    else if n % 2 == 1 then None
    else
      match Exponent(n / 2)
      case None => None
      case Some(k) => Some(k + 1)
  }

  function CeilDiv8(n: nat): nat {
    (n + 7) / 8
  }

  function EntropyBits(wordlistLen: nat, count: nat): nat {
    if Exponent(wordlistLen).Some? && wordlistLen > 1 then Exponent(wordlistLen).value * count else 0
  }

  function RequiredRandomBytes(wordlistLen: nat, count: nat): nat {
    if Exponent(wordlistLen).None? || wordlistLen <= 1 then 0 else CeilDiv8(Exponent(wordlistLen).value * count)
  }

  /** The stream of random bits, most significant bit of each byte first. */
  function Stream(random: seq<u8>): (b: seq<bool>)
    ensures |b| == 8 * |random|
  {
    UnpackLength(random, 8);
    Unpack(random, 8)
  }

  function Words(wordlist: seq<string>, indices: seq<nat>): (r: seq<string>)
    requires forall i :: 0 <= i < |indices| ==> indices[i] < |wordlist|
    ensures |r| == |indices|
  {
    seq(|indices|, i requires 0 <= i < |indices| => wordlist[indices[i]])
  }

  function SelectedIndices(bits: nat, count: nat, random: seq<u8>): (r: seq<nat>)
    requires bits > 0 && count * bits <= 8 * |random|
    ensures Fits(r, bits) && |r| == count
  {
    var field := Stream(random)[..count * bits];
    PackLength(field, bits, count);
    UnpackPack(field, bits);
    Pack(field, bits)
  }

  function Selected(wordlist: seq<string>, count: nat, random: seq<u8>): Result<seq<string>, WordError> {
    if Exponent(|wordlist|).None? || |wordlist| <= 1 then Err(BadWordlist)
    else
      var bits := Exponent(|wordlist|).value;
      if 8 * |random| < count * bits then Err(NeedBytes(CeilDiv8(count * bits), |random|))
      else Ok(Words(wordlist, SelectedIndices(bits, count, random)))
  }

  method SelectWords(wordlist: seq<string>, count: nat, random: seq<u8>) returns (r: Result<seq<string>, WordError>)
    ensures r == Selected(wordlist, count, random)
  {
    var exponent := Exponent(|wordlist|);
    if exponent.None? || |wordlist| <= 1 {
      return Err(BadWordlist);
    }
    var bits := exponent.value;
    var neededBits := count * bits;
    if |random| * 8 < neededBits {
      return Err(NeedBytes(CeilDiv8(neededBits), |random|));
    }
    var out := ReadWords(wordlist, bits, count, random);
    r := Ok(out);
  }

  method ReadWords(wordlist: seq<string>, bits: nat, count: nat, random: seq<u8>) returns (out: seq<string>)
    requires bits > 0 && count * bits <= 8 * |random| && |wordlist| == Pow2(bits)
    ensures out == Words(wordlist, SelectedIndices(bits, count, random))
  {
    ghost var indices := SelectedIndices(bits, count, random);
    out := [];
    var bitPos := 0;
    for i := 0 to count
      invariant bitPos == i * bits
      invariant out == Words(wordlist, indices)[..i]
    {
      FieldsFit(i, count, bits);
      FieldAt(random, bits, count, i);
      var idx;
      idx, bitPos := ReadField(random, bitPos, bits);
      assert idx == indices[i];
      out := out + [wordlist[idx]];
    }
  }

  /** The next `bits` bits as a number, and the position after them. */
  method ReadField(random: seq<u8>, start: nat, bits: nat) returns (idx: nat, bitPos: nat)
    requires start + bits <= 8 * |random|
    ensures bitPos == start + bits
    ensures idx == BitsToNat(Stream(random)[start..start + bits])
  {
    ghost var stream := Stream(random);
    idx, bitPos := 0, start;
    for j := 0 to bits
      invariant bitPos == start + j
      invariant idx == BitsToNat(stream[start..bitPos])
    {
      var bit := Shr(random[bitPos / 8], 7 - bitPos % 8) % 2;
      ReadBit(random, bitPos);
      NextBit(stream, start, bitPos);
      idx := idx * 2 + bit;
      bitPos := bitPos + 1;
    }
  }

  // ----- reading bits

  lemma {:induction false} BitAt(n: nat, w: nat, k: nat)
    requires k < w
    ensures NatBits(n, w)[k] <==> Shr(n, w - 1 - k) % 2 == 1
    decreases w
  {
    if k < w - 1 {
      BitAt(n / 2, w - 1, k);
    }
  }

  lemma Octets(p: nat)
    ensures if p < 8 then p / 8 == 0 && p % 8 == p else p / 8 == (p - 8) / 8 + 1 && p % 8 == (p - 8) % 8
  {
  }

  lemma {:induction false} UnpackAt(xs: seq<nat>, p: nat)
    requires p < 8 * |xs|
    ensures p < |Unpack(xs, 8)| && Unpack(xs, 8)[p] == NatBits(xs[p / 8], 8)[p % 8]
    decreases |xs|
  {
    UnpackLength(xs, 8);
    var first, rest := NatBits(xs[0], 8), Unpack(xs[1..], 8);
    assert Unpack(xs, 8) == first + rest;
    Octets(p);
    if p >= 8 {
      UnpackAt(xs[1..], p - 8);
      assert xs[p / 8] == xs[1..][(p - 8) / 8];
    }
  }

  lemma ReadBit(random: seq<u8>, p: nat)
    requires p < 8 * |random|
    ensures Stream(random)[p] <==> Shr(random[p / 8], 7 - p % 8) % 2 == 1
  {
    UnpackAt(random, p);
    BitAt(random[p / 8], 8, p % 8);
  }

  lemma NextBit(b: seq<bool>, i: nat, j: nat)
    requires i <= j < |b|
    ensures BitsToNat(b[i..j + 1]) == BitsToNat(b[i..j]) * 2 + if b[j] then 1 else 0
  {
    assert b[i..j + 1][..j - i] == b[i..j];
  }

  lemma FieldsFit(i: nat, count: nat, bits: nat)
    requires i < count
    ensures i * bits + bits <= count * bits && (i + 1) * bits == i * bits + bits
  {
    assert (count - i - 1) * bits >= 0;
    assert count * bits == i * bits + bits + (count - i - 1) * bits;
  }

  lemma PackLength(b: seq<bool>, w: nat, count: nat)
    requires w > 0 && |b| == count * w
    ensures |Pack(b, w)| == count
  {
    UnpackPack(b, w);
    UnpackLength(Pack(b, w), w);
    var m := |Pack(b, w)|;
    DivModUnique(m, w, |b| - m * w);
    DivModUnique(count, w, 0);
  }

  lemma {:induction false} PackAt(b: seq<bool>, w: nat, i: nat)
    requires w > 0 && i < |Pack(b, w)|
    ensures i * w + w <= |b| && Pack(b, w)[i] == BitsToNat(b[i * w..(i + 1) * w])
    decreases i
  {
    assert (i + 1) * w == i * w + w;
    if i > 0 {
      PackAt(b[w..], w, i - 1);
      assert (i - 1) * w + w == i * w;
      SliceShifted(b, w, (i - 1) * w, i * w);
    }
  }

  lemma SliceShifted(b: seq<bool>, w: nat, i: nat, j: nat)
    requires i <= j && w + j <= |b|
    ensures b[w..][i..j] == b[w + i..w + j]
  {
  }

  lemma SliceOfPrefix(b: seq<bool>, n: nat, i: nat, j: nat)
    requires i <= j <= n <= |b|
    ensures b[..n][i..j] == b[i..j]
  {
  }

  lemma FieldAt(random: seq<u8>, bits: nat, count: nat, i: nat)
    requires bits > 0 && count * bits <= 8 * |random| && i < count
    ensures i * bits + bits <= count * bits
    ensures SelectedIndices(bits, count, random)[i] == BitsToNat(Stream(random)[i * bits..i * bits + bits])
  {
    FieldsFit(i, count, bits);
    var used := Stream(random)[..count * bits];
    PackLength(used, bits, count);
    PackAt(used, bits, i);
    assert (i + 1) * bits == i * bits + bits;
    SliceOfPrefix(Stream(random), count * bits, i * bits, i * bits + bits);
  }

  // ----- no bias, no waste

  /** Every index sequence comes from exactly one setting of the bits that are used. */
  lemma Unbiased(bits: nat, indices: seq<nat>)
    requires bits > 0 && Fits(indices, bits)
    ensures |Unpack(indices, bits)| == |indices| * bits && Pack(Unpack(indices, bits), bits) == indices
    ensures forall b :: |b| == |indices| * bits && Pack(b, bits) == indices ==> b == Unpack(indices, bits)
  {
    UnpackLength(indices, bits);
    assert Unpack(indices, bits) + [] == Unpack(indices, bits);
    PackUnpack(indices, bits, []);
    forall b | |b| == |indices| * bits && Pack(b, bits) == indices
      ensures b == Unpack(indices, bits)
    {
      UnpackPack(b, bits);
    }
  }

  /** Word i is the one whose number, counted from the start of the list, is the i-th field of the random
      bits, most significant bit first. */
  lemma WordAt(wordlist: seq<string>, count: nat, random: seq<u8>, i: nat)
    requires Selected(wordlist, count, random).Ok? && i < count
    ensures var bits := Exponent(|wordlist|).value;
      && |wordlist| == Pow2(bits) && i * bits + bits <= 8 * |random| && |Selected(wordlist, count, random).value| == count
      && var field := Stream(random)[i * bits..i * bits + bits];
      && Selected(wordlist, count, random).value[i] == wordlist[BitsToNat(field)]
  {
    FieldAt(random, Exponent(|wordlist|).value, count, i);
  }

  /** With bit p of the stream being bit 7 - p % 8 of byte p / 8. */
  lemma StreamBit(random: seq<u8>, p: nat)
    requires p < 8 * |random|
    ensures Stream(random)[p] <==> random[p / 8] / Pow2(7 - p % 8) % 2 == 1
  {
    ReadBit(random, p);
    ShrDivides(random[p / 8], 7 - p % 8);
  }

  lemma {:induction false} ShrDivides(n: nat, k: nat)
    ensures Shr(n, k) == n / Pow2(k)
    decreases k
  {
    if k > 0 {
      ShrDivides(n / 2, k - 1);
      NestedDivision(n, Pow2(k - 1));
    }
  }

  lemma NestedDivision(n: nat, m: nat)
    requires m > 0
    ensures n / 2 / m == n / (2 * m)
  {
    var q, t := n / 2 / m, n / 2 % m;
    assert n / 2 == m * q + t;
    Regroup(m, q);
    DivModUnique(q, 2 * m, 2 * t + n % 2);
  }

  /** So every phrase is equally likely: from a list without duplicates each sequence of `count` of its
      words comes from exactly one setting of the first count * bits bits. */
  lemma UnbiasedWords(wordlist: seq<string>, words: seq<string>) returns (field: seq<bool>)
    requires Exponent(|wordlist|).Some? && |wordlist| > 1
    requires forall i, j :: 0 <= i < j < |wordlist| ==> wordlist[i] != wordlist[j]
    requires forall i :: 0 <= i < |words| ==> words[i] in wordlist
    ensures |field| == |words| * Exponent(|wordlist|).value
    ensures forall random :: |field| <= 8 * |random| ==>
      (Selected(wordlist, |words|, random) == Ok(words) <==> Stream(random)[..|field|] == field)
  {
    var bits := Exponent(|wordlist|).value;
    var indices := Positions(wordlist, words);
    field := Unpack(indices, bits);
    Unbiased(bits, indices);
    forall random: seq<u8> | |field| <= 8 * |random|
      ensures Selected(wordlist, |words|, random) == Ok(words) <==> Stream(random)[..|field|] == field
    {
      WordsOfField(wordlist, words, indices, field, random);
    }
  }

  lemma WordsOfField(wordlist: seq<string>, words: seq<string>, indices: seq<nat>, field: seq<bool>, random: seq<u8>)
    requires Exponent(|wordlist|).Some? && |wordlist| > 1
    requires forall i, j :: 0 <= i < j < |wordlist| ==> wordlist[i] != wordlist[j]
    requires |indices| == |words| && Fits(indices, Exponent(|wordlist|).value)
    requires forall i :: 0 <= i < |words| ==> wordlist[indices[i]] == words[i]
    requires field == Unpack(indices, Exponent(|wordlist|).value)
    requires |field| == |words| * Exponent(|wordlist|).value <= 8 * |random|
    ensures Selected(wordlist, |words|, random) == Ok(words) <==> Stream(random)[..|field|] == field
  {
    var bits, count := Exponent(|wordlist|).value, |words|;
    Unbiased(bits, indices);
    var chosen := SelectedIndices(bits, count, random);
    if Stream(random)[..|field|] == field {
      assert chosen == indices;
      assert Words(wordlist, chosen) == words;
    }
    if Selected(wordlist, count, random) == Ok(words) {
      forall i | 0 <= i < count
        ensures chosen[i] == indices[i]
      {
        assert words[i] == wordlist[chosen[i]] == wordlist[indices[i]];
      }
      assert chosen == indices;
    }
  }

  /** Where the words are in the list. */
  lemma {:induction false} Positions(wordlist: seq<string>, words: seq<string>) returns (indices: seq<nat>)
    requires Exponent(|wordlist|).Some? && forall i :: 0 <= i < |words| ==> words[i] in wordlist
    ensures |indices| == |words| && Fits(indices, Exponent(|wordlist|).value)
    ensures forall i :: 0 <= i < |words| ==> wordlist[indices[i]] == words[i]
  {
    indices := [];
    if words != [] {
      var front := words[..|words| - 1];
      indices := Positions(wordlist, front);
      assert words[|words| - 1] in wordlist;
      var k :| 0 <= k < |wordlist| && wordlist[k] == words[|words| - 1];
      indices := indices + [k];
    }
  }

  /** What a refusal for want of randomness says. */
  lemma ShortfallIsExact(wordlist: seq<string>, count: nat, random: seq<u8>)
    requires Selected(wordlist, count, random).Err? && Selected(wordlist, count, random).error.NeedBytes?
    ensures var e := Selected(wordlist, count, random).error;
      e.got == |random| < e.needed && e.needed == RequiredRandomBytes(|wordlist|, count)
      && 8 * e.needed - 8 < count * Exponent(|wordlist|).value <= 8 * e.needed
  {
    assert Exponent(|wordlist|).value * count == count * Exponent(|wordlist|).value;
  }

  /** The words depend on the first count * bits bits alone. */
  lemma TrailingBitsIgnored(wordlist: seq<string>, count: nat, random: seq<u8>, other: seq<u8>)
    requires Selected(wordlist, count, random).Ok? && Selected(wordlist, count, other).Ok?
    requires var used := count * Exponent(|wordlist|).value; Stream(random)[..used] == Stream(other)[..used]
    ensures Selected(wordlist, count, random) == Selected(wordlist, count, other)
  {
  }

  /** With a usable list, selection succeeds on exactly the byte strings of the required length or more. */
  lemma RequiredIsExact(wordlist: seq<string>, count: nat, random: seq<u8>)
    requires Exponent(|wordlist|).Some? && |wordlist| > 1
    ensures Selected(wordlist, count, random).Ok? <==> |random| >= RequiredRandomBytes(|wordlist|, count)
    ensures Selected(wordlist, count, random).Ok? ==> |Selected(wordlist, count, random).value| == count
  {
    assert Exponent(|wordlist|).value * count == count * Exponent(|wordlist|).value;
  }

  lemma {:induction false} ExponentFound(k: nat)
    ensures Exponent(Pow2(k)) == Some(k)
  {
    if k > 0 {
      ExponentFound(k - 1);
    }
  }

  /** Exactly the powers of two above 1 are usable list sizes. */
  lemma RefusedIff(wordlist: seq<string>, count: nat, random: seq<u8>)
    ensures Selected(wordlist, count, random) == Err(BadWordlist) <==> !exists k: nat :: k > 0 && |wordlist| == Pow2(k)
  {
    forall k: nat | k > 0 && |wordlist| == Pow2(k)
      ensures Exponent(|wordlist|).Some? && |wordlist| > 1
    {
      ExponentFound(k);
    }
    if Exponent(|wordlist|).Some? && |wordlist| > 1 {
      var k := Exponent(|wordlist|).value;
      assert Pow2(0) == 1;
      assert |wordlist| == Pow2(k) && k > 0;
    }
  }

  function Power(n: nat, k: nat): nat {
    if k == 0 then 1 else n * Power(n, k - 1)
  }

  lemma Regroup(x: int, y: int)
    ensures 2 * (x * y) == (2 * x) * y
  {
  }

  lemma {:induction false} Pow2Add(a: nat, b: nat)
    ensures Pow2(a + b) == Pow2(a) * Pow2(b)
  {
    if a > 0 {
      Pow2Add(a - 1, b);
      Regroup(Pow2(a - 1), Pow2(b));
    }
  }

  /** The reported entropy is exact: two to that many bits is the number of possible phrases. */
  lemma {:induction false} EntropyIsExact(wordlistLen: nat, count: nat)
    requires Exponent(wordlistLen).Some? && wordlistLen > 1
    ensures Pow2(EntropyBits(wordlistLen, count)) == Power(wordlistLen, count)
  {
    var bits := Exponent(wordlistLen).value;
    if count > 0 {
      EntropyIsExact(wordlistLen, count - 1);
      assert bits * count == bits + bits * (count - 1);
      Pow2Add(bits, bits * (count - 1));
    }
  }

  // ----- the passphrase of the manager

  function Join(words: seq<string>): string {
    if words == [] then ""
    else if |words| == 1 then words[0]
    else words[0] + " " + Join(words[1..])
  }

  /** The phrase separates its words by single spaces. */
  lemma {:induction false} JoinSplits(words: seq<string>)
    requires words != [] && forall i :: 0 <= i < |words| ==> ' ' !in words[i]
    ensures T.Split(Join(words), ' ') == words
  {
    if |words| == 1 {
      T.SplitWhole(words[0], ' ');
    } else {
      JoinSplits(words[1..]);
      T.SplitAt(words[0], ' ', Join(words[1..]));
      assert words[0] + [' '] + Join(words[1..]) == Join(words);
    }
  }

  /** `draw` supplies the requested number of bytes, or fails. */
  function GeneratePassphrase(wordlist: seq<string>, count: nat, draw: nat -> Option<seq<u8>>): Option<Result<string, WordError>> {
    match draw(RequiredRandomBytes(|wordlist|, count))
    case None => None
    case Some(random) =>
      match Selected(wordlist, count, random)
      case Err(e) => Some(Err(e))
      case Ok(words) => Some(Ok(Join(words)))
  }

  ghost predicate IsPhrase(r: Result<string, WordError>, wordlist: seq<string>, count: nat) {
    r.Ok? && exists words :: DrawnFrom(words, wordlist, count) && r.value == Join(words)
  }

  ghost predicate DrawnFrom(words: seq<string>, wordlist: seq<string>, count: nat) {
    |words| == count && forall i :: 0 <= i < count ==> words[i] in wordlist
  }

  /** The manager asks for just enough bytes: word selection never fails. */
  lemma GenerationSucceeds(wordlist: seq<string>, count: nat, draw: nat -> Option<seq<u8>>)
    requires Exponent(|wordlist|).Some? && |wordlist| > 1
    requires forall n :: draw(n).Some? ==> |draw(n).value| == n
    ensures draw(RequiredRandomBytes(|wordlist|, count)).None? <==> GeneratePassphrase(wordlist, count, draw).None?
    ensures GeneratePassphrase(wordlist, count, draw).Some? ==> IsPhrase(GeneratePassphrase(wordlist, count, draw).value, wordlist, count)
  {
    var need := RequiredRandomBytes(|wordlist|, count);
    if draw(need).Some? {
      RequiredIsExact(wordlist, count, draw(need).value);
      var words := Selected(wordlist, count, draw(need).value).value;
      assert DrawnFrom(words, wordlist, count);
    }
  }
}
