/** Random passwords by rejection sampling. */
module Password {
  import opened Common
  import opened Utf8
  import opened Arithmetic

  datatype PasswordError = BadCharset | Entropy | NotAscii

  /** Call number and length to the bytes of that draw, which may fail. */
  type Draw = (nat, nat) -> Option<seq<u8>>

  /** `String::from_utf8`. */
  type FromUtf8 = seq<u8> -> Option<string>

  ghost predicate LawfulUtf8(fromUtf8: FromUtf8) {
    forall b :: if IsText(b) then fromUtf8(b).Some? && Encode(fromUtf8(b).value) == b else fromUtf8(b).None?
  }

  /** The largest multiple of n that fits in a byte's range. */
  function Limit(n: nat): (limit: nat)
    requires 1 <= n <= 256
    ensures limit <= 256
  {
    256 / n * n
  }

  /** The bytes below `limit`, in order. */
  function Accepted(bytes: seq<u8>, limit: nat): seq<u8> {
    if bytes == [] then []
    else
      var front := Accepted(bytes[..|bytes| - 1], limit);
      if bytes[|bytes| - 1] < limit then front + [bytes[|bytes| - 1]] else front
  }

  /** Everything the first k calls draw, when none of them fails. */
  function Drawn(draw: Draw, len: nat, k: nat): Option<seq<u8>> {
    if k == 0 then Some([])
    else
      match Drawn(draw, len, k - 1)
      case None => None
      case Some(before) =>
        match draw(k - 1, len)
        case None => None
        case Some(chunk) => Some(before + chunk)
  }

  function Mapped(bytes: seq<u8>, charset: seq<u8>): (r: seq<u8>)
    requires charset != []
    ensures |r| == |bytes|
  {
    seq(|bytes|, i requires 0 <= i < |bytes| => charset[bytes[i] % |charset|])
  }

  lemma {:induction false} AcceptedConcat(a: seq<u8>, b: seq<u8>, limit: nat)
    ensures Accepted(a + b, limit) == Accepted(a, limit) + Accepted(b, limit)
    decreases |b|
  {
    if b == [] {
      assert a + b == a;
    } else {
      assert (a + b)[..|a + b| - 1] == a + b[..|b| - 1];
      AcceptedConcat(a, b[..|b| - 1], limit);
    }
  }

  /** At most the first n elements. */
  function Prefix<T>(s: seq<T>, n: nat): seq<T> {
    if |s| <= n then s else s[..n]
  }

  /** The whole stream holds enough accepted bytes once it has run for `bound` draws, or a draw fails before. */
  ghost predicate Suffices(bound: nat, len: nat, limit: nat, draw: Draw) {
    Drawn(draw, len, bound).Some? ==> |Accepted(Drawn(draw, len, bound).value, limit)| >= len
  }

  /** The first k draws go through and do not hold enough accepted bytes. */
  ghost predicate Hungry(k: nat, len: nat, limit: nat, draw: Draw) {
    Drawn(draw, len, k).Some? && |Accepted(Drawn(draw, len, k).value, limit)| < len
  }

  /** Once the password is complete, the rest of the chunk does not matter. */
  lemma RestIgnored(start: seq<u8>, chunk: seq<u8>, k: nat, len: nat, charset: seq<u8>, limit: nat)
    requires k <= |chunk| && charset != []
    requires |start + Mapped(Accepted(chunk[..k], limit), charset)| == len
    ensures start + Mapped(Accepted(chunk[..k], limit), charset) == Prefix(start + Mapped(Accepted(chunk, limit), charset), len)
  {
    assert chunk == chunk[..k] + chunk[k..];
    AcceptedConcat(chunk[..k], chunk[k..], limit);
    MappedConcat(Accepted(chunk[..k], limit), Accepted(chunk[k..], limit), charset);
  }

  /** The accepted bytes of one chunk, until the password is complete. */
  method TakeAccepted(start: seq<u8>, chunk: seq<u8>, len: nat, charset: seq<u8>, limit: nat) returns (out: seq<u8>)
    requires |start| < len && charset != []
    ensures out == Prefix(start + Mapped(Accepted(chunk, limit), charset), len)
  {
    out := start;
    for i := 0 to |chunk|
      invariant out == start + Mapped(Accepted(chunk[..i], limit), charset)
      invariant |out| < len
    {
      var b := chunk[i];
      assert chunk[..i + 1][..i] == chunk[..i];
      if b < limit {
        out := out + [charset[b % |charset|]];
        if |out| == len {
          assert out == start + Mapped(Accepted(chunk[..i + 1], limit), charset);
          RestIgnored(start, chunk, i + 1, len, charset, limit);
          return;
        }
      }
    }
    assert chunk[..|chunk|] == chunk;
  }

  /** `bound` bounds the number of draws, `calls` counts those that succeeded. */
  method GeneratePassword(len: nat, charset: seq<u8>, draw: Draw, fromUtf8: FromUtf8, ghost bound: nat)
    returns (r: Result<string, PasswordError>, ghost calls: nat)
    requires 1 <= |charset| <= 256 ==> Suffices(bound, len, Limit(|charset|), draw)
    ensures r == Err(BadCharset) <==> |charset| == 0 || |charset| > 256
    ensures r == Err(Entropy) ==> Hungry(calls, len, Limit(|charset|), draw) && draw(calls, len).None?
    ensures r != Err(BadCharset) && r != Err(Entropy) ==> IsPassword(r, len, charset, draw, fromUtf8, calls)
  {
    calls := 0;
    var n := |charset|;
    if n == 0 || n > 256 {
      return Err(BadCharset), 0;
    }
    var limit := Limit(n);
    var out: seq<u8> := [];
    ghost var stream: seq<u8> := [];
    var call := 0;
    while |out| < len
      invariant call == calls && Drawn(draw, len, calls) == Some(stream)
      invariant out == Prefix(Mapped(Accepted(stream, limit), charset), len)
      invariant calls > 0 ==> Hungry(calls - 1, len, limit, draw)
      decreases bound - calls
    {
      if calls >= bound {
        DrawnGrows(draw, len, bound, calls, limit);
      }
      var bytes := draw(call, len);
      if bytes.None? {
        return Err(Entropy), calls;
      }
      var chunk := bytes.value;
      NextChunk(stream, chunk, len, charset, limit);
      out := TakeAccepted(out, chunk, len, charset, limit);
      stream, call, calls := stream + chunk, call + 1, calls + 1;
    }
    var text := fromUtf8(out);
    r := if text.Some? then Ok(text.value) else Err(NotAscii);
    MappedPrefix(Accepted(stream, limit), len, charset);
  }

  /** The outcome of k successful draws, the last of which completes the password. */
  ghost predicate IsPassword(r: Result<string, PasswordError>, len: nat, charset: seq<u8>, draw: Draw, fromUtf8: FromUtf8, k: nat)
    requires 1 <= |charset| <= 256
  {
    var limit := Limit(|charset|);
    && Drawn(draw, len, k).Some?
    && var accepted := Accepted(Drawn(draw, len, k).value, limit);
    && |accepted| >= len
    && (k > 0 ==> Hungry(k - 1, len, limit, draw))
    && var text := fromUtf8(Mapped(accepted[..len], charset));
    r == if text.Some? then Ok(text.value) else Err(NotAscii)
  }

  lemma MappedConcat(a: seq<u8>, b: seq<u8>, charset: seq<u8>)
    requires charset != []
    ensures Mapped(a + b, charset) == Mapped(a, charset) + Mapped(b, charset)
  {
  }

  lemma NextChunk(stream: seq<u8>, chunk: seq<u8>, len: nat, charset: seq<u8>, limit: nat)
    requires charset != [] && |Prefix(Mapped(Accepted(stream, limit), charset), len)| < len
    ensures |Accepted(stream, limit)| < len
    ensures Prefix(Prefix(Mapped(Accepted(stream, limit), charset), len) + Mapped(Accepted(chunk, limit), charset), len)
         == Prefix(Mapped(Accepted(stream + chunk, limit), charset), len)
  {
    AcceptedConcat(stream, chunk, limit);
    MappedConcat(Accepted(stream, limit), Accepted(chunk, limit), charset);
  }

  lemma MappedPrefix(a: seq<u8>, len: nat, charset: seq<u8>)
    requires charset != [] && len <= |a|
    ensures Prefix(Mapped(a, charset), len) == Mapped(a[..len], charset)
  {
  }

  /** Later draws only append to the stream and to its accepted bytes. */
  lemma {:induction false} DrawnGrows(draw: Draw, len: nat, k: nat, m: nat, limit: nat)
    requires k <= m && Drawn(draw, len, m).Some?
    ensures Drawn(draw, len, k).Some? && Drawn(draw, len, k).value <= Drawn(draw, len, m).value
    ensures Accepted(Drawn(draw, len, k).value, limit) <= Accepted(Drawn(draw, len, m).value, limit)
    decreases m
  {
    if k < m {
      DrawnGrows(draw, len, k, m - 1, limit);
      AcceptedConcat(Drawn(draw, len, m - 1).value, draw(m - 1, len).value, limit);
    }
  }

  // ----- what the outcome depends on

  /** Only the stream counts, not how the draws cut it into chunks. */
  lemma ChunkingIrrelevant(len: nat, charset: seq<u8>, draw: Draw, other: Draw, fromUtf8: FromUtf8, k: nat, m: nat,
                           r: Result<string, PasswordError>, q: Result<string, PasswordError>)
    requires 1 <= |charset| <= 256
    requires IsPassword(r, len, charset, draw, fromUtf8, k) && IsPassword(q, len, charset, other, fromUtf8, m)
    requires Drawn(draw, len, k).value <= Drawn(other, len, m).value
    ensures r == q
  {
    var a, b, limit := Drawn(draw, len, k).value, Drawn(other, len, m).value, Limit(|charset|);
    assert b == a + b[|a|..];
    AcceptedConcat(a, b[|a|..], limit);
    assert Accepted(a, limit)[..len] == Accepted(b, limit)[..len];
  }

  /** The number of draws is the least that suffices. */
  lemma DrawsAreNecessary(len: nat, charset: seq<u8>, draw: Draw, fromUtf8: FromUtf8, k: nat, j: nat, r: Result<string, PasswordError>)
    requires 1 <= |charset| <= 256 && IsPassword(r, len, charset, draw, fromUtf8, k)
    ensures Suffices(j, len, Limit(|charset|), draw) && Drawn(draw, len, j).Some? <==> j >= k && Drawn(draw, len, j).Some?
  {
    if j < k {
      DrawnGrows(draw, len, j, k - 1, Limit(|charset|));
    } else if Drawn(draw, len, j).Some? {
      DrawnGrows(draw, len, k, j, Limit(|charset|));
    }
  }

  /** One accepted byte in every chunk is enough to finish within `len` draws. */
  lemma {:induction false} EveryChunkHelps(k: nat, len: nat, limit: nat, draw: Draw)
    requires forall i :: 0 <= i < k && draw(i, len).Some? ==> exists b :: b in draw(i, len).value && b < limit
    ensures Drawn(draw, len, k).Some? ==> |Accepted(Drawn(draw, len, k).value, limit)| >= k
  {
    if k > 0 && Drawn(draw, len, k).Some? {
      EveryChunkHelps(k - 1, len, limit, draw);
      var before, chunk := Drawn(draw, len, k - 1).value, draw(k - 1, len).value;
      AcceptedConcat(before, chunk, limit);
      var b :| b in chunk && b < limit;
      AcceptedIn(chunk, limit, b);
    }
  }

  lemma {:induction false} AcceptedIn(bytes: seq<u8>, limit: nat, b: u8)
    ensures b in Accepted(bytes, limit) <==> b in bytes && b < limit
  {
    if bytes != [] {
      var front := bytes[..|bytes| - 1];
      assert bytes == front + [bytes[|bytes| - 1]];
      AcceptedIn(front, limit, b);
    }
  }

  // ----- no bias

  /** The accepted byte values that select position p of a charset of size n. */
  function Selecting(n: nat, p: nat): set<int>
    requires 1 <= n <= 256
  {
    set b | 0 <= b < Limit(n) && b % n == p
  }

  /** Every position is selected by exactly as many accepted byte values as any other. */
  lemma NoModuloBias(n: nat, p: nat)
    requires 1 <= n <= 256 && p < n
    ensures |Selecting(n, p)| == 256 / n
  {
    Residues(256 / n, n, p);
    assert Selecting(n, p) == ResiduesBelow(256 / n, n, p);
  }

  function ResiduesBelow(q: nat, n: nat, p: nat): set<int>
    requires n > 0
  {
    set b | 0 <= b < q * n && b % n == p
  }

  lemma LastResidue(q: nat, n: nat, p: nat, b: int)
    requires p < n && n * q <= b < n * q + n
    ensures b % n == p <==> b == n * q + p
  {
    DivModUnique(q, n, b - n * q);
  }

  lemma {:induction false} Residues(q: nat, n: nat, p: nat)
    requires p < n
    ensures |ResiduesBelow(q, n, p)| == q
  {
    if q > 0 {
      Residues(q - 1, n, p);
      MoreResidues(q - 1, n, p);
    }
  }

  lemma MoreResidues(q: nat, n: nat, p: nat)
    requires p < n
    ensures n * q + p !in ResiduesBelow(q, n, p)
    ensures ResiduesBelow(q + 1, n, p) == ResiduesBelow(q, n, p) + {n * q + p}
  {
    var base := n * q;
    assert (q + 1) * n == base + n && q * n == base;
    forall b: int | base <= b < base + n
      ensures b % n == p <==> b == base + p
    {
      LastResidue(q, n, p, b);
    }
  }

  /** The accepted byte values that give a character. */
  function Giving(charset: seq<u8>, c: u8): set<int>
    requires 1 <= |charset| <= 256
  {
    set b | 0 <= b < Limit(|charset|) && charset[b % |charset|] == c
  }

  /** So no character is favoured: from a charset without duplicates every character comes from exactly
      floor(256 / n) accepted byte values. */
  lemma NoCharacterBias(charset: seq<u8>, c: u8)
    requires 1 <= |charset| <= 256 && forall i, j :: 0 <= i < j < |charset| ==> charset[i] != charset[j]
    ensures |Giving(charset, c)| == if c in charset then 256 / |charset| else 0
  {
    var n := |charset|;
    if c in charset {
      var p :| 0 <= p < n && charset[p] == c;
      NoModuloBias(n, p);
      assert Giving(charset, c) == Selecting(n, p);
    } else {
      assert Giving(charset, c) == {};
    }
  }

  /** Character i is the charset's character at the i-th accepted byte modulo the charset's size. */
  lemma CharacterAt(len: nat, charset: seq<u8>, draw: Draw, fromUtf8: FromUtf8, k: nat, r: Result<string, PasswordError>, i: nat)
    requires 1 <= |charset| <= 256 && LawfulUtf8(fromUtf8) && i < len
    requires IsPassword(r, len, charset, draw, fromUtf8, k) && r.Ok?
    ensures Drawn(draw, len, k).Some? && |Encode(r.value)| == len
    ensures var accepted := Accepted(Drawn(draw, len, k).value, Limit(|charset|));
      i < |accepted| && Encode(r.value)[i] == charset[accepted[i] % |charset|]
  {
    var accepted := Accepted(Drawn(draw, len, k).value, Limit(|charset|));
    assert Encode(r.value) == Mapped(accepted[..len], charset);
  }

  /** A byte is accepted exactly when it is below the limit. */
  lemma AcceptedByte(b: u8, limit: nat)
    ensures Accepted([b], limit) == if b < limit then [b] else []
  {
    assert [b][..0] == [];
  }

  /** No fewer bytes could be rejected: a larger multiple of n does not fit in a byte's range. */
  lemma LimitIsLargest(n: nat, m: nat)
    requires 1 <= n <= 256 && m % n == 0 && m <= 256
    ensures Limit(n) % n == 0 && m <= Limit(n)
  {
    DivModUnique(256 / n, n, 0);
    QuotientGrows(m, 256, n);
    MulGrows(m / n, 256 / n, n);
  }

  lemma QuotientGrows(x: nat, y: nat, n: nat)
    requires x <= y && n > 0
    ensures x / n <= y / n
  {
    var a, b := x / n, y / n;
    assert (b + 1) * n == b * n + n;
    if a > b {
      MulGrows(b + 1, a, n);
      assert false;
    }
  }

  lemma MulGrows(a: nat, b: nat, n: nat)
    requires a <= b
    ensures a * n <= b * n
  {
    assert (b - a) * n >= 0;
  }

  // ----- ASCII charsets

  /** From an ASCII charset the password is `len` characters, each of the charset. */
  lemma AsciiPassword(len: nat, charset: seq<u8>, draw: Draw, fromUtf8: FromUtf8, k: nat, r: Result<string, PasswordError>)
    requires 1 <= |charset| <= 256 && IsAscii(charset) && LawfulUtf8(fromUtf8)
    requires IsPassword(r, len, charset, draw, fromUtf8, k)
    ensures r.Ok? && |r.value| == len
    ensures forall i :: 0 <= i < len ==> (r.value[i] as int) in charset
  {
    var accepted := Accepted(Drawn(draw, len, k).value, Limit(|charset|))[..len];
    var bytes := Mapped(accepted, charset);
    var text := AsciiText(bytes);
    AsciiIsText(bytes);
    assert IsText(bytes);
    EncodeInjective(text, fromUtf8(bytes).value);
    forall i | 0 <= i < len
      ensures (text[i] as int) in charset
    {
      assert bytes[i] == charset[accepted[i] % |charset|];
    }
  }
}
