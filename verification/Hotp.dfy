/** Deriving one-time codes (RFC 4226 over RFC 6238). */
module Hotp {
  import opened Arithmetic
  import opened Utf8
  import opened Text
  import opened Otpauth

  /** The keyed hash: algorithm, key, message. */
  type Hmac = (Algorithm, seq<u8>, seq<u8>) -> seq<u8>

  /** The three hashes yield 20, 32 and 64 bytes. */
  ghost predicate LawfulHmac(h: Hmac) {
    forall a, k, m :: |h(a, k, m)| >= 20
  }

  function BigEndian(n: nat, width: nat): (r: seq<u8>)
    ensures |r| == width
  {
    if width == 0 then [] else BigEndian(n / 256, width - 1) + [n % 256]
  }

  function FromBigEndian(s: seq<u8>): nat {
    if s == [] then 0 else 256 * FromBigEndian(s[..|s| - 1]) + s[|s| - 1]
  }

  function Pow256(k: nat): nat {
    if k == 0 then 1 else 256 * Pow256(k - 1)
  }

  lemma {:induction false} BigEndianReads(n: nat, width: nat)
    requires n < Pow256(width)
    ensures FromBigEndian(BigEndian(n, width)) == n
    decreases width
  {
    if width > 0 {
      BigEndianReads(n / 256, width - 1);
      assert BigEndian(n, width)[..width - 1] == BigEndian(n / 256, width - 1);
    }
  }

  lemma {:induction false} BigEndianInverts(s: seq<u8>)
    ensures BigEndian(FromBigEndian(s), |s|) == s
  {
    if s != [] {
      var front, last := s[..|s| - 1], s[|s| - 1];
      BigEndianInverts(front);
      assert FromBigEndian(s) / 256 == FromBigEndian(front) && FromBigEndian(s) % 256 == last;
      assert s == front + [last];
    }
  }

  function Pow10(k: nat): (p: nat)
    ensures p > 0
  {
    if k == 0 then 1 else 10 * Pow10(k - 1)
  }

  /** The 31-bit number at the offset that the last byte selects, assembled from masked and
      shifted bytes. The shifts do not overlap, so the sum is the bitwise or. */
  function TruncatedBits(hash: seq<u8>): u32
    requires |hash| >= 20
  {
    var offset := hash[|hash| - 1] % 16;
    var b0: int, b1: int, b2: int, b3: int := hash[offset], hash[offset + 1], hash[offset + 2], hash[offset + 3];
    b0 % 0x80 * 0x100_0000 + b1 * 0x1_0000 + b2 * 0x100 + b3
  }

  /** `{:0width$}`. */
  function ZeroPadded(n: nat, width: nat): string {
    var s := Decimal(n);
    seq(if |s| < width then width - |s| else 0, _ => '0') + s
  }

  lemma Pow10Fits(digits: nat)
    requires digits <= 9
    ensures Pow10(digits) < 0x1_0000_0000
  {
    assert Pow10(9) == 1_000_000_000;
    Pow10Grows(digits, 9);
  }

  lemma {:induction false} Pow10Grows(a: nat, b: nat)
    requires a <= b
    ensures Pow10(a) <= Pow10(b)
    decreases b - a
  {
    if a < b {
      Pow10Grows(a, b - 1);
    }
  }

  function Hotp(hmac: Hmac, secret: seq<u8>, counter: u64, digits: nat, alg: Algorithm): string
    requires |hmac(alg, secret, BigEndian(counter, 8))| >= 20
    requires digits <= 9
  {
    var hash := hmac(alg, secret, BigEndian(counter, 8));
    var bin: u32 := TruncatedBits(hash);
    Pow10Fits(digits);
    var modulo: u32 := Pow10(digits);
    ZeroPadded(bin % modulo, digits)
  }

  function CodeAt(hmac: Hmac, cfg: Config, unixSecs: u64): string
    requires LawfulHmac(hmac) && cfg.digits <= 9
  {
    var period := if cfg.period > 1 then cfg.period else 1;
    Hotp(hmac, cfg.secret, Quotient(unixSecs, period), cfg.digits, cfg.algorithm)
  }

  function Quotient(t: u64, period: nat): u64
    requires period > 0
  {
    t / period
  }

  function SecondsRemaining(cfg: Config, unixSecs: u64): nat {
    var period := if cfg.period > 1 then cfg.period else 1;
    period - unixSecs % period
  }

  // ----- the truncation

  /** Section 5.3 of RFC 4226: the four bytes at the offset as one number, without its top bit. */
  lemma TruncationIsStandard(hash: seq<u8>)
    requires |hash| >= 20
    ensures var offset := hash[|hash| - 1] % 16;
      && offset + 3 < |hash|
      && TruncatedBits(hash) == FromBigEndian(hash[offset..offset + 4]) % 0x8000_0000
  {
    var offset := hash[|hash| - 1] % 16;
    var s := hash[offset..offset + 4];
    var b0: int, b1: int, b2: int := s[0], s[1], s[2];
    assert s[..3][..2][..1][..0] == [];
    assert FromBigEndian(s[..3][..2][..1]) == b0;
    assert FromBigEndian(s[..3][..2]) == 256 * b0 + b1;
    assert FromBigEndian(s[..3]) == 256 * (256 * b0 + b1) + b2;
    assert b0 == 0x80 * (b0 / 0x80) + b0 % 0x80;
  }

  // ----- the numeral

  lemma {:induction false} DecimalLength(n: nat, digits: nat)
    requires digits > 0 && n < Pow10(digits)
    ensures |Decimal(n)| <= digits
    decreases digits
  {
    if n >= 10 {
      assert digits > 1;
      DecimalLength(n / 10, digits - 1);
    }
  }

  lemma {:induction false} LeadingZeros(k: nat, s: string)
    requires forall i :: 0 <= i < |s| ==> IsDigit(s[i])
    ensures var z := seq(k, _ => '0') + s;
      (forall i :: 0 <= i < |z| ==> IsDigit(z[i])) && DecimalValue(z) == DecimalValue(s)
    decreases |s|, k
  {
    var z := seq(k, _ => '0') + s;
    if s == [] {
      if k > 0 {
        LeadingZeros(k - 1, s);
        assert z[..|z| - 1] == seq(k - 1, _ => '0') + s;
      }
    } else {
      LeadingZeros(k, s[..|s| - 1]);
      assert z[..|z| - 1] == seq(k, _ => '0') + s[..|s| - 1];
    }
  }

  /** Every configuration that parses yields, at every time, exactly `digits` decimal characters
      that read back as the standard truncation modulo 10^digits, of the hash of the eight bytes whose
      big-endian value is the number of whole periods. */
  lemma CodeIsStandard(hmac: Hmac, cfg: Config, t: u64, message: seq<u8>)
    requires LawfulHmac(hmac) && Canonical(cfg)
    requires |message| == 8 && FromBigEndian(message) == t / cfg.period
    ensures var code := CodeAt(hmac, cfg, t);
      var hash := hmac(cfg.algorithm, cfg.secret, message);
      var offset := hash[|hash| - 1] % 16;
      && |code| == cfg.digits
      && (forall i :: 0 <= i < |code| ==> IsDigit(code[i]))
      && DecimalValue(code) == FromBigEndian(hash[offset..offset + 4]) % 0x8000_0000 % Pow10(cfg.digits)
  {
    BigEndianInverts(message);
    var hash := hmac(cfg.algorithm, cfg.secret, message);
    TruncationIsStandard(hash);
    var n := TruncatedBits(hash) % Pow10(cfg.digits);
    DecimalLength(n, cfg.digits);
    DecimalDigits(n);
    LeadingZeros(cfg.digits - |Decimal(n)|, Decimal(n));
  }

  /** And there is exactly one such message for every time. */
  lemma OneMessage(n: u64, message: seq<u8>)
    ensures |BigEndian(n, 8)| == 8 && FromBigEndian(BigEndian(n, 8)) == n
    ensures |message| == 8 && FromBigEndian(message) == n ==> message == BigEndian(n, 8)
  {
    assert Pow256(4) == 0x1_0000_0000;
    assert Pow256(6) == 0x1_0000 * Pow256(4);
    assert Pow256(8) == 0x1_0000 * Pow256(6);
    BigEndianReads(n, 8);
    if |message| == 8 && FromBigEndian(message) == n {
      BigEndianInverts(message);
    }
  }

  /** A period of zero counts as one second. */
  lemma ZeroPeriod(hmac: Hmac, cfg: Config, t: u64)
    requires LawfulHmac(hmac) && cfg.digits <= 9 && cfg.period == 0
    ensures CodeAt(hmac, cfg, t) == CodeAt(hmac, cfg.(period := 1), t) && SecondsRemaining(cfg, t) == 1
  {
  }

  /** The example of section 5.4 of RFC 4226. */
  lemma TruncationExample()
    ensures TruncatedBits([0x1F, 0x86, 0x98, 0x69, 0x0E, 0x02, 0xCA, 0x16, 0x61, 0x85,
                           0x50, 0xEF, 0x7F, 0x19, 0xDA, 0x8E, 0x94, 0x5B, 0x55, 0x5A]) == 0x50EF_7F19
    ensures 0x50EF_7F19 % Pow10(6) == 872_921
  {
    assert Pow10(6) == 1_000_000;
  }

  // ----- time

  /** The remaining time is the exact distance to the next multiple of the period. */
  lemma RemainingIsExact(cfg: Config, t: u64)
    requires cfg.period > 0
    ensures var r := SecondsRemaining(cfg, t);
      && 0 < r <= cfg.period
      && (t + r) % cfg.period == 0
      && forall u :: t < u < t + r ==> u % cfg.period != 0
  {
    var p := cfg.period;
    var q := t / p;
    assert t + SecondsRemaining(cfg, t) == p * (q + 1);
    DivModUnique(q + 1, p, 0);
    forall u | t < u < t + SecondsRemaining(cfg, t)
      ensures u % p != 0
    {
      DivModUnique(q, p, u - p * q);
    }
  }

  /** The code stays the same until the remaining time is over. */
  lemma CodeConstantOverPeriod(hmac: Hmac, cfg: Config, t: u64, u: u64)
    requires LawfulHmac(hmac) && Canonical(cfg) && t <= u < t + SecondsRemaining(cfg, t)
    ensures CodeAt(hmac, cfg, u) == CodeAt(hmac, cfg, t)
  {
    SamePeriod(cfg.period, t, u);
  }

  lemma SamePeriod(p: nat, t: nat, u: nat)
    requires p > 0 && t <= u < t + (p - t % p)
    ensures u / p == t / p
  {
    var q := t / p;
    DivModUnique(q, p, u - p * q);
  }
}
