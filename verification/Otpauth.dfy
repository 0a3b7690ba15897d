/** One-time-password entries: reading otpauth URIs and base32 seeds, and writing the canonical URI. */
module Otpauth {
  import opened Common
  import opened Utf8
  import opened Text
  import B = Base32

  datatype Algorithm = Sha1 | Sha256 | Sha512

  datatype Config = Config(secret: seq<u8>, digits: nat, period: nat, algorithm: Algorithm)

  const U32_MAX := 0xFFFF_FFFF
  const U64_MAX := 0xFFFF_FFFF_FFFF_FFFF
  const URI_PREFIX := "otpauth://totp/"

  // ----- reading

  function AsciiLower(s: string): (r: string)
    ensures |r| == |s|
  {
    seq(|s|, i requires 0 <= i < |s| => if 'A' <= s[i] <= 'Z' then (s[i] as int + 32) as char else s[i])
  }

  function AsciiUpper(s: string): (r: string)
    ensures |r| == |s|
  {
    seq(|s|, i requires 0 <= i < |s| => B.Upper(s[i]))
  }

  /** The accumulators of the parameter loop. */
  datatype Fields = Fields(secret: Option<seq<u8>>, digits: nat, period: nat, algorithm: Algorithm)

  function AlgorithmNamed(val: string): Option<Algorithm> {
    var name := AsciiUpper(val);
    if name == "SHA1" then Some(Sha1)
    else if name == "SHA256" then Some(Sha256)
    else if name == "SHA512" then Some(Sha512)
    else None
  }

  /** The effect of one query parameter; None for an unknown algorithm. */
  function Apply(f: Fields, pair: string): Option<Fields> {
    match SplitOnce(pair, '=')
    case None => Some(f)
    case Some((key, val)) =>
      var k := AsciiLower(key);
      if k == "secret" then Some(f.(secret := B.Decoded(val)))
      else if k == "digits" then
        match ParseUnsigned(val, U32_MAX)
        case Some(d) => if 1 <= d <= 9 then Some(f.(digits := d)) else Some(f)
        case None => Some(f)
      else if k == "period" then
        match ParseUnsigned(val, U64_MAX)
        case Some(p) => if p > 0 then Some(f.(period := p)) else Some(f)
        case None => Some(f)
      else if k == "algorithm" then
        match AlgorithmNamed(val)
        case Some(a) => Some(f.(algorithm := a))
        case None => None
      else Some(f)
  }

  function ApplyAll(f: Fields, pairs: seq<string>): Option<Fields>
    decreases |pairs|
  {
    if pairs == [] then Some(f)
    else
      match Apply(f, pairs[0])
      case None => None
      case Some(g) => ApplyAll(g, pairs[1..])
  }

  const DEFAULTS := Fields(None, 6, 30, Sha1)

  function Query(rest: string): string {
    match SplitOnce(rest, '?')
    case None => ""
    case Some((_, q)) => q
  }

  function OtpauthParsed(value: string): Option<Config> {
    match StripPrefix(value, URI_PREFIX)
    case None => None
    case Some(rest) =>
      match ApplyAll(DEFAULTS, Split(Query(rest), '&'))
      case None => None
      case Some(f) => if f.secret.None? then None else Some(Config(f.secret.value, f.digits, f.period, f.algorithm))
  }

  function Parsed(value: string): Option<Config> {
    var trimmed := Trim(value);
    if OtpauthParsed(trimmed).Some? then OtpauthParsed(trimmed)
    else if |Encode(trimmed)| < 16 then None
    else
      match B.Decoded(trimmed)
      case None => None
      case Some(secret) => Some(Config(secret, 6, 30, Sha1))
  }

  method ParseOtpauth(value: string) returns (r: Option<Config>)
    ensures r == OtpauthParsed(value)
  {
    var rest := StripPrefix(value, URI_PREFIX);
    if rest.None? {
      return None;
    }
    var pairs := Split(Query(rest.value), '&');
    var secret: Option<seq<u8>> := None;
    var digits, period, algorithm := 6, 30, Sha1;
    for i := 0 to |pairs|
      invariant ApplyAll(DEFAULTS, pairs) == ApplyAll(Fields(secret, digits, period, algorithm), pairs[i..])
    {
      assert pairs[i..][1..] == pairs[i + 1..];
      var pair := SplitOnce(pairs[i], '=');
      if pair.None? {
        continue;
      }
      var (key, val) := pair.value;
      var k := AsciiLower(key);
      if k == "secret" {
        secret := B.DecodeBase32(val);
      } else if k == "digits" {
        var d := ParseUnsigned(val, U32_MAX);
        if d.Some? && 1 <= d.value <= 9 {
          digits := d.value;
        }
      } else if k == "period" {
        var p := ParseUnsigned(val, U64_MAX);
        if p.Some? && p.value > 0 {
          period := p.value;
        }
      } else if k == "algorithm" {
        var a := AlgorithmNamed(val);
        if a.None? {
          return None;
        }
        algorithm := a.value;
      }
    }
    assert pairs[|pairs|..] == [];
    r := if secret.None? then None else Some(Config(secret.value, digits, period, algorithm));
  }

  method Parse(value: string) returns (r: Option<Config>)
    ensures r == Parsed(value)
  {
    var trimmed := Trim(value);
    r := ParseOtpauth(trimmed);
    if r.Some? {
      return;
    }
    if |Encode(trimmed)| >= 16 {
      var secret := B.DecodeBase32(trimmed);
      if secret.Some? {
        return Some(Config(secret.value, 6, 30, Sha1));
      }
    }
    r := None;
  }

  // ----- writing

  predicate IsUnreserved(b: u8) {
    || 0x41 <= b <= 0x5A || 0x61 <= b <= 0x7A || 0x30 <= b <= 0x39  // A-Z, a-z, 0-9
    || b in [0x2D, 0x5F, 0x2E, 0x7E, 0x2F, 0x3A]                    // - _ . ~ / :
  }

  function HexDigit(d: nat): char
    requires d < 16
  {
    "0123456789ABCDEF"[d]
  }

  function LabelByte(b: u8): string {
    if IsUnreserved(b) then [b as char] else ['%', HexDigit(b / 16), HexDigit(b % 16)]
  }

  function LabelText(bytes: seq<u8>): string {
    if bytes == [] then "" else LabelText(bytes[..|bytes| - 1]) + LabelByte(bytes[|bytes| - 1])
  }

  method EncodeLabel(name: string) returns (out: string)
    ensures out == LabelText(Encode(name))
  {
    var bytes := Encode(name);
    out := "";
    for i := 0 to |bytes|
      invariant out == LabelText(bytes[..i])
    {
      assert bytes[..i + 1][..i] == bytes[..i];
      out := out + LabelByte(bytes[i]);
    }
    assert bytes[..|bytes|] == bytes;
  }

  function AlgorithmText(a: Algorithm): string {
    match a
    case Sha1 => "SHA1"
    case Sha256 => "SHA256"
    case Sha512 => "SHA512"
  }

  function ToUri(cfg: Config, name: string): string {
    URI_PREFIX + LabelText(Encode(name)) + "?secret=" + B.Encoded(cfg.secret) + "&digits=" + Decimal(cfg.digits)
      + "&period=" + Decimal(cfg.period) + "&algorithm=" + AlgorithmText(cfg.algorithm)
  }

  // ----- canonical form

  /** What every accepted configuration satisfies. */
  ghost predicate Canonical(cfg: Config) {
    cfg.secret != [] && 1 <= cfg.digits <= 9 && 0 < cfg.period <= U64_MAX
  }

  lemma {:induction false} AppliedInRange(f: Fields, pairs: seq<string>)
    requires 1 <= f.digits <= 9 && 0 < f.period <= U64_MAX && (f.secret.Some? ==> f.secret.value != [])
    ensures var g := ApplyAll(f, pairs);
      g.Some? ==> 1 <= g.value.digits <= 9 && 0 < g.value.period <= U64_MAX && (g.value.secret.Some? ==> g.value.secret.value != [])
    decreases |pairs|
  {
    if pairs != [] && Apply(f, pairs[0]).Some? {
      AppliedInRange(Apply(f, pairs[0]).value, pairs[1..]);
    }
  }

  lemma ParsedIsCanonical(value: string)
    ensures Parsed(value).Some? ==> Canonical(Parsed(value).value)
  {
    var trimmed := Trim(value);
    if OtpauthParsed(trimmed).Some? {
      AppliedInRange(DEFAULTS, Split(Query(StripPrefix(trimmed, URI_PREFIX).value), '&'));
    }
  }

  lemma {:induction false} LabelHasNoQuestionMark(bytes: seq<u8>)
    ensures '?' !in LabelText(bytes)
    decreases |bytes|
  {
    if bytes != [] {
      LabelHasNoQuestionMark(bytes[..|bytes| - 1]);
      var b := bytes[|bytes| - 1];
      assert '?' !in LabelByte(b);
    }
  }

  /** None of the characters that structure a query. */
  ghost predicate Plain(s: string) {
    '&' !in s && '=' !in s && '?' !in s
  }

  lemma EncodedIsPlain(data: seq<u8>)
    ensures Plain(B.Encoded(data))
  {
    forall c | c in B.Encoded(data)
      ensures c != '&' && c != '=' && c != '?'
    {
      var i :| 0 <= i < |B.Encoded(data)| && B.Encoded(data)[i] == c;
      B.SymbolRoundTrip(B.ByteSymbols(data)[i]);
    }
  }

  lemma DecimalIsPlain(n: nat)
    ensures Plain(Decimal(n))
  {
    DecimalDigits(n);
  }

  lemma AlgorithmIsPlain(a: Algorithm)
    ensures Plain(AlgorithmText(a)) && AlgorithmNamed(AlgorithmText(a)) == Some(a)
  {
    assert AsciiUpper("SHA1") == "SHA1" && AsciiUpper("SHA256") == "SHA256" && AsciiUpper("SHA512") == "SHA512";
  }

  function QueryOf(s: string, d: string, p: string, a: string): string {
    "secret=" + s + ("&" + ("digits=" + d + ("&" + ("period=" + p + ("&" + ("algorithm=" + a))))))
  }

  lemma QuerySplits(s: string, d: string, p: string, a: string)
    requires Plain(s) && Plain(d) && Plain(p) && Plain(a)
    ensures Split(QueryOf(s, d, p, a), '&') == ["secret=" + s, "digits=" + d, "period=" + p, "algorithm=" + a]
  {
    var q1 := "algorithm=" + a;
    var q2 := "period=" + p + ("&" + q1);
    var q3 := "digits=" + d + ("&" + q2);
    SplitWhole(q1, '&');
    SplitAt("period=" + p, '&', q1);
    assert "period=" + p + ['&'] + q1 == q2;
    SplitAt("digits=" + d, '&', q2);
    assert "digits=" + d + ['&'] + q2 == q3;
    SplitAt("secret=" + s, '&', q3);
    assert "secret=" + s + ['&'] + q3 == QueryOf(s, d, p, a);
  }

  lemma PairSplits(key: string, val: string)
    requires '=' !in key
    ensures SplitOnce(key + "=" + val, '=') == Some((key, val))
  {
    SplitOnceAt(key, '=', val);
  }

  lemma KeysAreLower()
    ensures AsciiLower("secret") == "secret" && AsciiLower("digits") == "digits"
    ensures AsciiLower("period") == "period" && AsciiLower("algorithm") == "algorithm"
  {
  }

  // Each written parameter sets its field.
  lemma SecretApplies(f: Fields, secret: seq<u8>)
    requires secret != []
    ensures Apply(f, "secret=" + B.Encoded(secret)) == Some(f.(secret := Some(secret)))
  {
    KeysAreLower();
    PairSplits("secret", B.Encoded(secret));
    assert "secret" + "=" + B.Encoded(secret) == "secret=" + B.Encoded(secret);
    B.RoundTrip(secret);
  }

  lemma DigitsApply(f: Fields, d: nat)
    requires 1 <= d <= 9
    ensures Apply(f, "digits=" + Decimal(d)) == Some(f.(digits := d))
  {
    KeysAreLower();
    PairSplits("digits", Decimal(d));
    assert "digits" + "=" + Decimal(d) == "digits=" + Decimal(d);
    ParseDecimal(d, U32_MAX);
  }

  lemma PeriodApplies(f: Fields, p: nat)
    requires 0 < p <= U64_MAX
    ensures Apply(f, "period=" + Decimal(p)) == Some(f.(period := p))
  {
    KeysAreLower();
    PairSplits("period", Decimal(p));
    assert "period" + "=" + Decimal(p) == "period=" + Decimal(p);
    ParseDecimal(p, U64_MAX);
  }

  lemma AlgorithmApplies(f: Fields, a: Algorithm)
    ensures Apply(f, "algorithm=" + AlgorithmText(a)) == Some(f.(algorithm := a))
  {
    KeysAreLower();
    PairSplits("algorithm", AlgorithmText(a));
    assert "algorithm" + "=" + AlgorithmText(a) == "algorithm=" + AlgorithmText(a);
    AlgorithmIsPlain(a);
  }

  lemma WrittenQueryApplies(cfg: Config)
    requires Canonical(cfg)
    ensures ApplyAll(DEFAULTS, Split(QueryOf(B.Encoded(cfg.secret), Decimal(cfg.digits), Decimal(cfg.period),
                                             AlgorithmText(cfg.algorithm)), '&'))
         == Some(Fields(Some(cfg.secret), cfg.digits, cfg.period, cfg.algorithm))
  {
    var s, d, p, a := B.Encoded(cfg.secret), Decimal(cfg.digits), Decimal(cfg.period), AlgorithmText(cfg.algorithm);
    EncodedIsPlain(cfg.secret);
    DecimalIsPlain(cfg.digits);
    DecimalIsPlain(cfg.period);
    AlgorithmIsPlain(cfg.algorithm);
    QuerySplits(s, d, p, a);
    var pairs := ["secret=" + s, "digits=" + d, "period=" + p, "algorithm=" + a];
    var f1 := DEFAULTS.(secret := Some(cfg.secret));
    var f2 := f1.(digits := cfg.digits);
    var f3 := f2.(period := cfg.period);
    SecretApplies(DEFAULTS, cfg.secret);
    DigitsApply(f1, cfg.digits);
    PeriodApplies(f2, cfg.period);
    AlgorithmApplies(f3, cfg.algorithm);
    assert ApplyAll(f3, pairs[3..]) == Some(f3.(algorithm := cfg.algorithm)) by {
      assert pairs[3..][1..] == [];
    }
    assert pairs[2..][1..] == pairs[3..] && pairs[1..][1..] == pairs[2..];
    assert ApplyAll(f2, pairs[2..]) == ApplyAll(f3, pairs[3..]);
    assert ApplyAll(f1, pairs[1..]) == ApplyAll(f2, pairs[2..]);
  }

  lemma Glue(x: string, key: string, val: string, rest: string)
    ensures x + ("&" + key) + val + rest == x + ("&" + (key + val + rest))
  {
  }

  lemma UriShape(cfg: Config, name: string)
    ensures ToUri(cfg, name) == URI_PREFIX + (LabelText(Encode(name)) + ['?']
      + QueryOf(B.Encoded(cfg.secret), Decimal(cfg.digits), Decimal(cfg.period), AlgorithmText(cfg.algorithm)))
  {
    var l, s, d, p, a := LabelText(Encode(name)), B.Encoded(cfg.secret), Decimal(cfg.digits), Decimal(cfg.period),
      AlgorithmText(cfg.algorithm);
    var x1 := URI_PREFIX + l + "?secret=" + s;
    var x2 := x1 + "&digits=" + d;
    var x3 := x2 + "&period=" + p;
    var t3 := "&" + ("algorithm=" + a);
    var t2 := "&" + ("period=" + p + t3);
    assert "&digits=" == "&" + "digits=" && "&period=" == "&" + "period=" && "&algorithm=" == "&" + "algorithm=";
    assert x3 + "&algorithm=" + a == x3 + t3;
    Glue(x2, "period=", p, t3);
    Glue(x1, "digits=", d, t2);
    Regroup(URI_PREFIX, l, s, "&" + ("digits=" + d + t2));
  }

  lemma Regroup(prefix: string, l: string, s: string, rest: string)
    ensures prefix + l + "?secret=" + s + rest == prefix + (l + ['?'] + ("secret=" + s + rest))
  {
  }

  lemma UriIsTrimmed(cfg: Config, name: string)
    ensures Trim(ToUri(cfg, name)) == ToUri(cfg, name)
  {
    var uri, a := ToUri(cfg, name), AlgorithmText(cfg.algorithm);
    assert uri[0] == 'o' && uri[|uri| - 1] == a[|a| - 1];
    TrimSolid(uri);
  }

  lemma CanonicalReadsBack(cfg: Config, name: string)
    requires Canonical(cfg)
    ensures OtpauthParsed(ToUri(cfg, name)) == Some(cfg)
  {
    var path := LabelText(Encode(name));
    var query := QueryOf(B.Encoded(cfg.secret), Decimal(cfg.digits), Decimal(cfg.period), AlgorithmText(cfg.algorithm));
    UriShape(cfg, name);
    assert ToUri(cfg, name)[|URI_PREFIX|..] == path + ['?'] + query;
    LabelHasNoQuestionMark(Encode(name));
    SplitOnceAt(path, '?', query);
    WrittenQueryApplies(cfg);
  }

  /** Canonicalisation preserves meaning: the URI written for a configuration reads back as that
      configuration, under any label, exactly when the configuration has a secret, a digit count
      from 1 to 9 and a positive period. */
  lemma UriReadsBackIff(cfg: Config, name: string)
    ensures Parsed(ToUri(cfg, name)) == Some(cfg) <==> Canonical(cfg)
  {
    ParsedIsCanonical(ToUri(cfg, name));
    if Canonical(cfg) {
      CanonicalReadsBack(cfg, name);
      UriIsTrimmed(cfg, name);
    }
  }

  /** In particular for everything `parse` accepts, as storing an entry does. */
  lemma StoringKeepsMeaning(value: string, name: string)
    ensures Parsed(value).Some? ==> Parsed(ToUri(Parsed(value).value, name)) == Parsed(value)
  {
    ParsedIsCanonical(value);
    if Parsed(value).Some? {
      UriReadsBackIff(Parsed(value).value, name);
    }
  }

  // ----- what each form of input means

  /** White space around a value does not matter. */
  lemma SurroundingsIgnored(before: string, value: string, after: string)
    requires IsBlank(before) && IsBlank(after)
    ensures Parsed(before + value + after) == Parsed(value)
  {
    TrimIgnores(before, value, after);
  }

  /** A bare seed is a SHA-1 code of 6 digits every 30 seconds, when it has at least 16 bytes of text
      and is base32. */
  lemma BareSeedMeans(value: string)
    requires !("otpauth://totp/" <= Trim(value))
    ensures Parsed(value) ==
      if |Encode(Trim(value))| >= 16 && B.Decoded(Trim(value)).Some? then Some(Config(B.Decoded(Trim(value)).value, 6, 30, Sha1))
      else None
  {
  }

  lemma SecretSets(f: Fields, s: string)
    ensures Apply(f, "secret=" + s) == Some(f.(secret := B.Decoded(s)))
  {
    KeysAreLower();
    PairSplits("secret", s);
    assert "secret" + "=" + s == "secret=" + s;
  }

  lemma DigitsSet(f: Fields, d: string)
    ensures var n := ParseUnsigned(d, 0xFFFF_FFFF);
      Apply(f, "digits=" + d) == Some(f.(digits := if n.Some? && 1 <= n.value <= 9 then n.value else f.digits))
  {
    KeysAreLower();
    PairSplits("digits", d);
    assert "digits" + "=" + d == "digits=" + d;
  }

  lemma PeriodSets(f: Fields, p: string)
    ensures var n := ParseUnsigned(p, 0xFFFF_FFFF_FFFF_FFFF);
      Apply(f, "period=" + p) == Some(f.(period := if n.Some? && n.value > 0 then n.value else f.period))
  {
    KeysAreLower();
    PairSplits("period", p);
    assert "period" + "=" + p == "period=" + p;
  }

  lemma AlgorithmSets(f: Fields, a: string)
    ensures Apply(f, "algorithm=" + a) ==
      match AlgorithmNamed(a) case Some(named) => Some(f.(algorithm := named)) case None => None
  {
    KeysAreLower();
    PairSplits("algorithm", a);
    assert "algorithm" + "=" + a == "algorithm=" + a;
  }

  /** Keys that differ in case only mean the same, and unknown ones nothing. */
  lemma KeyCaseIgnored(f: Fields, key: string, other: string, val: string)
    requires '=' !in key && '=' !in other && AsciiLower(key) == AsciiLower(other)
    ensures Apply(f, key + "=" + val) == Apply(f, other + "=" + val)
    ensures AsciiLower(key) !in ["secret", "digits", "period", "algorithm"] ==> Apply(f, key + "=" + val) == Some(f)
  {
    PairSplits(key, val);
    PairSplits(other, val);
  }

  lemma LowerLetters(c: char)
    ensures AsciiLower([c]) == [if c in "ABCDEFGHIJKLMNOPQRSTUVWXYZ" then ("abcdefghijklmnopqrstuvwxyz"[c as int - 'A' as int]) else c]
  {
  }

  /** The three algorithms, in either case, and no other. */
  lemma AlgorithmNames(a: string)
    ensures AlgorithmNamed("SHA1") == AlgorithmNamed("sha1") == Some(Sha1)
    ensures AlgorithmNamed("SHA256") == AlgorithmNamed("sha256") == Some(Sha256)
    ensures AlgorithmNamed("SHA512") == AlgorithmNamed("sha512") == Some(Sha512)
    ensures AlgorithmNamed(a).Some? ==> AsciiUpper(a) in ["SHA1", "SHA256", "SHA512"]
  {
    assert AsciiUpper("SHA1") == "SHA1" && AsciiUpper("SHA256") == "SHA256" && AsciiUpper("SHA512") == "SHA512";
    assert AsciiUpper("sha1") == "SHA1" && AsciiUpper("sha256") == "SHA256" && AsciiUpper("sha512") == "SHA512";
  }

  /** The query of a URI is what follows its first question mark. */
  lemma UriQuery(path: string, query: string)
    requires '?' !in path
    ensures OtpauthParsed("otpauth://totp/" + path + "?" + query) ==
      match ApplyAll(DEFAULTS, Split(query, '&'))
      case None => None
      case Some(f) => if f.secret.None? then None else Some(Config(f.secret.value, f.digits, f.period, f.algorithm))
  {
    var value := "otpauth://totp/" + path + "?" + query;
    assert value[|URI_PREFIX|..] == path + ['?'] + query;
    SplitOnceAt(path, '?', query);
  }

  /** A URI with only a secret means 6 digits every 30 seconds with SHA-1. */
  lemma SecretOnlyMeans(path: string, s: string)
    requires '?' !in path && '&' !in s
    ensures OtpauthParsed("otpauth://totp/" + path + "?" + ("secret=" + s)) ==
      if B.Decoded(s).Some? then Some(Config(B.Decoded(s).value, 6, 30, Sha1)) else None
  {
    UriQuery(path, "secret=" + s);
    SplitWhole("secret=" + s, '&');
    SecretSets(DEFAULTS, s);
  }

  /** A URI with all four parameters: each is taken if it is in range, and an unknown algorithm refuses
      the whole. */
  lemma UriMeans(path: string, s: string, d: string, p: string, a: string)
    requires '?' !in path && Plain(s) && Plain(d) && Plain(p) && Plain(a)
    ensures var n, t := ParseUnsigned(d, 0xFFFF_FFFF), ParseUnsigned(p, 0xFFFF_FFFF_FFFF_FFFF);
      OtpauthParsed("otpauth://totp/" + path + "?" + QueryOf(s, d, p, a)) ==
        if B.Decoded(s).None? || AlgorithmNamed(a).None? then None
        else Some(Config(B.Decoded(s).value, if n.Some? && 1 <= n.value <= 9 then n.value else 6,
                         if t.Some? && t.value > 0 then t.value else 30, AlgorithmNamed(a).value))
  {
    UriQuery(path, QueryOf(s, d, p, a));
    QuerySplits(s, d, p, a);
    SecretSets(DEFAULTS, s);
    var f1 := Apply(DEFAULTS, "secret=" + s).value;
    DigitsSet(f1, d);
    var f2 := Apply(f1, "digits=" + d).value;
    PeriodSets(f2, p);
    var f3 := Apply(f2, "period=" + p).value;
    AlgorithmSets(f3, a);
    FourApplied(DEFAULTS, "secret=" + s, "digits=" + d, "period=" + p, "algorithm=" + a);
  }

  lemma FourApplied(f: Fields, p0: string, p1: string, p2: string, p3: string)
    requires Apply(f, p0).Some? && Apply(Apply(f, p0).value, p1).Some? && Apply(Apply(Apply(f, p0).value, p1).value, p2).Some?
    ensures ApplyAll(f, [p0, p1, p2, p3]) == Apply(Apply(Apply(Apply(f, p0).value, p1).value, p2).value, p3)
  {
    assert [p0, p1, p2, p3][1..] == [p1, p2, p3] && [p1, p2, p3][1..] == [p2, p3];
    assert [p2, p3][1..] == [p3] && [p3][1..] == [];
    var f3 := Apply(Apply(Apply(f, p0).value, p1).value, p2).value;
    assert ApplyAll(f3, [p3]) == Apply(f3, p3) by {
      if Apply(f3, p3).Some? {
        assert ApplyAll(Apply(f3, p3).value, []) == Some(Apply(f3, p3).value);
      }
    }
    assert ApplyAll(Apply(Apply(f, p0).value, p1).value, [p2, p3]) == ApplyAll(f3, [p3]);
    assert ApplyAll(Apply(f, p0).value, [p1, p2, p3]) == ApplyAll(Apply(Apply(f, p0).value, p1).value, [p2, p3]);
  }

  // ----- labels read back

  function HexValue(c: char): nat {
    if '0' <= c <= '9' then c as int - '0' as int else if 'A' <= c <= 'F' then c as int - 'A' as int + 10 else 0
  }

  /** Percent-decoding (section 2.1 of RFC 3986). */
  function PercentDecoded(s: string): seq<nat> {
    if s == "" then []
    else if s[0] == '%' && |s| >= 3 then [16 * HexValue(s[1]) + HexValue(s[2])] + PercentDecoded(s[3..])
    else [s[0] as int] + PercentDecoded(s[1..])
  }

  lemma {:induction false} LabelConcat(a: seq<u8>, b: seq<u8>)
    ensures LabelText(a + b) == LabelText(a) + LabelText(b)
    decreases |b|
  {
    if b == [] {
      assert a + b == a;
    } else {
      assert (a + b)[..|a + b| - 1] == a + b[..|b| - 1];
      LabelConcat(a, b[..|b| - 1]);
    }
  }

  lemma HexReads(n: nat)
    requires n < 16
    ensures HexValue(HexDigit(n)) == n
  {
  }

  lemma DecodedEscape(high: nat, low: nat, rest: string)
    requires high < 16 && low < 16
    ensures PercentDecoded(['%', HexDigit(high), HexDigit(low)] + rest) == [16 * high + low] + PercentDecoded(rest)
  {
    var s := ['%', HexDigit(high), HexDigit(low)] + rest;
    HexReads(high);
    HexReads(low);
    assert s[0] == '%' && s[1] == HexDigit(high) && s[2] == HexDigit(low) && s[3..] == rest;
  }

  lemma DecodedLetter(c: char, rest: string)
    requires c != '%'
    ensures PercentDecoded([c] + rest) == [c as int] + PercentDecoded(rest)
  {
    assert ([c] + rest)[1..] == rest;
  }

  lemma DecodedByte(b: u8, rest: string)
    ensures PercentDecoded(LabelByte(b) + rest) == [b] + PercentDecoded(rest)
  {
    if IsUnreserved(b) {
      DecodedLetter(b as char, rest);
    } else {
      DecodedEscape(b / 16, b % 16, rest);
    }
  }

  /** A label decodes to the bytes of the name it was written for. */
  lemma {:induction false} LabelReadsBack(bytes: seq<u8>)
    ensures PercentDecoded(LabelText(bytes)) == bytes
  {
    if bytes != [] {
      var b, rest := bytes[0], bytes[1..];
      LabelReadsBack(rest);
      LabelConcat([b], rest);
      assert [b] + rest == bytes;
      assert [b][..0] == [];
      assert LabelText([b]) == LabelByte(b);
      DecodedByte(b, LabelText(rest));
    }
  }

  /** Letters, digits and six signs stand for themselves; every other byte is escaped. */
  lemma EscapedIff(b: u8)
    ensures LabelByte(b) == [b as char] <==>
      || 'A' as int <= b <= 'Z' as int || 'a' as int <= b <= 'z' as int || '0' as int <= b <= '9' as int
      || (b < 128 && (b as char) in "-_.~/:")
    ensures LabelByte(b) != [b as char] ==> LabelByte(b)[0] == '%' && |LabelByte(b)| == 3
  {
  }
}
