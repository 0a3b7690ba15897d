/** The cleartext header of a vault file: salt and key-derivation parameters. */
module VaultHeader {
  import opened Common
  import opened Utf8

  type Salt = s: seq<u8> | |s| == 32 witness seq(32, _ => 0)

  const MAGIC: seq<u8> := [0x53, 0x53, 0x56, 0x31]  // "SSV1"
  const HEADER_VERSION: u8 := 1
  const SALT_LEN := 32
  const HEADER_LEN := 4 + 1 + SALT_LEN + 4 + 4 + 4 + 8
  const MIN_ARGON_MEMORY_KIB := 8 * 1024
  const MAX_ARGON_MEMORY_KIB := 1024 * 1024
  const MIN_ARGON_TIME := 1
  const MAX_ARGON_TIME := 32
  const MIN_ARGON_THREADS := 1
  const MAX_ARGON_THREADS := 16
  const MAX_VDF_ITERATIONS := 50_000_000

  datatype Argon2Params = Argon2Params(time: u32, memory: u32, threads: u32)

  datatype Header = Header(salt: Salt, params: Argon2Params, vdfIterations: u64)

  datatype HeaderError = TooShort | BadMagic | BadVersion(v: u8)
                       | ArgonTime | ArgonMemory | ArgonThreads | VdfIterations

  // ----- little-endian integers

  function Le(n: nat, width: nat): (r: seq<u8>)
    ensures |r| == width
    decreases width
  {
    if width == 0 then [] else [n % 256] + Le(n / 256, width - 1)
  }

  function FromLe(s: seq<u8>): nat {
    if s == [] then 0 else s[0] + 256 * FromLe(s[1..])
  }

  function Pow256(k: nat): nat {
    if k == 0 then 1 else 256 * Pow256(k - 1)
  }

  lemma {:induction false} FromLeInverts(n: nat, width: nat)
    requires n < Pow256(width)
    ensures FromLe(Le(n, width)) == n
    decreases width
  {
    if width > 0 {
      FromLeInverts(n / 256, width - 1);
      assert Le(n, width)[1..] == Le(n / 256, width - 1);
    }
  }

  lemma {:induction false} LeInverts(s: seq<u8>)
    ensures Le(FromLe(s), |s|) == s && FromLe(s) < Pow256(|s|)
  {
    if s != [] {
      var rest := FromLe(s[1..]);
      LeInverts(s[1..]);
      assert FromLe(s) % 256 == s[0] && FromLe(s) / 256 == rest;
      assert s == [s[0]] + s[1..];
    }
  }

  lemma Widths()
    ensures Pow256(4) == 0x1_0000_0000 && Pow256(8) == 0x1_0000_0000_0000_0000
  {
    assert Pow256(2) == 0x1_0000;
    assert Pow256(4) == 256 * 256 * Pow256(2);
    assert Pow256(6) == 256 * 256 * Pow256(4);
  }

  // ----- the header

  function ValidateKdfParams(params: Argon2Params, vdfIterations: u64): Option<HeaderError> {
    if !(MIN_ARGON_TIME <= params.time <= MAX_ARGON_TIME) then Some(ArgonTime)
    else if !(MIN_ARGON_MEMORY_KIB <= params.memory <= MAX_ARGON_MEMORY_KIB) then Some(ArgonMemory)
    else if !(MIN_ARGON_THREADS <= params.threads <= MAX_ARGON_THREADS) then Some(ArgonThreads)
    else if vdfIterations > MAX_VDF_ITERATIONS then Some(VdfIterations)
    else None
  }

  function ToBytes(h: Header): (r: seq<u8>)
    ensures |r| == HEADER_LEN
  {
    MAGIC + [HEADER_VERSION] + h.salt + Le(h.params.time, 4) + Le(h.params.memory, 4) + Le(h.params.threads, 4)
      + Le(h.vdfIterations, 8)
  }

  function ReadU32(s: seq<u8>): u32
    requires |s| == 4
  {
    LeInverts(s);
    Widths();
    FromLe(s)
  }

  function ReadU64(s: seq<u8>): u64
    requires |s| == 8
  {
    LeInverts(s);
    Widths();
    FromLe(s)
  }

  function Fields(header: seq<u8>): Header
    requires |header| == HEADER_LEN
  {
    Header(header[5..37], Argon2Params(ReadU32(header[37..41]), ReadU32(header[41..45]), ReadU32(header[45..49])),
           ReadU64(header[49..57]))
  }

  function Parsed(data: seq<u8>): Result<(Header, seq<u8>), HeaderError> {
    if |data| < HEADER_LEN then Err(TooShort)
    else
      var header := data[..HEADER_LEN];
      if header[0..4] != MAGIC then Err(BadMagic)
      else if header[4] != HEADER_VERSION then Err(BadVersion(header[4]))
      else
        var h := Fields(header);
        match ValidateKdfParams(h.params, h.vdfIterations)
        case Some(e) => Err(e)
        case None => Ok((h, data[HEADER_LEN..]))
  }

  method Parse(data: seq<u8>) returns (r: Result<(Header, seq<u8>), HeaderError>)
    ensures r == Parsed(data)
  {
    if |data| < HEADER_LEN {
      return Err(TooShort);
    }
    var header, ciphertext := data[..HEADER_LEN], data[HEADER_LEN..];
    if header[0..4] != MAGIC {
      return Err(BadMagic);
    }
    if header[4] != HEADER_VERSION {
      return Err(BadVersion(header[4]));
    }
    var salt: Salt := header[5..5 + SALT_LEN];
    var off := 5 + SALT_LEN;
    var time := ReadU32(header[off..off + 4]);
    off := off + 4;
    var memory := ReadU32(header[off..off + 4]);
    off := off + 4;
    var threads := ReadU32(header[off..off + 4]);
    off := off + 4;
    var vdf := ReadU64(header[off..off + 8]);
    var params := Argon2Params(time, memory, threads);
    var invalid := ValidateKdfParams(params, vdf);
    if invalid.Some? {
      return Err(invalid.value);
    }
    r := Ok((Header(salt, params, vdf), ciphertext));
  }

  lemma ReadWritten(n: u32, m: u64)
    ensures ReadU32(Le(n, 4)) == n && ReadU64(Le(m, 8)) == m
  {
    Widths();
    FromLeInverts(n, 4);
    FromLeInverts(m, 8);
  }

  lemma Slices(salt: seq<u8>, t: seq<u8>, m: seq<u8>, p: seq<u8>, v: seq<u8>)
    requires |salt| == 32 && |t| == |m| == |p| == 4 && |v| == 8
    ensures var b := MAGIC + [HEADER_VERSION] + salt + t + m + p + v;
      && |b| == HEADER_LEN && b[0..4] == MAGIC && b[4] == HEADER_VERSION
      && b[5..37] == salt && b[37..41] == t && b[41..45] == m && b[45..49] == p && b[49..57] == v
  {
  }

  lemma FieldsOfBytes(h: Header)
    ensures Fields(ToBytes(h)) == h
  {
    Slices(h.salt, Le(h.params.time, 4), Le(h.params.memory, 4), Le(h.params.threads, 4), Le(h.vdfIterations, 8));
    ReadWritten(h.params.time, h.vdfIterations);
    ReadWritten(h.params.memory, h.vdfIterations);
    ReadWritten(h.params.threads, h.vdfIterations);
  }

  lemma BytesOfFields(header: seq<u8>)
    requires |header| == HEADER_LEN && header[0..4] == MAGIC && header[4] == HEADER_VERSION
    ensures ToBytes(Fields(header)) == header
  {
    LeInverts(header[37..41]);
    LeInverts(header[41..45]);
    LeInverts(header[45..49]);
    LeInverts(header[49..57]);
    assert header == header[0..4] + [header[4]] + header[5..37] + header[37..41] + header[41..45] + header[45..49]
      + header[49..57];
  }

  /** Parsing and printing invert each other: exactly the files that start with the bytes of an
      acceptable header parse, and they parse to that header. */
  lemma ParsedIff(data: seq<u8>, h: Header, rest: seq<u8>)
    ensures Parsed(data) == Ok((h, rest)) <==>
      data == ToBytes(h) + rest && ValidateKdfParams(h.params, h.vdfIterations).None?
  {
    if data == ToBytes(h) + rest {
      assert data[..HEADER_LEN] == ToBytes(h) && data[HEADER_LEN..] == rest;
      FieldsOfBytes(h);
      assert ToBytes(h)[0..4] == MAGIC;
    }
    if Parsed(data) == Ok((h, rest)) {
      BytesOfFields(data[..HEADER_LEN]);
      assert data == data[..HEADER_LEN] + data[HEADER_LEN..];
    }
  }

  /** Where each field is in the 57 bytes. */
  lemma HeaderLayout(h: Header)
    ensures var b := ToBytes(h);
      && b[0..4] == [0x53, 0x53, 0x56, 0x31] && b[4] == 1 && b[5..37] == h.salt
      && FromLe(b[37..41]) == h.params.time && FromLe(b[41..45]) == h.params.memory
      && FromLe(b[45..49]) == h.params.threads && FromLe(b[49..57]) == h.vdfIterations
  {
    Slices(h.salt, Le(h.params.time, 4), Le(h.params.memory, 4), Le(h.params.threads, 4), Le(h.vdfIterations, 8));
    Widths();
    FromLeInverts(h.params.time, 4);
    FromLeInverts(h.params.memory, 4);
    FromLeInverts(h.params.threads, 4);
    FromLeInverts(h.vdfIterations, 8);
  }

  /** The lowest byte comes first. */
  lemma LowestFirst(a: u8, b: u8)
    ensures FromLe([a, b]) == a + 256 * b
  {
    assert [b][1..] == [];
    assert FromLe([b]) == b;
    assert [a, b][1..] == [b];
  }

  lemma ParamsAcceptedIff(params: Argon2Params, vdfIterations: u64)
    ensures ValidateKdfParams(params, vdfIterations).None? <==>
      && 1 <= params.time <= 32 && 8_192 <= params.memory <= 1_048_576 && 1 <= params.threads <= 16
      && vdfIterations <= 50_000_000
  {
  }
}
