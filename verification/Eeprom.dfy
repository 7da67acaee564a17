/** The encrypted section of the EEPROM: sealed by the recovery program, plain by it and by
    the kernel at boot. Both programs mask the confounder and the data with one RC4 stream
    whose key is the HMAC of the checksum, and the checksum is the HMAC of the plain text. */
module Eeprom {
  import opened Bits
  import opened Bytes
  import opened Hmac
  import Rc4

  const SECTION_SIZE := 48
  const CONFOUNDER_AT := 20
  const DATA_AT := 28
  const REGION_AT := 44
  const CONFOUNDER_LEN := 8
  const DATA_LEN := 20
  const KEY_LENGTH := 16

  const GAME_REGION_NA := 0x00000001
  const GAME_REGION_MANUFACTURING := 0x80000000

  type Section = s: seq<byte> | |s| == SECTION_SIZE witness Zeros(SECTION_SIZE)
  type Confounder = s: seq<byte> | |s| == CONFOUNDER_LEN witness Zeros(CONFOUNDER_LEN)
  type Data = s: seq<byte> | |s| == DATA_LEN witness Zeros(DATA_LEN)

  /** Hash and EEPROM key. */
  datatype Env = Env(sha: Hash, key: seq<byte>)

  type Plain = s: seq<byte> | |s| == CONFOUNDER_LEN + DATA_LEN witness Zeros(CONFOUNDER_LEN + DATA_LEN)

  // ----- What the code computes -----

  /** A section whose confounder is all zeros counts as not encrypted. */
  predicate IsUnencrypted(s: Section) {
    s[CONFOUNDER_AT..DATA_AT] == Zeros(CONFOUNDER_LEN)
  }

  /** The 28 bytes that mask confounder and data under a given checksum. */
  function Mask(env: Env, checksum: Digest): Plain {
    Rc4.KeyStream(Rc4.KeyState(Mac(env.sha, env.key, checksum)), CONFOUNDER_LEN + DATA_LEN)
  }

  function Unmasked(env: Env, s: Section): Plain {
    Xor(s[CONFOUNDER_AT..], Mask(env, s[..CONFOUNDER_AT]))
  }

  datatype Reading = Readable(data: Data) | ChecksumMismatch

  /** What either program reads out of a section. */
  function Read(env: Env, s: Section): Reading {
    hide Unmasked, Mac;
    var plain := Unmasked(env, s);
    if IsUnencrypted(s) then Readable(s[DATA_AT..])
    else if Mac(env.sha, env.key, plain) == s[..CONFOUNDER_AT] then Readable(plain[CONFOUNDER_LEN..])
    else ChecksumMismatch
  }

  /** What the recovery program writes for given data. */
  function Sealed(env: Env, confounder: Confounder, data: Data): Section {
    var checksum := Mac(env.sha, env.key, confounder + data);
    checksum + Xor(confounder + data, Mask(env, checksum))
  }

  /** Sealed data can be read back exactly when its masked confounder is not all zeros; in the
      remaining case the section passes for an unencrypted one, and the data come back only if
      the mask was zero on them as well. */
  lemma ReadSealed(env: Env, confounder: Confounder, data: Data)
    ensures var s := Sealed(env, confounder, data);
            Read(env, s) == Readable(data) <==> !IsUnencrypted(s) || s[DATA_AT..] == data
  {
    hide Rc4.KeyState, Rc4.KeyStream, Mac, Mask, Xor;
    var plain := confounder + data;
    var checksum := Mac(env.sha, env.key, plain);
    var s := Sealed(env, confounder, data);
    assert s[CONFOUNDER_AT..] == Xor(plain, Mask(env, checksum)) && s[..CONFOUNDER_AT] == checksum;
    XorTwice(plain, Mask(env, checksum));
    assert plain[CONFOUNDER_LEN..] == data;
  }

  /** The mask that sealing puts over confounder and data. */
  function SealMask(env: Env, confounder: Confounder, data: Data): Plain {
    Mask(env, Mac(env.sha, env.key, confounder + data))
  }

  lemma SealedParts(env: Env, confounder: Confounder, data: Data)
    ensures var s, mask := Sealed(env, confounder, data), SealMask(env, confounder, data);
            && s[CONFOUNDER_AT..DATA_AT] == Xor(confounder, mask[..CONFOUNDER_LEN])
            && s[DATA_AT..] == Xor(data, mask[CONFOUNDER_LEN..])
  {
    hide Mac, Mask, Xor;
    var s, mask := Sealed(env, confounder, data), SealMask(env, confounder, data);
    XorConcat(confounder, data, mask[..CONFOUNDER_LEN], mask[CONFOUNDER_LEN..]);
    assert mask[..CONFOUNDER_LEN] + mask[CONFOUNDER_LEN..] == mask;
    var masked := s[CONFOUNDER_AT..];
    assert s[CONFOUNDER_AT..DATA_AT] == masked[..CONFOUNDER_LEN] && s[DATA_AT..] == masked[CONFOUNDER_LEN..];
  }

  /** A sealed section passes for an unencrypted one exactly when the mask begins with the
      confounder, and shows its data exactly when the rest of the mask is zero. */
  lemma SealedLooksPlainIff(env: Env, confounder: Confounder, data: Data)
    ensures var s, mask := Sealed(env, confounder, data), SealMask(env, confounder, data);
            && (IsUnencrypted(s) <==> mask[..CONFOUNDER_LEN] == confounder)
            && (s[DATA_AT..] == data <==> mask[CONFOUNDER_LEN..] == Zeros(DATA_LEN))
  {
    hide Sealed, SealMask, Xor;
    var mask := SealMask(env, confounder, data);
    SealedParts(env, confounder, data);
    XorClearsIff(confounder, mask[..CONFOUNDER_LEN]);
    XorKeepsIff(data, mask[CONFOUNDER_LEN..]);
  }

  /** The exception is real: with a hash that does not tell texts apart, some confounder makes the
      sealed section of any data pass for an unencrypted one. */
  lemma SealedCanLookPlain(key: seq<byte>, digest: Digest, data: Data) returns (env: Env, confounder: Confounder)
    ensures env.key == key && IsUnencrypted(Sealed(env, confounder, data))
  {
    hide Mask, Sealed;
    env := Env(_ => digest, key);
    confounder := Mask(env, digest)[..CONFOUNDER_LEN];
    assert Mac(env.sha, env.key, confounder + data) == digest;
    SealedLooksPlainIff(env, confounder, data);
  }

  /** Whether sealing these data keeps them readable. */
  predicate Survives(env: Env, confounder: Confounder, data: Data) {
    var mask := SealMask(env, confounder, data);
    mask[..CONFOUNDER_LEN] != confounder || mask[CONFOUNDER_LEN..] == Zeros(DATA_LEN)
  }

  /** Sealed data can be read back exactly when their mask does not begin with the confounder,
      or is zero behind it. */
  lemma ReadSealedIff(env: Env, confounder: Confounder, data: Data)
    ensures Read(env, Sealed(env, confounder, data)) == Readable(data) <==> Survives(env, confounder, data)
  {
    hide Sealed, SealMask, Read;
    ReadSealed(env, confounder, data);
    SealedLooksPlainIff(env, confounder, data);
  }

  // ----- The game region -----

  /** Temp = region & ~MANUFACTURING */
  function WithoutManufacturing(region: Dword): Dword {
    And(32, region, 0x7FFFFFFF)
  }

  lemma WithoutManufacturingIs(region: Dword)
    ensures WithoutManufacturing(region) == region % 0x80000000
  {
    WordPowers();
    AndLowMask(32, region, 31);
  }

  /** The boot code's test, Temp - 1 wrapping at 32 bits. */
  predicate RegionAccepted(region: Dword) {
    var temp := WithoutManufacturing(region);
    And(32, temp, (temp - 1) % 0x1_0000_0000) == 0
  }

  /** The test accepts exactly the regions with at most one bit beside the manufacturing bit:
      a region with none passes as well, although it is meant to demand one. */
  lemma RegionAcceptedIff(region: Dword)
    ensures RegionAccepted(region) <==> Ones(32, region % 0x80000000) <= 1
  {
    hide And, Ones;
    WithoutManufacturingIs(region);
    var temp := region % 0x80000000;
    WordPowers();
    NoOnes(32, temp);
    if temp > 0 {
      assert (temp - 1) % 0x1_0000_0000 == temp - 1;
      AtMostOneBit(32, temp);
    } else {
      AndBound(32, temp, (temp - 1) % 0x1_0000_0000);
    }
  }

  /** So it does what it is meant to on exactly the regions with a bit beside the manufacturing
      bit. */
  lemma RegionTestAsMeantIff(region: Dword)
    ensures (RegionAccepted(region) <==> Ones(32, region % 0x80000000) == 1) <==> region % 0x80000000 != 0
  {
    hide RegionAccepted, Ones;
    RegionAcceptedIff(region);
    WordPowers();
    NoOnes(32, region % 0x80000000);
  }

  lemma ManufacturingAloneAccepted()
    ensures RegionAccepted(GAME_REGION_MANUFACTURING) && Ones(32, GAME_REGION_MANUFACTURING % 0x80000000) == 0
  {
    hide RegionAccepted, Ones;
    RegionAcceptedIff(GAME_REGION_MANUFACTURING);
    WordPowers();
    NoOnes(32, 0);
  }

  lemma AndBound(w: nat, a: nat, b: nat)
    ensures And(w, a, b) <= a
  {
  }

  // ----- Boot -----

  datatype BootResult = Booted(hdKey: seq<byte>, region: Dword)
                      | RegionViolation(hdKey: seq<byte>, region: Dword)
                      | BadChecksum

  /** ExpDecryptEEPROM: key and region are set even when the region is then rejected. */
  function Boot(env: Env, s: Section): BootResult {
    match Read(env, s)
    case ChecksumMismatch => BadChecksum
    case Readable(data) =>
      var stored := ToDword(data[KEY_LENGTH..]);
      var region: Dword := if stored == 0 then GAME_REGION_MANUFACTURING + GAME_REGION_NA else stored;
      if RegionAccepted(region) then Booted(data[..KEY_LENGTH], region)
      else RegionViolation(data[..KEY_LENGTH], region)
  }

  // ----- Recovery -----

  function CleanRegion(region: Dword): Dword {
    var temp := WithoutManufacturing(region);
    if temp == 0 then GAME_REGION_NA else temp
  }

  /** The data PrepareEEPROM seals again: those it could read, or zeros. */
  function Salvaged(env: Env, s: Section): Data {
    match Read(env, s)
    case Readable(data) => data
    case ChecksumMismatch => Zeros(DATA_LEN)
  }

  function WithCleanRegion(data: Data): Data {
    data[..KEY_LENGTH] + ToBytes(CleanRegion(ToDword(data[KEY_LENGTH..])))
  }

  /** What PrepareEEPROM leaves in the section. */
  function Prepared(env: Env, confounder: Confounder, s: Section): Section {
    Sealed(env, confounder, WithCleanRegion(Salvaged(env, s)))
  }

  lemma CleanRegionTwice(region: Dword)
    ensures CleanRegion(region) != 0
    ensures CleanRegion(region) < GAME_REGION_MANUFACTURING
    ensures CleanRegion(CleanRegion(region)) == CleanRegion(region)
  {
    hide And;
    WithoutManufacturingIs(region);
    WithoutManufacturingIs(CleanRegion(region));
  }

  lemma WithCleanRegionParts(data: Data)
    ensures WithCleanRegion(data)[..KEY_LENGTH] == data[..KEY_LENGTH]
    ensures ToDword(WithCleanRegion(data)[KEY_LENGTH..]) == CleanRegion(ToDword(data[KEY_LENGTH..]))
  {
    hide CleanRegion, ToDword, ToBytes;
    var region := CleanRegion(ToDword(data[KEY_LENGTH..]));
    DwordThere(region);
    assert WithCleanRegion(data)[KEY_LENGTH..] == ToBytes(region);
  }

  /** The boot that PrepareEEPROM is for: with the hard drive key the old section held (zeros if
      that could not be read), and with its region cleaned of the manufacturing bit, accepted
      exactly when a single bit is left. */
  function Intended(data: Data): BootResult {
    var region := CleanRegion(ToDword(data[KEY_LENGTH..]));
    if Ones(32, region) == 1 then Booted(data[..KEY_LENGTH], region) else RegionViolation(data[..KEY_LENGTH], region)
  }

  lemma IntendedRegion(data: Data)
    ensures var region := CleanRegion(ToDword(data[KEY_LENGTH..]));
            && 0 < region < GAME_REGION_MANUFACTURING
            && Intended(data).region == region && Intended(data).hdKey == data[..KEY_LENGTH]
            && (RegionAccepted(region) <==> Ones(32, region) == 1)
  {
    hide And, Ones, ToDword, ToBytes, CleanRegion, RegionAccepted;
    var region := CleanRegion(ToDword(data[KEY_LENGTH..]));
    CleanRegionTwice(ToDword(data[KEY_LENGTH..]));
    RegionAcceptedIff(region);
    assert region % 0x80000000 == region;
    WordPowers();
    NoOnes(32, region);
  }

  /** Booting from cleaned data is the intended boot, and from nothing else. */
  lemma BootIntendedIff(env: Env, s: Section, data: Data)
    requires Read(env, s).Readable?
    ensures Boot(env, s) == Intended(data) <==> Read(env, s).data == WithCleanRegion(data)
  {
    hide And, Ones, ToDword, ToBytes, CleanRegion, RegionAccepted, Read, WithCleanRegion;
    var region := CleanRegion(ToDword(data[KEY_LENGTH..]));
    var got, clean := Read(env, s).data, WithCleanRegion(data);
    IntendedRegion(data);
    WithCleanRegionParts(data);
    if Boot(env, s) == Intended(data) {
      assert got[..KEY_LENGTH] == data[..KEY_LENGTH] && ToDword(got[KEY_LENGTH..]) == region;
      BytesThere(got[KEY_LENGTH..]);
      BytesThere(clean[KEY_LENGTH..]);
      assert got == got[..KEY_LENGTH] + got[KEY_LENGTH..];
      assert clean == clean[..KEY_LENGTH] + clean[KEY_LENGTH..];
    }
  }

  /** After PrepareEEPROM the kernel boots as intended exactly when the cleaned data survive being
      sealed. */
  lemma BootAfterPrepareIff(env: Env, confounder: Confounder, s: Section)
    ensures Boot(env, Prepared(env, confounder, s)) == Intended(Salvaged(env, s))
       <==> Survives(env, confounder, WithCleanRegion(Salvaged(env, s)))
  {
    hide Sealed, Read, WithCleanRegion, Boot, Intended, Salvaged, Survives;
    var data := Salvaged(env, s);
    var p := Prepared(env, confounder, s);
    ReadSealedIff(env, confounder, WithCleanRegion(data));
    ReadUnencrypted(env, p);
    ReadSealed(env, confounder, WithCleanRegion(data));
    if Read(env, p).Readable? { BootIntendedIff(env, p, data); }
  }

  /** Different data are sealed differently, also if their checksums collide. */
  lemma SealedInjective(env: Env, confounder: Confounder, a: Data, b: Data)
    requires Sealed(env, confounder, a) == Sealed(env, confounder, b)
    ensures a == b
  {
    hide Rc4.KeyState, Rc4.KeyStream, Mac, Mask, Xor;
    var s := Sealed(env, confounder, a);
    var x, y := confounder + a, confounder + b;
    assert s[..CONFOUNDER_AT] == Mac(env.sha, env.key, x) == Mac(env.sha, env.key, y);
    var mask := Mask(env, s[..CONFOUNDER_AT]);
    assert s[CONFOUNDER_AT..] == Xor(x, mask) == Xor(y, mask);
    XorTwice(x, mask);
    XorTwice(y, mask);
    assert x[CONFOUNDER_LEN..] == a && y[CONFOUNDER_LEN..] == b;
  }

  /** Whether a mask on a clean region's bytes comes off when the region is cleaned again: it is
      zero but for the manufacturing bit, or takes region 1 away, which cleaning puts back. */
  predicate RegionKept(region: seq<byte>, mask: seq<byte>)
    requires |region| == |mask| == 4
  {
    mask[1] == 0 && mask[2] == 0 && mask[3] % 128 == 0 && (mask[0] == 0 || (mask[0] == 1 && region == [1, 0, 0, 0]))
  }

  /** The top byte of a region without manufacturing bit, under a mask. */
  lemma TopByteKept(b: byte, m: byte)
    requires b < 128
    ensures XorByte(b, m) % 128 == b <==> m % 128 == 0
  {
    assert Pow2(7) == 128;
    XorLow(8, 7, b, m);
    XorIgnoresHigh(7, b, m);
    XorZeroWord(7, b);
    if XorByte(b, m) % 128 == b { XorInjectiveWord(7, b, m % 128, 0); }
  }

  lemma CleanRegionIs(region: Dword)
    ensures CleanRegion(region) == if region % 0x80000000 == 0 then 1 else region % 0x80000000
  {
    hide And;
    WithoutManufacturingIs(region);
  }

  function Number(b0: nat, b1: nat, b2: nat, b3: nat): nat {
    b0 + 0x100 * b1 + 0x10000 * b2 + 0x1000000 * b3
  }

  lemma LastDigit(a: nat, x: nat, b: nat, y: nat)
    requires a < 256 && b < 256
    ensures a + 256 * x == b + 256 * y <==> a == b && x == y
  {
  }

  lemma NumbersEqualIff(a0: nat, a1: nat, a2: nat, a3: nat, b0: nat, b1: nat, b2: nat, b3: nat)
    requires a0 < 256 && a1 < 256 && a2 < 256 && b0 < 256 && b1 < 256 && b2 < 256
    ensures Number(a0, a1, a2, a3) == Number(b0, b1, b2, b3) <==> a0 == b0 && a1 == b1 && a2 == b2 && a3 == b3
  {
    var a, b := a1 + 256 * (a2 + 256 * a3), b1 + 256 * (b2 + 256 * b3);
    assert Number(a0, a1, a2, a3) == a0 + 256 * a && Number(b0, b1, b2, b3) == b0 + 256 * b;
    hide Number;
    LastDigit(a0, a, b0, b);
    LastDigit(a1, a2 + 256 * a3, b1, b2 + 256 * b3);
    LastDigit(a2, a3, b2, b3);
  }

  /** The value of a region's bytes without the manufacturing bit. */
  lemma LowRegion(b: seq<byte>)
    requires |b| == 4
    ensures ToDword(b) % 0x80000000 == Number(b[0], b[1], b[2], b[3] % 128)
  {
    var top: int := b[3];
    var low := Number(b[0], b[1], b[2], b[3] % 128);
    assert ToDword(b) == low + (top / 128) * 0x80000000;
    DivModUnique(ToDword(b), 0x80000000, top / 128, low);
  }

  lemma RegionKeptIff(b: seq<byte>, m: seq<byte>)
    requires |b| == |m| == 4 && 0 < ToDword(b) < GAME_REGION_MANUFACTURING
    ensures CleanRegion(ToDword(Xor(b, m))) == ToDword(b) <==> RegionKept(b, m)
  {
    hide CleanRegion, ToDword, XorByte, Number;
    var x := Xor(b, m);
    assert x[0] == XorByte(b[0], m[0]) && x[1] == XorByte(b[1], m[1]);
    assert x[2] == XorByte(b[2], m[2]) && x[3] == XorByte(b[3], m[3]);
    TopByteOf(b);
    LowRegion(b);
    LowRegion(x);
    CleanRegionIs(ToDword(x));
    assert ToDword(b) == Number(b[0], b[1], b[2], b[3]);
    SmallNumber(0);
    SmallNumber(1);
    NumbersEqualIff(x[0], x[1], x[2], x[3] % 128, b[0], b[1], b[2], b[3]);
    NumbersEqualIff(x[0], x[1], x[2], x[3] % 128, 0, 0, 0, 0);
    NumbersEqualIff(b[0], b[1], b[2], b[3], 1, 0, 0, 0);
    XorByteKeepsIff(b[0], m[0]);
    XorByteKeepsIff(b[1], m[1]);
    XorByteKeepsIff(b[2], m[2]);
    TopByteKept(b[3], m[3]);
    XorByteClearsIff(b[0], m[0]);
    assert b == [b[0], b[1], b[2], b[3]];
  }

  lemma SmallNumber(b: nat)
    ensures Number(b, 0, 0, 0) == b
  {
  }

  lemma TopByteOf(b: seq<byte>)
    requires |b| == 4 && ToDword(b) < GAME_REGION_MANUFACTURING
    ensures b[3] < 128
  {
  }

  /** What data have to look like to be clean data once their region is cleaned. */
  lemma CleansToIff(data: Data, other: Data)
    ensures WithCleanRegion(other) == WithCleanRegion(data)
       <==> other[..KEY_LENGTH] == data[..KEY_LENGTH]
            && CleanRegion(ToDword(other[KEY_LENGTH..])) == CleanRegion(ToDword(data[KEY_LENGTH..]))
  {
    hide CleanRegion, ToDword, ToBytes, WithCleanRegion;
    WithCleanRegionParts(data);
    WithCleanRegionParts(other);
    var a, b := WithCleanRegion(data), WithCleanRegion(other);
    BytesThere(a[KEY_LENGTH..]);
    BytesThere(b[KEY_LENGTH..]);
    assert a == a[..KEY_LENGTH] + a[KEY_LENGTH..] && b == b[..KEY_LENGTH] + b[KEY_LENGTH..];
  }

  /** Masked clean data are cleaned to themselves exactly when the mask spares the key and is
      taken off the region. */
  lemma MaskCleanedOffIff(data: Data, mask: Data)
    ensures var clean := WithCleanRegion(data);
            WithCleanRegion(Xor(clean, mask)) == clean
            <==> mask[..KEY_LENGTH] == Zeros(KEY_LENGTH) && RegionKept(clean[KEY_LENGTH..], mask[KEY_LENGTH..])
  {
    hide CleanRegion, ToDword, ToBytes, WithCleanRegion, Xor, RegionKept;
    var clean := WithCleanRegion(data);
    var masked: Data := Xor(clean, mask);
    WithCleanRegionParts(data);
    CleanRegionTwice(ToDword(data[KEY_LENGTH..]));
    CleansToIff(data, clean);
    CleansToIff(clean, masked);
    assert WithCleanRegion(clean) == clean;
    XorConcat(clean[..KEY_LENGTH], clean[KEY_LENGTH..], mask[..KEY_LENGTH], mask[KEY_LENGTH..]);
    assert clean[..KEY_LENGTH] + clean[KEY_LENGTH..] == clean && mask[..KEY_LENGTH] + mask[KEY_LENGTH..] == mask;
    assert masked[..KEY_LENGTH] == Xor(clean[..KEY_LENGTH], mask[..KEY_LENGTH]);
    assert masked[KEY_LENGTH..] == Xor(clean[KEY_LENGTH..], mask[KEY_LENGTH..]);
    XorKeepsIff(clean[..KEY_LENGTH], mask[..KEY_LENGTH]);
    RegionKeptIff(clean[KEY_LENGTH..], mask[KEY_LENGTH..]);
  }

  /** Whether preparing a section again leaves it as it is: the mask does not begin with the
      confounder, or spares the key and is taken off the region. */
  predicate StaysPrepared(env: Env, confounder: Confounder, clean: Data) {
    var mask := SealMask(env, confounder, clean);
    var rest := mask[CONFOUNDER_LEN..];
    mask[..CONFOUNDER_LEN] != confounder
    || (rest[..KEY_LENGTH] == Zeros(KEY_LENGTH) && RegionKept(clean[KEY_LENGTH..], rest[KEY_LENGTH..]))
  }

  /** A second PrepareEEPROM changes nothing, except exactly when the mask of the first begins
      with the confounder and then touches the key, or the region beyond what cleaning undoes. */
  lemma PrepareTwiceIff(env: Env, confounder: Confounder, s: Section)
    ensures Prepared(env, confounder, Prepared(env, confounder, s)) == Prepared(env, confounder, s)
       <==> StaysPrepared(env, confounder, WithCleanRegion(Salvaged(env, s)))
  {
    hide Sealed, Read, SealMask, WithCleanRegion, Salvaged, RegionKept, Xor;
    var data := Salvaged(env, s);
    var clean := WithCleanRegion(data);
    var p := Prepared(env, confounder, s);
    SealedLooksPlainIff(env, confounder, clean);
    SalvagedIs(env, p);
    if IsUnencrypted(p) {
      SealedParts(env, confounder, clean);
      var masked: Data := Xor(clean, SealMask(env, confounder, clean)[CONFOUNDER_LEN..]);
      MaskCleanedOffIff(data, SealMask(env, confounder, clean)[CONFOUNDER_LEN..]);
      assert Prepared(env, confounder, p) == Sealed(env, confounder, WithCleanRegion(masked));
      if Prepared(env, confounder, p) == p {
        SealedInjective(env, confounder, WithCleanRegion(masked), clean);
      }
    } else {
      ReadSealed(env, confounder, clean);
      CleanedTwice(data);
    }
  }

  lemma SalvagedIs(env: Env, s: Section)
    ensures IsUnencrypted(s) ==> Salvaged(env, s) == s[DATA_AT..]
    ensures Read(env, s).Readable? ==> Salvaged(env, s) == Read(env, s).data
  {
    hide Unmasked, Mac;
  }

  lemma CleanedTwice(data: Data)
    ensures WithCleanRegion(WithCleanRegion(data)) == WithCleanRegion(data)
  {
    hide CleanRegion, ToDword, ToBytes, WithCleanRegion;
    WithCleanRegionParts(data);
    CleanRegionTwice(ToDword(data[KEY_LENGTH..]));
    CleansToIff(data, WithCleanRegion(data));
  }

  lemma ReadUnencrypted(env: Env, s: Section)
    ensures IsUnencrypted(s) ==> Read(env, s) == Readable(s[DATA_AT..])
  {
  }

  // ----- In terms of HMAC and RC4 -----

  /** A sealed section: the HMAC of confounder and data, and these encrypted with RC4 under the
      HMAC of that checksum. */
  lemma SealedIs(env: Env, confounder: Confounder, data: Data)
    requires |env.key| <= 64
    ensures var s := Sealed(env, confounder, data);
            && s[..20] == Rfc2104(env.sha, env.key, confounder + data)
            && s[20..] == Rc4.Crypt(Rfc2104(env.sha, env.key, s[..20]), confounder + data)
  {
    hide Mac, Rfc2104, Xor, Rc4.KeyStream, Rc4.KeyState;
    var s := Sealed(env, confounder, data);
    MacIsRfc2104OfCutKey(env.sha, env.key, confounder + data);
    var checksum := Mac(env.sha, env.key, confounder + data);
    MacIsRfc2104OfCutKey(env.sha, env.key, checksum);
    assert s[..20] == checksum && s[20..] == Xor(confounder + data, Mask(env, checksum));
  }

  /** Unmasking decrypts with RC4 under the HMAC of the checksum. */
  lemma UnmaskedIs(env: Env, s: Section)
    requires |env.key| <= 64
    ensures Unmasked(env, s) == Rc4.Crypt(Rfc2104(env.sha, env.key, s[..20]), s[20..])
  {
    hide Mac, Rfc2104, Xor, Rc4.KeyStream, Rc4.KeyState;
    MacIsRfc2104OfCutKey(env.sha, env.key, s[..20]);
  }

  /** Behind a zero confounder the data are read as they stand. */
  lemma ReadPlainIs(env: Env, s: Section)
    requires forall k :: 20 <= k < 28 ==> s[k] == 0
    ensures Read(env, s) == Readable(s[28..])
  {
    hide Mac, Unmasked;
    ZeroConfounder(s);
  }

  /** Behind any other confounder the decrypted data are read, if their HMAC with the decrypted
      confounder is the checksum. */
  lemma ReadIs(env: Env, s: Section, k: nat)
    requires |env.key| <= 64 && 20 <= k < 28 && s[k] != 0
    ensures Read(env, s).Readable? ==> Read(env, s).data == Unmasked(env, s)[8..]
    ensures Read(env, s).Readable? <==> Rfc2104(env.sha, env.key, Unmasked(env, s)) == s[..20]
  {
    hide Mac, Rfc2104, Unmasked;
    MacIsRfc2104OfCutKey(env.sha, env.key, Unmasked(env, s));
    ZeroConfounder(s);
  }

  lemma ZeroConfounder(s: Section)
    ensures IsUnencrypted(s) <==> forall k :: 20 <= k < 28 ==> s[k] == 0
  {
    var c := s[CONFOUNDER_AT..DATA_AT];
    assert forall k :: 0 <= k < 8 ==> c[k] == s[20 + k];
    if forall k :: 20 <= k < 28 ==> s[k] == 0 {
      assert c == Zeros(8);
    } else {
      var k :| 20 <= k < 28 && s[k] != 0;
      assert c[k - 20] != 0;
    }
  }

  /** The boot from readable data: the first 16 bytes are the key, the last four the region, and
      a region of zero stands for the manufacturing bit and North America. */
  lemma BootIs(env: Env, s: Section)
    requires Read(env, s).Readable?
    ensures var data := Read(env, s).data;
            var stored := data[16] as int + 0x100 * data[17] as int + 0x1_0000 * data[18] as int
                          + 0x100_0000 * data[19] as int;
            var region := if stored == 0 then 0x8000_0001 else stored;
            && Boot(env, s).hdKey == data[..16] && Boot(env, s).region == region
            && (Boot(env, s).Booted? <==> Ones(32, region % 0x8000_0000) <= 1)
  {
    hide Read, ToDword, RegionAccepted, Ones;
    var data := Read(env, s).data;
    DwordIs(data[KEY_LENGTH..]);
    var stored := ToDword(data[KEY_LENGTH..]);
    RegionAcceptedIff(if stored == 0 then 0x8000_0001 else stored);
  }

  /** What PrepareEEPROM seals again: the key it could read or zeros, and a region without the
      manufacturing bit, which is 1 if nothing is left. */
  lemma PreparedIs(env: Env, confounder: Confounder, s: Section, key: seq<byte>, region: Dword, data: Data)
    requires |key| == 16 && data == key + ToBytes(region)
    requires match Read(env, s)
             case Readable(d) =>
               key == d[..16]
               && region == if ToDword(d[16..]) % 0x8000_0000 == 0 then 1 else ToDword(d[16..]) % 0x8000_0000
             case ChecksumMismatch => key == seq(16, _ => 0) && region == 1
    ensures Prepared(env, confounder, s) == Sealed(env, confounder, data)
  {
    hide Read, ToDword, ToBytes, Sealed, CleanRegion;
    match Read(env, s)
    case Readable(d) =>
      CleanRegionIs(ToDword(d[KEY_LENGTH..]));
    case ChecksumMismatch =>
      var d := Zeros(DATA_LEN);
      assert d[KEY_LENGTH..] == Zeros(4) && d[..KEY_LENGTH] == key;
      ZeroDword();
      CleanRegionIs(0);
  }

  lemma ZeroDword()
    ensures ToDword(Zeros(4)) == 0
  {
    DwordIs(Zeros(4));
  }

  // ----- The code itself -----

  ghost function KeyedState(env: Env, checksum: Digest): Rc4.State {
    Rc4.KeyState(Mac(env.sha, env.key, checksum))
  }

  ghost function ConfounderMask(env: Env, checksum: Digest): (r: seq<byte>)
    ensures |r| == CONFOUNDER_LEN
  {
    Rc4.KeyStream(KeyedState(env, checksum), CONFOUNDER_LEN)
  }

  ghost function DataMask(env: Env, checksum: Digest): (r: seq<byte>)
    ensures |r| == DATA_LEN
  {
    Rc4.KeyStream(Rc4.After(KeyedState(env, checksum), CONFOUNDER_LEN), DATA_LEN)
  }

  /** Masking the confounder and then the data continues one key stream. */
  lemma MaskInTwoCalls(env: Env, checksum: Digest)
    ensures Mask(env, checksum) == ConfounderMask(env, checksum) + DataMask(env, checksum)
  {
    Rc4.KeyStreamContinues(KeyedState(env, checksum), CONFOUNDER_LEN, DATA_LEN);
  }

  /** In one array: confounder and data are adjacent. */
  lemma MaskedInPlace(env: Env, checksum: Digest, s: Section)
    ensures var first := ConfounderMask(env, checksum);
            var second := DataMask(env, checksum);
            Rc4.Masked(Rc4.Masked(s, CONFOUNDER_AT, first), DATA_AT, second)
            == s[..CONFOUNDER_AT] + Xor(s[CONFOUNDER_AT..], Mask(env, checksum))
  {
    hide ConfounderMask, DataMask, Rc4.Masked, Xor, Mask;
    var first := ConfounderMask(env, checksum);
    var second := DataMask(env, checksum);
    MaskInTwoCalls(env, checksum);
    Rc4.MaskedTwice(s, CONFOUNDER_AT, first, second);
    Rc4.MaskedParts(s, CONFOUNDER_AT, first + second);
    var all := Rc4.Masked(s, CONFOUNDER_AT, first + second);
    assert s[CONFOUNDER_AT..CONFOUNDER_AT + |first + second|] == s[CONFOUNDER_AT..];
    assert all == all[..CONFOUNDER_AT] + all[CONFOUNDER_AT..SECTION_SIZE] + all[SECTION_SIZE..];
  }

  /** In two arrays: the confounder in its own, the data in the section. */
  lemma MaskedApart(env: Env, checksum: Digest, s: Section)
    ensures var first := ConfounderMask(env, checksum);
            var second := DataMask(env, checksum);
            && Rc4.Masked(s[CONFOUNDER_AT..DATA_AT], 0, first) + Rc4.Masked(s, DATA_AT, second)[DATA_AT..]
               == Xor(s[CONFOUNDER_AT..], Mask(env, checksum))
            && Rc4.Masked(s, DATA_AT, second)[..DATA_AT] == s[..DATA_AT]
  {
    hide ConfounderMask, DataMask, Rc4.Masked, Xor, Mask;
    var first := ConfounderMask(env, checksum);
    var second := DataMask(env, checksum);
    MaskInTwoCalls(env, checksum);
    var c, d := s[CONFOUNDER_AT..DATA_AT], s[DATA_AT..];
    Rc4.MaskedFromStart(c, first);
    assert c[..CONFOUNDER_LEN] == c && c[CONFOUNDER_LEN..] == [];
    Rc4.MaskedParts(s, DATA_AT, second);
    assert s[DATA_AT..SECTION_SIZE] == d;
    assert s[CONFOUNDER_AT..] == c + d;
    XorConcat(c, d, first, second);
  }

  /** An RC4 structure keyed with the HMAC of the section's checksum. */
  method KeyFromChecksum(ghost env: Env, sha: Hash, eepromKey: array<byte>, section: array<byte>)
    returns (rc4: Rc4.KeyStruct)
    requires eepromKey.Length == KEY_LENGTH && section.Length == SECTION_SIZE
    requires env == Env(sha, eepromKey[..])
    ensures fresh(rc4) && fresh(rc4.S) && rc4.Valid()
    ensures rc4.Value() == KeyedState(env, section[..CONFOUNDER_AT])
  {
    hide Rc4.KeyState, Mac;
    var localKey := new byte[DIGEST_SIZE];
    assert eepromKey[..KEY_LENGTH] == eepromKey[..];
    assert section[0..0 + CONFOUNDER_AT] + [] == section[..CONFOUNDER_AT];
    ghost var mac := Mac(sha, eepromKey[..], section[..CONFOUNDER_AT]);
    XcHMAC(sha, eepromKey, KEY_LENGTH, section, 0, DIGEST_SIZE, null, 0, 0, localKey, 0);
    assert localKey[..DIGEST_SIZE] == mac;
    rc4 := new Rc4.KeyStruct();
    rc4.SetKey(DIGEST_SIZE, localKey);
  }

  /** The masking half of decryption: the data in place, the confounder in an array of its own. */
  method Unmask(ghost env: Env, sha: Hash, eepromKey: array<byte>, settings: array<byte>)
    returns (confounder: array<byte>)
    requires eepromKey.Length == KEY_LENGTH && settings.Length == SECTION_SIZE && eepromKey != settings
    requires env == Env(sha, eepromKey[..])
    modifies settings
    ensures fresh(confounder) && confounder.Length == CONFOUNDER_LEN
    ensures settings[..DATA_AT] == old(settings[..DATA_AT])
    ensures confounder[..] + settings[DATA_AT..] == Unmasked(env, old(settings[..]))
  {
    hide Rc4.KeyStream, Rc4.KeyState, Rc4.After, Mask, Mac, Rc4.Masked, Xor;
    ghost var s: Section := settings[..];
    confounder := new byte[CONFOUNDER_LEN];
    Store(confounder, 0, settings[CONFOUNDER_AT..DATA_AT]);
    assert confounder[..] == s[CONFOUNDER_AT..DATA_AT];
    var rc4 := KeyFromChecksum(env, sha, eepromKey, settings);
    MaskedApart(env, s[..CONFOUNDER_AT], s);
    rc4.CryptBytes(CONFOUNDER_LEN, confounder, 0);
    rc4.CryptBytes(DATA_LEN, settings, DATA_AT);
  }

  /** The decryption that boot and recovery share, on a copy of the section. */
  method DecryptSettings(ghost env: Env, sha: Hash, eepromKey: array<byte>, settings: array<byte>)
    returns (ok: bool)
    requires eepromKey.Length == KEY_LENGTH && settings.Length == SECTION_SIZE && eepromKey != settings
    requires env == Env(sha, eepromKey[..])
    modifies settings
    ensures match Read(env, old(settings[..]))
            case Readable(data) => ok && settings[DATA_AT..] == data
            case ChecksumMismatch => !ok
  {
    hide Mask, Mac, Xor;
    ghost var s: Section := settings[..];
    assert s[CONFOUNDER_AT..DATA_AT] == settings[CONFOUNDER_AT..DATA_AT];
    if settings[CONFOUNDER_AT..DATA_AT] == Zeros(CONFOUNDER_LEN) {
      return true;
    }
    ghost var plain := Unmasked(env, s);
    var confounder := Unmask(env, sha, eepromKey, settings);
    assert settings[DATA_AT..] == plain[CONFOUNDER_LEN..];
    var checksum := new byte[DIGEST_SIZE];
    assert confounder[0..0 + CONFOUNDER_LEN] + settings[DATA_AT..DATA_AT + DATA_LEN] == plain by {
      assert confounder[0..CONFOUNDER_LEN] == confounder[..];
      assert settings[DATA_AT..DATA_AT + DATA_LEN] == settings[DATA_AT..];
    }
    assert eepromKey[..KEY_LENGTH] == env.key;
    XcHMAC(sha, eepromKey, KEY_LENGTH, confounder, 0, CONFOUNDER_LEN, settings, DATA_AT, DATA_LEN, checksum, 0);
    assert checksum[..] == Mac(sha, env.key, plain);
    assert settings[..CONFOUNDER_AT] == s[..CONFOUNDER_AT] by {
      assert settings[..CONFOUNDER_AT] == settings[..DATA_AT][..CONFOUNDER_AT];
    }
    ok := checksum[..] == settings[..CONFOUNDER_AT];
  }

  /** DecryptEEPROMEncryptedSection: on a mismatch the section stays as it was. */
  method DecryptSection(ghost env: Env, sha: Hash, eepromKey: array<byte>, section: array<byte>)
    returns (ok: bool)
    requires eepromKey.Length == KEY_LENGTH && section.Length == SECTION_SIZE && eepromKey != section
    requires env == Env(sha, eepromKey[..])
    modifies section
    ensures ok == Read(env, old(section[..])).Readable?
    ensures section[..] == if ok && !IsUnencrypted(old(section[..]))
                           then Zeros(DATA_AT) + Read(env, old(section[..])).data else old(section[..])
  {
    hide Read;
    ghost var s: Section := section[..];
    ReadUnencrypted(env, s);
    assert s[CONFOUNDER_AT..DATA_AT] == section[CONFOUNDER_AT..DATA_AT];
    if section[CONFOUNDER_AT..DATA_AT] == Zeros(CONFOUNDER_LEN) {
      return true;
    }
    var copy := new byte[SECTION_SIZE];
    Store(copy, 0, section[..]);
    assert copy[..] == s;
    ok := DecryptSettings(env, sha, eepromKey, copy);
    if ok {
      Store(section, 0, Zeros(DATA_AT) + copy[DATA_AT..]);
    }
  }

  /** The section before and after the checksum is written into it. */
  lemma SealingParts(was: Section, confounder: Confounder, checksum: Digest)
    ensures var filled := Stored(Stored(was, 0, Zeros(DIGEST_SIZE)), CONFOUNDER_AT, confounder);
            && filled[CONFOUNDER_AT..DATA_AT] == confounder && filled[DATA_AT..] == was[DATA_AT..]
            && Stored(filled, 0, checksum)[..CONFOUNDER_AT] == checksum
            && Stored(filled, 0, checksum)[CONFOUNDER_AT..] == confounder + was[DATA_AT..]
  {
  }

  /** EncryptEEPROMEncryptedSection, in place. */
  method EncryptSection(ghost env: Env, sha: Hash, eepromKey: array<byte>, confounder: Confounder,
                        section: array<byte>)
    requires eepromKey.Length == KEY_LENGTH && section.Length == SECTION_SIZE && eepromKey != section
    requires env == Env(sha, eepromKey[..])
    modifies section
    ensures section[..] == if IsUnencrypted(old(section[..])) then Sealed(env, confounder, old(section[DATA_AT..]))
                           else old(section[..])
  {
    hide Rc4.KeyStream, Rc4.KeyState, Mask, Mac, Rc4.Masked, Xor, Stored;
    ghost var was: Section := section[..];
    if section[CONFOUNDER_AT..DATA_AT] != Zeros(CONFOUNDER_LEN) {
      return;
    }
    ghost var plain := confounder + was[DATA_AT..];
    ghost var checksum := Mac(sha, env.key, plain);
    Store(section, 0, Zeros(DIGEST_SIZE));
    Store(section, CONFOUNDER_AT, confounder);
    SealingParts(was, confounder, checksum);
    assert section[CONFOUNDER_AT..CONFOUNDER_AT + CONFOUNDER_LEN] == section[..][CONFOUNDER_AT..DATA_AT];
    assert section[DATA_AT..DATA_AT + DATA_LEN] == section[..][DATA_AT..];
    assert eepromKey[..KEY_LENGTH] == env.key;
    XcHMAC(sha, eepromKey, KEY_LENGTH, section, CONFOUNDER_AT, CONFOUNDER_LEN, section, DATA_AT, DATA_LEN, section, 0);
    ghost var signed: Section := section[..];
    var rc4 := KeyFromChecksum(env, sha, eepromKey, section);
    assert section[..CONFOUNDER_AT] == checksum;
    MaskedInPlace(env, checksum, signed);
    rc4.CryptBytes(CONFOUNDER_LEN, section, CONFOUNDER_AT);
    rc4.CryptBytes(DATA_LEN, section, DATA_AT);
  }

  /** ExpDecryptEEPROM, from the section as read out of the EEPROM. */
  method BootDecrypt(ghost env: Env, sha: Hash, eepromKey: array<byte>, settings: array<byte>)
    returns (r: BootResult)
    requires eepromKey.Length == KEY_LENGTH && settings.Length == SECTION_SIZE && eepromKey != settings
    requires env == Env(sha, eepromKey[..])
    modifies settings
    ensures r == Boot(env, old(settings[..]))
  {
    hide Read, And, ToDword;
    ghost var s: Section := settings[..];
    var ok := DecryptSettings(env, sha, eepromKey, settings);
    if !ok {
      return BadChecksum;
    }
    ghost var data := Read(env, s).data;
    assert settings[DATA_AT..] == data;
    var hdKey := settings[DATA_AT..REGION_AT];
    assert hdKey == data[..KEY_LENGTH] && settings[REGION_AT..] == data[KEY_LENGTH..] by {
      assert settings[DATA_AT..REGION_AT] == settings[DATA_AT..][..KEY_LENGTH];
      assert settings[REGION_AT..] == settings[DATA_AT..][KEY_LENGTH..];
    }
    var region := ToDword(settings[REGION_AT..]);
    if region == 0 {
      region := GAME_REGION_MANUFACTURING + GAME_REGION_NA;
    }
    if RegionAccepted(region) {
      r := Booted(hdKey, region);
    } else {
      r := RegionViolation(hdKey, region);
    }
  }

  /** PrepareEEPROM's work on the section: open or clear it, clean the region, seal it again. */
  method PrepareSection(ghost env: Env, sha: Hash, eepromKey: array<byte>, confounder: Confounder,
                        section: array<byte>)
    requires eepromKey.Length == KEY_LENGTH && section.Length == SECTION_SIZE && eepromKey != section
    requires env == Env(sha, eepromKey[..])
    modifies section
    ensures section[..] == Prepared(env, confounder, old(section[..]))
  {
    hide Read, And, ToDword, ToBytes, Sealed, CleanRegion;
    ghost var s: Section := section[..];
    ReadUnencrypted(env, s);
    var ok := DecryptSection(env, sha, eepromKey, section);
    if !ok {
      Store(section, 0, Zeros(SECTION_SIZE));
    }
    SalvagedSection(env, s, section[..], ok);
    ghost var data := Salvaged(env, s);
    ghost var plain: Section := section[..];
    assert section[REGION_AT..] == data[KEY_LENGTH..] by {
      assert plain[REGION_AT..] == plain[DATA_AT..][KEY_LENGTH..];
    }
    Store(section, REGION_AT, ToBytes(CleanRegion(ToDword(section[REGION_AT..]))));
    CleanedInPlace(plain, data, section[..]);
    EncryptSection(env, sha, eepromKey, confounder, section);
  }

  lemma SalvagedSection(env: Env, s: Section, now: Section, ok: bool)
    requires ok == Read(env, s).Readable?
    requires now == if !ok then Zeros(SECTION_SIZE)
                    else if !IsUnencrypted(s) then Zeros(DATA_AT) + Read(env, s).data else s
    ensures IsUnencrypted(now) && now[DATA_AT..] == Salvaged(env, s)
  {
    hide Unmasked, Mac;
    if !IsUnencrypted(s) {
      assert now[..DATA_AT] == Zeros(DATA_AT);
      assert now[CONFOUNDER_AT..DATA_AT] == Zeros(CONFOUNDER_LEN);
    }
  }

  lemma CleanedInPlace(plain: Section, data: Data, s: Section)
    requires plain[CONFOUNDER_AT..DATA_AT] == Zeros(CONFOUNDER_LEN) && plain[DATA_AT..] == data
    requires s == Stored(plain, REGION_AT, ToBytes(CleanRegion(ToDword(data[KEY_LENGTH..]))))
    ensures IsUnencrypted(s) && s[DATA_AT..] == WithCleanRegion(data)
  {
    hide ToBytes, ToDword, CleanRegion;
    assert s[..REGION_AT] == plain[..REGION_AT];
    assert s[CONFOUNDER_AT..DATA_AT] == s[..REGION_AT][CONFOUNDER_AT..DATA_AT];
    assert plain[CONFOUNDER_AT..DATA_AT] == plain[..REGION_AT][CONFOUNDER_AT..DATA_AT];
    assert s[DATA_AT..REGION_AT] == s[..REGION_AT][DATA_AT..];
    assert data[..KEY_LENGTH] == plain[..REGION_AT][DATA_AT..];
  }
}
