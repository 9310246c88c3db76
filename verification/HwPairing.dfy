/** Pairing credentials derived from the hardware device ID by seeded FNV-1a hashes. */
module HwPairing {

  /** The discriminator, the passcode and the four salt words use this seed and its five successors. */
  const SEED: bv32 := 0xD15C0001
  const KEYS := 6

  // ---------- the hash ----------

  function TimesPrime(h: bv32): bv32 {
    h * 16777619
  }

  /** Multiplication by the inverse of the prime modulo 2^32. */
  function TimesInverse(h: bv32): bv32 {
    h * 0x359C449B
  }

  lemma Products(h: bv32)
    ensures TimesPrime(h) == h * 16777619 && TimesInverse(h) == h * 0x359C449B
  {
  }

  lemma ProductsCancel(h: bv32)
    ensures TimesInverse(h * 16777619) == h && TimesPrime(h * 0x359C449B) == h
  {
  }

  lemma TimesInverts(h: bv32)
    ensures TimesInverse(TimesPrime(h)) == h && TimesPrime(TimesInverse(h)) == h
  {
    hide TimesPrime, TimesInverse;
    Products(h);
    ProductsCancel(h);
  }

  function Mix(h: bv32, d: bv8): bv32 {
    h ^ (d as bv32)
  }

  lemma MixInverts(h: bv32, d: bv8)
    ensures Mix(Mix(h, d), d) == h
  {
  }

  function HashStep(h: bv32, d: bv8): bv32 {
    TimesPrime(Mix(h, d))
  }

  function UnhashStep(h: bv32, d: bv8): bv32 {
    Mix(TimesInverse(h), d)
  }

  lemma StepInverts(h: bv32, d: bv8)
    ensures UnhashStep(HashStep(h, d), d) == h
    ensures HashStep(UnhashStep(h, d), d) == h
  {
    hide TimesPrime, TimesInverse, Mix;
    TimesInverts(Mix(h, d));
    MixInverts(h, d);
    MixInverts(TimesInverse(h), d);
    TimesInverts(h);
  }

  function Hash(data: seq<bv8>, seed: bv32): bv32 {
    if data == [] then seed else HashStep(Hash(data[..|data| - 1], seed), data[|data| - 1])
  }

  /** The seed that leads to a given hash. */
  function Unhash(data: seq<bv8>, h: bv32): bv32 {
    if data == [] then h else Unhash(data[..|data| - 1], UnhashStep(h, data[|data| - 1]))
  }

  /** For every byte string, hashing is a bijection between seeds and hashes. */
  lemma {:induction false} SeedBijection(data: seq<bv8>, seed: bv32)
    ensures Unhash(data, Hash(data, seed)) == seed
    ensures Hash(data, Unhash(data, seed)) == seed
    decreases |data|
  {
    hide HashStep, UnhashStep;
    if data != [] {
      var front, last := data[..|data| - 1], data[|data| - 1];
      SeedBijection(front, seed);
      StepInverts(Hash(front, seed), last);
      SeedBijection(front, UnhashStep(seed, last));
      StepInverts(seed, last);
    }
  }

  lemma SeedInjective(data: seq<bv8>, s: bv32, t: bv32)
    requires s != t
    ensures Hash(data, s) != Hash(data, t)
  {
    hide Hash, Unhash;
    SeedBijection(data, s);
    SeedBijection(data, t);
  }

  lemma MixSeparates(h: bv32, a: bv8, b: bv8)
    requires a != b
    ensures Mix(h, a) != Mix(h, b)
  {
  }

  lemma StepSeparates(h: bv32, a: bv8, b: bv8)
    requires a != b
    ensures HashStep(h, a) != HashStep(h, b)
  {
    hide TimesPrime, TimesInverse, Mix;
    MixSeparates(h, a, b);
    TimesInverts(Mix(h, a));
    TimesInverts(Mix(h, b));
  }

  lemma {:induction false} HashConcat(a: seq<bv8>, b: seq<bv8>, seed: bv32)
    ensures Hash(a + b, seed) == Hash(b, Hash(a, seed))
    decreases |b|
  {
    hide HashStep;
    if b == [] {
      assert a + b == a;
    } else {
      HashConcat(a, b[..|b| - 1], seed);
      assert (a + b)[..|a + b| - 1] == a + b[..|b| - 1];
    }
  }

  /** Two byte strings that differ in exactly one place have different hashes under every seed. */
  lemma OneByteSeparates(data: seq<bv8>, k: nat, b: bv8, seed: bv32)
    requires k < |data| && b != data[k]
    ensures Hash(data[k := b], seed) != Hash(data, seed)
  {
    hide HashStep;
    var front, rest := data[..k], data[k + 1..];
    assert data == front + [data[k]] + rest && data[k := b] == front + [b] + rest;
    HashConcat(front + [data[k]], rest, seed);
    HashConcat(front + [b], rest, seed);
    assert (front + [data[k]])[..k] == front && (front + [b])[..k] == front;
    StepSeparates(Hash(front, seed), data[k], b);
    SeedInjective(rest, Hash(front + [data[k]], seed), Hash(front + [b], seed));
  }

  method Fnv1a32(data: array<bv8>, len: nat, seed: bv32) returns (h: bv32)
    requires len <= data.Length
    ensures h == Hash(data[..len], seed)
  {
    hide TimesPrime, Mix;
    h := seed;
    for i := 0 to len
      invariant h == Hash(data[..i], seed)
    {
      assert data[..i + 1][..i] == data[..i];
      h := Mix(h, data[i]);
      h := TimesPrime(h);
    }
  }

  /** Published values of the 32-bit FNV-1a hash, which starts from the basis 2166136261: of nothing, of "a" and of
      "foobar". */
  lemma KnownHashes()
    ensures Hash([], 2166136261) == 0x811C9DC5
    ensures Hash([0x61], 2166136261) == 0xE40C292C
    ensures Hash([0x66, 0x6F, 0x6F, 0x62, 0x61, 0x72], 2166136261) == 0xBF9CF968
  {
    hide HashStep, Hash;
    HashOfNothing(2166136261);
    HashOfMore([], 0x61, 2166136261);
    assert [] + [0x61 as bv8] == [0x61];
    KnownSteps();
    HashOfMore([], 0x66, 2166136261);
    HashOfMore([0x66], 0x6F, 2166136261);
    HashOfMore([0x66, 0x6F], 0x6F, 2166136261);
    HashOfMore([0x66, 0x6F, 0x6F], 0x62, 2166136261);
    HashOfMore([0x66, 0x6F, 0x6F, 0x62], 0x61, 2166136261);
    HashOfMore([0x66, 0x6F, 0x6F, 0x62, 0x61], 0x72, 2166136261);
    assert [] + [0x66 as bv8] == [0x66];
    assert [0x66] + [0x6F as bv8] == [0x66, 0x6F];
    assert [0x66, 0x6F] + [0x6F as bv8] == [0x66, 0x6F, 0x6F];
    assert [0x66, 0x6F, 0x6F] + [0x62 as bv8] == [0x66, 0x6F, 0x6F, 0x62];
    assert [0x66, 0x6F, 0x6F, 0x62] + [0x61 as bv8] == [0x66, 0x6F, 0x6F, 0x62, 0x61];
    assert [0x66, 0x6F, 0x6F, 0x62, 0x61] + [0x72 as bv8] == [0x66, 0x6F, 0x6F, 0x62, 0x61, 0x72];
  }

  lemma KnownSteps()
    ensures HashStep(0x811C9DC5, 0x61) == 0xE40C292C && HashStep(0x811C9DC5, 0x66) == 0xE30C2799
    ensures HashStep(0xE30C2799, 0x6F) == 0x6222E842 && HashStep(0x6222E842, 0x6F) == 0xA9F37ED7
    ensures HashStep(0xA9F37ED7, 0x62) == 0x3F5076EF && HashStep(0x3F5076EF, 0x61) == 0x39AAA18A
    ensures HashStep(0x39AAA18A, 0x72) == 0xBF9CF968
  {
  }

  lemma HashOfNothing(seed: bv32)
    ensures Hash([], seed) == seed
  {
  }

  lemma HashOfMore(data: seq<bv8>, d: bv8, seed: bv32)
    ensures Hash(data + [d], seed) == HashStep(Hash(data, seed), d)
  {
    hide HashStep;
    assert (data + [d])[..|data|] == data;
  }

  // ---------- the six keys of a device ----------

  function SeedOf(k: nat): bv32
    requires k < KEYS
  {
    match k
    case 0 => SEED
    case 1 => SEED + 1
    case 2 => SEED + 2
    case 3 => SEED + 3
    case 4 => SEED + 4
    case _ => SEED + 5
  }

  /** The six seeds. */
  lemma SeedsAre()
    ensures SeedOf(0) == 0xD15C0001 && SeedOf(1) == 0xD15C0002 && SeedOf(2) == 0xD15C0003
    ensures SeedOf(3) == 0xD15C0004 && SeedOf(4) == 0xD15C0005 && SeedOf(5) == 0xD15C0006
  {
  }

  function Key(id: seq<bv8>, k: nat): bv32
    requires k < KEYS
  {
    Hash(id, SeedOf(k))
  }

  /** Domain separation: the six hashes of one device are pairwise different, whatever its ID. */
  lemma KeysDiffer(id: seq<bv8>, j: nat, k: nat)
    requires j < k < KEYS
    ensures Key(id, j) != Key(id, k)
  {
    SeedsDiffer(j, k);
    SeedInjective(id, SeedOf(j), SeedOf(k));
  }

  lemma SeedsDiffer(j: nat, k: nat)
    requires j < k < KEYS
    ensures SeedOf(j) != SeedOf(k)
  {
  }

  // ---------- words in memory ----------

  /** A word as it lies in memory, lowest byte first. */
  function WordBytes(w: bv32): (bytes: seq<bv8>)
    ensures |bytes| == 4
  {
    [(w & 0xFF) as bv8, ((w >> 8) & 0xFF) as bv8, ((w >> 16) & 0xFF) as bv8, ((w >> 24) & 0xFF) as bv8]
  }

  function BytesWord(bytes: seq<bv8>): bv32
    requires |bytes| == 4
  {
    (bytes[0] as bv32) | ((bytes[1] as bv32) << 8) | ((bytes[2] as bv32) << 16) | ((bytes[3] as bv32) << 24)
  }

  lemma WordRoundTrip(w: bv32)
    ensures BytesWord(WordBytes(w)) == w
  {
  }

  /** The bytes of a word are its digits to base 256, the lowest first. */
  lemma WordDigits(w: bv32)
    ensures var b := WordBytes(w);
            w == (b[0] as bv32) + 0x100 * (b[1] as bv32) + 0x10000 * (b[2] as bv32) + 0x1000000 * (b[3] as bv32)
  {
  }

  function DeviceBytes(id0: bv32, id1: bv32): seq<bv8> {
    WordBytes(id0) + WordBytes(id1)
  }

  // ---------- the passcode ----------

  const MAX_PASSCODE := 99999998

  /** The passcodes that are not allowed. */
  predicate Forbidden(code: nat) {
    code == 0 || code == 12345678 || code == 87654321 || (code % 11111111 == 0 && 1 <= code / 11111111 <= 9)
  }

  /** Maps a hash to a passcode that is allowed: bumped by one if it hits a forbidden one. */
  function MakePasscode(h: nat): (code: nat)
    ensures 1 <= code <= MAX_PASSCODE && !Forbidden(code)
  {
    var code := h % MAX_PASSCODE + 1;
    if Forbidden(code) then code % MAX_PASSCODE + 1 else code
  }

  /** The list of forbidden passcodes. */
  predicate IsForbidden(code: int) {
    code in {00000000, 11111111, 22222222, 33333333, 44444444, 55555555, 66666666, 77777777, 88888888, 99999999,
             12345678, 87654321}
  }

  lemma ForbiddenAre(code: nat)
    ensures Forbidden(code) <==> IsForbidden(code)
  {
    if code % 11111111 == 0 && 1 <= code / 11111111 <= 9 {
      assert code == 11111111 * (code / 11111111);
    }
  }

  /** Which hashes lead to a passcode: for an allowed one those of its own residue, and those of the residue below if
      that belongs to a forbidden passcode; for a forbidden one none. */
  lemma PasscodeExactlyWhen(h: nat, code: nat)
    ensures MakePasscode(h) == code <==>
            !IsForbidden(code) &&
              (h % 99999998 == code - 1 || (h % 99999998 == code - 2 && IsForbidden(code - 1)))
  {
    hide Forbidden, IsForbidden;
    var first := h % 99999998 + 1;
    ForbiddenAre(first);
    ForbiddenAre(code);
    if IsForbidden(first) {
      NotAdjacent(first);
    }
    if code > 0 {
      ForbiddenAre(code - 1);
    }
  }

  lemma NotAdjacent(code: nat)
    requires IsForbidden(code) && code <= 99999998
    ensures code < 99999998 && !IsForbidden(code + 1)
  {
  }

  // ---------- the provider ----------

  /** The fields of the provider that Init computes. */
  class Provider {
    var discriminator: bv32
    var passcode: nat
    const salt: array<bv8>
    var rawReady: bool

    constructor ()
      ensures !rawReady && discriminator == 0 && salt.Length == 16 && fresh(salt)
    {
      discriminator := 0;
      passcode := 0;
      salt := new bv8[16];
      rawReady := false;
    }

    /** Computes all credentials from the two words of the device ID. */
    method Init(id0: bv32, id1: bv32)
      requires salt.Length == 16
      modifies this, salt
      ensures rawReady && discriminator == Hash(DeviceBytes(id0, id1), 0xD15C0001) & 0x0FFF
      ensures passcode == MakePasscode(WordValue(Hash(DeviceBytes(id0, id1), 0xD15C0002)))
      ensures BytesWord(salt[0..4]) == Hash(DeviceBytes(id0, id1), 0xD15C0003)
      ensures BytesWord(salt[4..8]) == Hash(DeviceBytes(id0, id1), 0xD15C0004)
      ensures BytesWord(salt[8..12]) == Hash(DeviceBytes(id0, id1), 0xD15C0005)
      ensures BytesWord(salt[12..16]) == Hash(DeviceBytes(id0, id1), 0xD15C0006)
      ensures SaltWords(salt[..], DeviceBytes(id0, id1), 4)
    {
      hide Hash, BytesWord, WordBytes, WordValue, MakePasscode, Key, DeviceBytes, SaltWords, SeedOf;
      ghost var id := DeviceBytes(id0, id1);
      var raw := new bv8[8];
      StoreWord(raw, 0, id0);
      StoreWord(raw, 4, id1);
      DeviceBytesAre(raw[..], id0, id1);
      KeyIsHash(id, 0);
      KeyIsHash(id, 1);
      var hDisc := Fnv1a32(raw, 8, SeedOf(0));
      discriminator := hDisc & 0x0FFF;
      var hPass := Fnv1a32(raw, 8, SeedOf(1));
      passcode := MakePasscode(WordValue(hPass));
      FillSalt(raw, id, salt);
      SaltHashes(salt[..], id);
      SeedsAre();
      rawReady := true;
    }
  }

  /** The salt holds the first n of its four words. */
  ghost predicate SaltWords(salt: seq<bv8>, id: seq<bv8>, n: nat) {
    |salt| == 16 && n <= 4 && forall k: nat | k < n :: BytesWord(salt[4 * k..4 * k + 4]) == Key(id, 2 + k)
  }

  lemma SaltHashes(salt: seq<bv8>, id: seq<bv8>)
    requires SaltWords(salt, id, 4)
    ensures |salt| == 16
    ensures BytesWord(salt[0..4]) == Hash(id, 0xD15C0003) && BytesWord(salt[4..8]) == Hash(id, 0xD15C0004)
    ensures BytesWord(salt[8..12]) == Hash(id, 0xD15C0005) && BytesWord(salt[12..16]) == Hash(id, 0xD15C0006)
  {
    hide Hash, BytesWord, SeedOf;
    SeedsAre();
    assert BytesWord(salt[4 * 0..4 * 0 + 4]) == Key(id, 2) && BytesWord(salt[4 * 1..4 * 1 + 4]) == Key(id, 3);
    assert BytesWord(salt[4 * 2..4 * 2 + 4]) == Key(id, 4) && BytesWord(salt[4 * 3..4 * 3 + 4]) == Key(id, 5);
  }

  /** The loop over the four words of the salt. */
  method FillSalt(raw: array<bv8>, ghost id: seq<bv8>, salt: array<bv8>)
    requires raw.Length == 8 && raw[..8] == id && salt.Length == 16 && raw != salt
    modifies salt
    ensures SaltWords(salt[..], id, 4)
  {
    hide Hash, BytesWord, WordBytes, Key, SaltWords;
    NoSaltWords(salt[..], id);
    for i := 0 to 4
      invariant raw[..8] == id && SaltWords(salt[..], id, i)
    {
      KeyIsHash(id, 2 + i);
      var hs := Fnv1a32(raw, 8, SeedOf(2 + i));
      ghost var before := salt[..];
      StoreWord(salt, i * 4, hs);
      NextSaltWord(before, salt[..], id, i);
    }
  }

  lemma NoSaltWords(salt: seq<bv8>, id: seq<bv8>)
    requires |salt| == 16
    ensures SaltWords(salt, id, 0)
  {
  }

  lemma NextSaltWord(before: seq<bv8>, after: seq<bv8>, id: seq<bv8>, n: nat)
    requires n < 4 && SaltWords(before, id, n) && |after| == 16
    requires after[4 * n..4 * n + 4] == WordBytes(Key(id, 2 + n))
    requires forall k | 0 <= k < 16 && !(4 * n <= k < 4 * n + 4) :: after[k] == before[k]
    ensures SaltWords(after, id, n + 1)
  {
    hide BytesWord, WordBytes, Key;
    WordRoundTrip(Key(id, 2 + n));
    forall k: nat | k < n
      ensures BytesWord(after[4 * k..4 * k + 4]) == Key(id, 2 + k)
    {
      assert after[4 * k..4 * k + 4] == before[4 * k..4 * k + 4];
    }
  }

  lemma KeyIsHash(id: seq<bv8>, k: nat)
    requires k < KEYS
    ensures Key(id, k) == Hash(id, SeedOf(k))
  {
  }

  lemma DeviceBytesAre(raw: seq<bv8>, id0: bv32, id1: bv32)
    requires |raw| == 8 && raw[0..4] == WordBytes(id0) && raw[4..8] == WordBytes(id1)
    ensures raw[..8] == DeviceBytes(id0, id1)
  {
    hide WordBytes;
    assert raw[..8] == raw[0..4] + raw[4..8];
  }

  /** A word as a number. */
  function WordValue(w: bv32): nat {
    w as nat
  }

  /** The copy of a word into a byte array. */
  method StoreWord(a: array<bv8>, at: nat, w: bv32)
    requires at + 4 <= a.Length
    modifies a
    ensures a[at..at + 4] == WordBytes(w)
    ensures forall k | 0 <= k < a.Length && !(at <= k < at + 4) :: a[k] == old(a[k])
  {
    hide WordBytes;
    var bytes := WordBytes(w);
    for k := 0 to 4
      invariant a[at..at + k] == bytes[..k]
      invariant forall j | 0 <= j < a.Length && !(at <= j < at + k) :: a[j] == old(a[j])
    {
      a[at + k] := bytes[k];
    }
  }

  /** After Init the four words of the salt are pairwise different. */
  lemma SaltWordsDiffer(id: seq<bv8>, salt: seq<bv8>, j: nat, k: nat)
    requires SaltWords(salt, id, 4) && j < k < 4
    ensures salt[4 * j..4 * j + 4] != salt[4 * k..4 * k + 4]
  {
    hide Key, BytesWord;
    KeysDiffer(id, 2 + j, 2 + k);
    assert BytesWord(salt[4 * j..4 * j + 4]) == Key(id, 2 + j) && BytesWord(salt[4 * k..4 * k + 4]) == Key(id, 2 + k);
  }

  /** Two device IDs that differ in one byte have different keys of every kind. */
  lemma DevicesDiffer(id: seq<bv8>, k: nat, b: bv8, key: nat)
    requires k < |id| && b != id[k] && key < KEYS
    ensures Key(id[k := b], key) != Key(id, key)
  {
    OneByteSeparates(id, k, b, SeedOf(key));
  }
}
