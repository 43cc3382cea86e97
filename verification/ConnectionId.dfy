/** src/common/cid.h: a connection id packs a magic number, a listen port and a slot index. */
module ConnectionId {
  import opened Words

  const InvalidConnectionId: nat := LONG - 1

  // The id as a number; PackedValue says that this is what the shifts below compute.
  function BuildConnectionId(magic: nat, port: nat, uid: nat): nat {
    (magic * HALF + port) * WORD + uid
  }

  function GetMagicNumber(cid: nat): nat {
    cid / WORD / HALF
  }

  function GetListenPort(cid: nat): nat {
    cid / WORD % HALF
  }

  function GetUserId(cid: nat): nat {
    cid % WORD
  }

  /** Packing and unpacking are inverse, both ways, on fields of the right width. */
  lemma RoundTrip(magic: nat, port: nat, uid: nat)
    requires magic < HALF && port < HALF && uid < WORD
    ensures var cid := BuildConnectionId(magic, port, uid);
            && cid < LONG
            && GetMagicNumber(cid) == magic && GetListenPort(cid) == port && GetUserId(cid) == uid
            && (cid == InvalidConnectionId <==> magic == HALF - 1 && port == HALF - 1 && uid == WORD - 1)
  {
    var n := magic * HALF + port;
    assert (n * WORD + uid) / WORD == n && (n * WORD + uid) % WORD == uid;
    assert n / HALF == magic && n % HALF == port;
  }

  lemma Rebuild(cid: nat)
    requires cid < LONG
    ensures GetMagicNumber(cid) < HALF && GetListenPort(cid) < HALF && GetUserId(cid) < WORD
    ensures BuildConnectionId(GetMagicNumber(cid), GetListenPort(cid), GetUserId(cid)) == cid
  {
  }

  // -------------------------------------------------------------------------
  // The same in machine words

  function BuildWord(magic: bv16, port: bv16, uid: bv32): bv64 {
    var n: bv32 := ((magic as bv32) << 16) | (port as bv32);
    ((n as bv64) << 32) | (uid as bv64)
  }

  function MagicField(w: bv64): bv16 {
    var n := (w >> 32) as bv32;
    (n >> 16) as bv16
  }

  function PortField(w: bv64): bv16 {
    var n := (w >> 32) as bv32;
    (n & 0xffff) as bv16
  }

  function UserField(w: bv64): bv32 {
    (w & 0xffff_ffff) as bv32
  }

  lemma WordRoundTrip(magic: bv16, port: bv16, uid: bv32)
    ensures var w := BuildWord(magic, port, uid);
            MagicField(w) == magic && PortField(w) == port && UserField(w) == uid
  {
  }

  lemma WordRebuild(w: bv64)
    ensures BuildWord(MagicField(w), PortField(w), UserField(w)) == w
  {
  }

  /** Where the fields stand: the magic number in the 16 highest bits, then the port, then the
      slot in the 32 lowest. */
  lemma FieldPlaces(magic: bv16, port: bv16, uid: bv32)
    ensures BuildWord(magic, 0, 0) == (magic as bv64) << 48
    ensures BuildWord(0, port, 0) == (port as bv64) << 32
    ensures BuildWord(0, 0, uid) == uid as bv64
    ensures BuildWord(magic, port, uid) == BuildWord(magic, 0, 0) | BuildWord(0, port, 0) | BuildWord(0, 0, uid)
  {
  }

  function Byte(w: bv64): (b: nat)
    ensures b < 0x100
  {
    (w & 0xff) as nat
  }

  // The number a word stands for, byte by byte.
  function Value(w: bv64): nat
    decreases w
  {
    if w == 0 then 0 else 0x100 * Value(w >> 8) + Byte(w)
  }

  lemma LastByte(w: bv64)
    ensures Value(w) == 0x100 * Value(w >> 8) + Byte(w)
  {
  }

  lemma LastTwoBytes(w: bv64)
    ensures Value(w) == HALF * Value(w >> 16) + 0x100 * Byte(w >> 8) + Byte(w)
  {
    LastByte(w);
    LastByte(w >> 8);
    assert (w >> 8) >> 8 == w >> 16;
  }

  lemma ShortValue(lo: bv64)
    requires lo <= 0xffff
    ensures Value(lo) == 0x100 * Byte(lo >> 8) + Byte(lo) < HALF
  {
    LastTwoBytes(lo);
    assert lo >> 16 == 0;
  }

  lemma JoinedBits(hi: bv64, lo: bv64)
    requires hi <= 0xffff_ffff_ffff && lo <= 0xffff
    ensures ((hi << 16) | lo) >> 16 == hi
    ensures (((hi << 16) | lo) >> 8) & 0xff == (lo >> 8) & 0xff
    ensures ((hi << 16) | lo) & 0xff == lo & 0xff
  {
  }

  lemma JoinedParts(w: bv64, hi: bv64, lo: bv64)
    requires w >> 16 == hi && (w >> 8) & 0xff == (lo >> 8) & 0xff && w & 0xff == lo & 0xff
    ensures Value(w) == HALF * Value(hi) + 0x100 * Byte(lo >> 8) + Byte(lo)
  {
    LastTwoBytes(w);
  }

  // 32 bits are twice 16.
  lemma TwoHalves(lo: bv64, a: bv64, b: bv64)
    requires a == lo >> 16 && b == lo & 0xffff && lo <= 0xffff_ffff
    ensures a <= 0xffff && b <= 0xffff
    ensures (a << 16) | b == lo
  {
    assert ((lo >> 16) << 16) | (lo & 0xffff) == lo;
  }

  // Or-ing a field into the bits a shift has cleared adds it to a multiple of 2^16.
  lemma ValueOfHalves(hi: bv64, lo: bv64)
    requires hi <= 0xffff_ffff_ffff && lo <= 0xffff
    ensures Value((hi << 16) | lo) == HALF * Value(hi) + Value(lo)
  {
    JoinedBits(hi, lo);
    JoinedParts((hi << 16) | lo, hi, lo);
    ShortValue(lo);
  }

  lemma JoinTwice(hi: bv64, a: bv64, b: bv64)
    ensures (((hi << 16) | a) << 16) | b == (hi << 32) | ((a << 16) | b)
  {
  }

  lemma JoinFits(hi: bv64, a: bv64)
    requires a <= 0xffff && hi <= 0xffff_ffff
    ensures (hi << 16) | a <= 0xffff_ffff_ffff
  {
  }

  lemma WordBound(a: bv64, b: bv64)
    requires a <= 0xffff && b <= 0xffff
    ensures Value((a << 16) | b) == HALF * Value(a) + Value(b) < WORD
  {
    ValueOfHalves(a, b);
    ShortValue(a);
    ShortValue(b);
  }

  lemma ValueOfThree(hi: bv64, a: bv64, b: bv64)
    requires hi <= 0xffff_ffff && a <= 0xffff && b <= 0xffff
    ensures Value((((hi << 16) | a) << 16) | b) == WORD * Value(hi) + HALF * Value(a) + Value(b)
  {
    JoinFits(hi, a);
    ValueOfHalves((hi << 16) | a, b);
    ValueOfHalves(hi, a);
  }

  lemma ValueOfParts(hi: bv64, a: bv64, b: bv64, lo: bv64)
    requires hi <= 0xffff_ffff && a <= 0xffff && b <= 0xffff && (a << 16) | b == lo
    ensures Value((hi << 32) | lo) == WORD * Value(hi) + Value(lo)
    ensures Value(lo) < WORD
  {
    JoinTwice(hi, a, b);
    ValueOfThree(hi, a, b);
    WordBound(a, b);
  }

  lemma ValueOfWords(hi: bv64, lo: bv64)
    requires hi <= 0xffff_ffff && lo <= 0xffff_ffff
    ensures Value((hi << 32) | lo) == WORD * Value(hi) + Value(lo)
    ensures Value(lo) < WORD
  {
    TwoHalves(lo, lo >> 16, lo & 0xffff);
    ValueOfParts(hi, lo >> 16, lo & 0xffff, lo);
  }

  lemma Widened(magic: bv16, port: bv16, uid: bv32, m: bv64, p: bv64, u: bv64)
    requires m == magic as bv64 && p == port as bv64 && u == uid as bv64
    ensures m <= 0xffff && p <= 0xffff && u <= 0xffff_ffff && (m << 16) | p <= 0xffff_ffff
    ensures BuildWord(magic, port, uid) == (((m << 16) | p) << 32) | u
  {
  }

  lemma JoinedValue(m: bv64, p: bv64, u: bv64)
    requires m <= 0xffff && p <= 0xffff && u <= 0xffff_ffff && (m << 16) | p <= 0xffff_ffff
    ensures Value((((m << 16) | p) << 32) | u) == BuildConnectionId(Value(m), Value(p), Value(u))
    ensures Value(m) < HALF && Value(p) < HALF && Value(u) < WORD
  {
    ValueOfHalves(m, p);
    ValueOfWords((m << 16) | p, u);
    ShortValue(m);
    ShortValue(p);
  }

  /** The shifted and or-ed word stands for the number BuildConnectionId computes from its fields. */
  lemma PackedValue(magic: bv16, port: bv16, uid: bv32)
    ensures Value(BuildWord(magic, port, uid))
            == BuildConnectionId(Value(magic as bv64), Value(port as bv64), Value(uid as bv64))
    ensures Value(magic as bv64) < HALF && Value(port as bv64) < HALF && Value(uid as bv64) < WORD
  {
    var m, p, u := magic as bv64, port as bv64, uid as bv64;
    Widened(magic, port, uid, m, p, u);
    JoinedValue(m, p, u);
  }

  /** What the shifts and masks extract from a word is what GetMagicNumber, GetListenPort and
      GetUserId extract from its number. */
  lemma FieldValues(w: bv64)
    ensures Value(w) < LONG
    ensures Value(MagicField(w) as bv64) == GetMagicNumber(Value(w))
    ensures Value(PortField(w) as bv64) == GetListenPort(Value(w))
    ensures Value(UserField(w) as bv64) == GetUserId(Value(w))
  {
    var magic, port, uid := MagicField(w), PortField(w), UserField(w);
    WordRebuild(w);
    PackedValue(magic, port, uid);
    RoundTrip(Value(magic as bv64), Value(port as bv64), Value(uid as bv64));
  }
}
