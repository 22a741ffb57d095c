/**
 * Frame decoding of main/mode-s.c: which replies are believed. The cache of recently seen
 * addresses, recovery of an address from its parity overlay, and the acceptance rules.
 */
module ModeS {
  import opened Parity

  const CACHE_LEN: nat := 1024
  const CACHE_TTL: int := 60

  /** An (address, time) pair of the cache; both are 32-bit words in the source. */
  datatype Slot = Slot(addr: bv32, stamp: nat)

  type Cache = c: seq<Slot> | |c| == CACHE_LEN witness seq(CACHE_LEN, _ => Slot(0, 0))

  function Mix(a: bv32): bv32 {
    ((a >> 16) ^ a) * 0x45d9f3b
  }

  /** icao_cache_has_addr: masking with a power of two less one, as a remainder. */
  function Hash(a: bv32): (h: nat)
    ensures h < CACHE_LEN
  {
    var b := Mix(Mix(a));
    (((b >> 16) ^ b) as nat) % CACHE_LEN
  }

  /** Where some addresses are kept. */
  lemma HashValues()
    ensures Hash(0x4840D6) == 518 && Hash(0xAE1234) == 897 && Hash(1) == 935 && Hash(0) == 0
  {
  }

  /** The stored unsigned word read back as a signed one. */
  function Signed32(x: nat): int {
    if x >= 0x8000_0000 then x - 0x1_0000_0000 else x
  }

  function Remember(cache: Cache, addr: bv32, now: nat): Cache {
    cache[Hash(addr) := Slot(addr, now % 0x1_0000_0000)]
  }

  predicate Seen(cache: Cache, addr: bv32, now: nat) {
    var s := cache[Hash(addr)];
    s.addr != 0 && s.addr == addr && now - Signed32(s.stamp) <= CACHE_TTL
  }

  // ---------------------------------------------------------------- one frame

  type Frame = m: seq<Byte> | |m| == 14 witness seq(14, _ => 0)

  function FormatOf(b: Byte): (t: nat)
    ensures t < 32
  {
    (b >> 3) as nat
  }

  function Format(m: Frame): (t: nat)
    ensures t < 32
  {
    FormatOf(m[0])
  }

  function MsgBits(t: nat): nat {
    if t / 16 % 2 == 1 then 112 else 56
  }

  function Body(m: Frame, t: nat): (b: seq<Byte>)
    ensures IsMessage(b)
  {
    m[..MsgBits(t) / 8]
  }

  /** Formats one bit away from 17. */
  predicate NearSquitter(t: nat) {
    t == 1 || t == 16 || t == 19 || t == 21 || t == 25
  }

  function Ctz(x: Byte): (c: nat)
    ensures c <= 8
  {
    if x & 0x01 != 0 then 0 else if x & 0x02 != 0 then 1 else if x & 0x04 != 0 then 2 else if x & 0x08 != 0 then 3
    else if x & 0x10 != 0 then 4 else if x & 0x20 != 0 then 5 else if x & 0x40 != 0 then 6 else if x & 0x80 != 0 then 7
    else 8
  }

  function AsSquitter(b: Byte): Byte {
    (b & 7) | 0x88
  }

  /** The patched bit's number: counting from the other end, as the source's xor with 7 does. */
  function PatchedBit(b: Byte): int {
    7 - Ctz((b ^ AsSquitter(b)) & 0xf8)
  }

  datatype Config = Config(fixErrors: bool, aggressive: bool)

  /** The working copy of a frame after the format patch. */
  datatype Work = Work(msg: Frame, t: nat, errorbit: int)

  function Patch(cfg: Config, m: Frame): Work {
    var t := Format(m);
    var p: Frame := m[0 := AsSquitter(m[0])];
    if cfg.fixErrors && NearSquitter(t) && ValidMessage(p) then Work(p, 17, PatchedBit(m[0]))
    else Work(m, t, -1)
  }

  function Address(m: Frame): bv32 {
    Word(m[1], m[2], m[3])
  }

  /** What mode_s_decode leaves in the fields that decide acceptance. */
  datatype Outcome = Outcome(msg: Frame, t: nat, crcok: bool, errorbit: int, iid: bv32, address: bv32)

  predicate HasOwnParity(t: nat) {
    t == 11 || t == 17 || t == 18
  }

  predicate HasOverlay(t: nat) {
    t == 0 || t == 4 || t == 5 || t == 16 || t == 20 || t == 21 || t >= 24
  }

  function Repaired(m: Frame, t: nat, b: seq<Byte>): (r: Frame)
    requires |b| == MsgBits(t) / 8
  {
    b + m[|b|..]
  }

  /** A residue small enough to be an interrogator code (II or SI). */
  predicate IsCode(residue: bv32) {
    residue & 0xffff80 == 0
  }

  function Code(residue: bv32): bv32 {
    residue & 0x7f
  }

  /** The parity check of a patched frame, with the interrogator code and the bit fixers. */
  function CheckParity(cfg: Config, cache: Cache, w: Work, now: nat): Outcome {
    var body := Body(w.msg, w.t);
    var residue := Syndrome(body);
    var plain := Outcome(w.msg, w.t, false, w.errorbit, 0, Address(w.msg));
    if residue == 0 then plain.(crcok := true)
    else if w.t == 11 && IsCode(residue) then
      if Seen(cache, Address(w.msg), now) then plain.(crcok := true, iid := Code(residue)) else plain
    else if cfg.fixErrors && HasOwnParity(w.t) then Repair(cfg, plain)
    else plain
  }

  /** A frame whose check fails, with the first one or two flipped bits that make it good. */
  function Repair(cfg: Config, plain: Outcome): Outcome {
    var body := Body(plain.msg, plain.t);
    var j := FirstFix(body, 0);
    if j != -1 then
      var m := Repaired(plain.msg, plain.t, Flip(body, j));
      plain.(msg := m, crcok := true, errorbit := j, address := Address(m))
    else if cfg.aggressive && plain.t == 17 then
      match FirstPair(body, 0, 1)
      case NoPair => plain.(errorbit := -1)
      case Pair(a, b) =>
        var m := Repaired(plain.msg, plain.t, Flip(Flip(body, a), b));
        plain.(msg := m, crcok := true, errorbit := a + 256 * b, address := Address(m))
    else plain.(errorbit := -1)
  }

  /** The whole decision for one frame. */
  function Decision(cfg: Config, cache: Cache, m: Frame, now: nat): Outcome {
    var w := Patch(cfg, m);
    var o := CheckParity(cfg, cache, w, now);
    if HasOwnParity(w.t) then o
    else
      var addr := Syndrome(Body(w.msg, w.t));
      if HasOverlay(w.t) && Seen(cache, addr, now) then o.(crcok := true, address := addr)
      else o.(crcok := false)
  }

  predicate Whitelists(o: Outcome) {
    o.crcok && o.errorbit == -1 && (o.t == 11 || o.t == 17) && o.iid == 0
  }

  function NextCache(cfg: Config, cache: Cache, m: Frame, now: nat): Cache {
    var o := Decision(cfg, cache, m, now);
    if Whitelists(o) then Remember(cache, o.address, now) else cache
  }

  // ---------------------------------------------------------------- runs

  datatype Heard = Heard(msg: Frame, now: nat)

  function Run(cfg: Config, heard: seq<Heard>, n: nat): Cache
    requires n <= |heard|
  {
    if n == 0 then seq(CACHE_LEN, _ => Slot(0, 0))
    else NextCache(cfg, Run(cfg, heard, n - 1), heard[n - 1].msg, heard[n - 1].now)
  }

  /** A squitter heard with a clean, uncorrected parity field and no interrogator code. */
  predicate CleanSquitter(m: Frame) {
    (Format(m) == 11 || Format(m) == 17) && ValidMessage(Body(m, Format(m)))
  }

  lemma PatchMarksErrors(cfg: Config, m: Frame)
    ensures var w := Patch(cfg, m); w.errorbit != -1 <==> w.t != Format(m)
    ensures var w := Patch(cfg, m); w.errorbit != -1 ==> 0 <= w.errorbit < 5 && w.msg == Flip(m, w.errorbit) && w.t == 17
    ensures var w := Patch(cfg, m); w.errorbit == -1 ==> w.msg == m && w.t == Format(m)
  {
  }

  lemma SyndromeSmall(m: seq<Byte>)
    requires IsMessage(m)
    ensures Syndrome(m) < 0x1000000
  {
    hide Add, Word, Bits, Horner;
    WordSmall(m[|m| - 3], m[|m| - 2], m[|m| - 1]);
    ChecksumIsHorner(m);
    HornerSmall(Bits(m), 8 * |m| - 24);
    AddSmall(Field(m), Checksum(m));
  }

  lemma WordSmall(a: Byte, b: Byte, c: Byte)
    ensures Word(a, b, c) < 0x1000000
  {
  }

  lemma CodeNotZero(r: bv32)
    requires r < 0x1000000 && r != 0 && IsCode(r)
    ensures Code(r) != 0
  {
  }

  lemma SmallIsCode(r: bv32)
    ensures r < 0x80 ==> IsCode(r) && Code(r) == r
    ensures r < 0x1000000 && IsCode(r) ==> r < 0x80
  {
  }

  lemma CheckedClean(cfg: Config, cache: Cache, w: Work, now: nat)
    requires w.errorbit == -1
    ensures var o := CheckParity(cfg, cache, w, now);
      && o.t == w.t
      && (Whitelists(o) <==> (w.t == 11 || w.t == 17) && ValidMessage(Body(w.msg, w.t)))
      && (Whitelists(o) ==> o.address == Address(w.msg))
  {
    hide Syndrome, Seen, ValidMessage, Body, Address, IsCode, Code, FirstFix, FirstPair, Flip, Repaired;
    var body := Body(w.msg, w.t);
    SyndromeZero(body);
    if Syndrome(body) != 0 && IsCode(Syndrome(body)) {
      SyndromeSmall(body);
      CodeNotZero(Syndrome(body));
    }
  }

  lemma CheckedPatched(cfg: Config, cache: Cache, w: Work, now: nat)
    requires w.errorbit != -1 && ValidMessage(Body(w.msg, w.t))
    ensures !Whitelists(CheckParity(cfg, cache, w, now))
  {
    hide Syndrome, Seen, ValidMessage, Body, Address, IsCode, Code, FirstFix, FirstPair, Flip, Repaired;
    SyndromeZero(Body(w.msg, w.t));
  }

  /** Only clean squitters enter the cache, whatever the cache held, and under the address they carry. */
  lemma WhitelistsCleanSquitters(cfg: Config, cache: Cache, m: Frame, now: nat)
    ensures var o := Decision(cfg, cache, m, now);
      && (Whitelists(o) <==> CleanSquitter(m))
      && (Whitelists(o) ==> o.address == Address(m))
  {
    hide CheckParity, Syndrome, Seen, ValidMessage, Body, Address, Format, PatchedBit, AsSquitter, Patch;
    var w := Patch(cfg, m);
    PatchMarksErrors(cfg, m);
    if w.errorbit == -1 {
      CheckedClean(cfg, cache, w, now);
    } else {
      PatchValid(cfg, m);
      CheckedPatched(cfg, cache, w, now);
    }
  }

  lemma PatchValid(cfg: Config, m: Frame)
    ensures var w := Patch(cfg, m); w.errorbit != -1 ==> w.t == 17 && ValidMessage(Body(w.msg, w.t)) && NearSquitter(Format(m))
  {
    var w := Patch(cfg, m);
    assert w.errorbit != -1 ==> Body(w.msg, 17) == w.msg;
  }

  /** Once it has passed 2^31 s the clock is not set back; before, it may be. */
  predicate NotSetBack(heard: seq<Heard>) {
    forall i, j :: 0 <= i < j < |heard| && heard[i].now >= 0x8000_0000 ==> heard[i].now <= heard[j].now
  }

  /** Frame i put the last entry in the cache slot of addr that frame k finds there. */
  ghost predicate LastWriter(heard: seq<Heard>, i: nat, k: nat, h: nat)
    requires k <= |heard|
  {
    && i < k && CleanSquitter(heard[i].msg) && Hash(Address(heard[i].msg)) == h
    && forall j :: i < j < k && CleanSquitter(heard[j].msg) ==> Hash(Address(heard[j].msg)) != h
  }

  lemma {:induction false} SlotHistory(cfg: Config, heard: seq<Heard>, k: nat, h: nat) returns (i: int)
    requires k <= |heard| && h < CACHE_LEN
    ensures i == -1 ==> Run(cfg, heard, k)[h] == Slot(0, 0)
                        && forall j :: 0 <= j < k && CleanSquitter(heard[j].msg) ==> Hash(Address(heard[j].msg)) != h
    ensures i != -1 ==> 0 <= i && LastWriter(heard, i, k, h)
                        && Run(cfg, heard, k)[h] == Slot(Address(heard[i].msg), heard[i].now % 0x1_0000_0000)
  {
    hide Decision, CleanSquitter, Hash, Address, Whitelists;
    if k == 0 {
      i := -1;
    } else {
      i := SlotHistory(cfg, heard, k - 1, h);
      var f := heard[k - 1];
      WhitelistsCleanSquitters(cfg, Run(cfg, heard, k - 1), f.msg, f.now);
      if CleanSquitter(f.msg) && Hash(Address(f.msg)) == h { i := k - 1; }
    }
  }

  /** Frame i vouches for the address at frame k: a clean squitter carrying it, at most a minute old,
      heard before the 31-bit second counter runs out, its slot not overwritten since. */
  ghost predicate Vouches(heard: seq<Heard>, i: nat, k: nat, addr: bv32)
    requires k < |heard|
  {
    && addr != 0
    && LastWriter(heard, i, k, Hash(addr)) && Address(heard[i].msg) == addr
    && heard[k].now - heard[i].now <= CACHE_TTL && heard[i].now < 0x8000_0000
  }

  lemma SeenIffVouched(cfg: Config, heard: seq<Heard>, k: nat, addr: bv32)
    requires k < |heard| && NotSetBack(heard)
    ensures Seen(Run(cfg, heard, k), addr, heard[k].now) <==> exists i :: Vouches(heard, i, k, addr)
  {
    hide CleanSquitter, Hash, Address, Run;
    var h := Hash(addr);
    var i := SlotHistory(cfg, heard, k, h);
    if i != -1 {
      StampAge(heard[i].now, heard[k].now);
      assert Seen(Run(cfg, heard, k), addr, heard[k].now) ==> Vouches(heard, i, k, addr);
    }
    forall j: nat | Vouches(heard, j, k, addr) ensures Seen(Run(cfg, heard, k), addr, heard[k].now) {
      assert CleanSquitter(heard[j].msg);
      assert i != -1;
      assert i == j;
    }
  }

  /** Truncation and the signed reading never make a stamp look younger than it is, unless the clock has
      been set back from 2^31 s or later. */
  lemma StampAge(stamp: nat, now: nat)
    requires stamp <= now || stamp < 0x8000_0000
    ensures now - Signed32(stamp % 0x1_0000_0000) <= CACHE_TTL <==> now - stamp <= CACHE_TTL && stamp < 0x8000_0000
  {
  }

  /** A clock set back from there can make a stamp look young: stored in the counter's last second, it is
      taken for the second before the counter began. */
  lemma SetBackLooksYoung()
    ensures var stamp, now := 0xFFFF_FFFF, 0; now - Signed32(stamp % 0x1_0000_0000) <= CACHE_TTL
  {
  }

  /** Believed addresses are earned, over whole runs: a reply with an address overlay is accepted exactly
      when its parity field xor its checksum is the address of a clean squitter that vouches for it, and
      that address is the one stored; every other format without its own parity is refused. */
  lemma BelievedAddressesAreEarned(cfg: Config, heard: seq<Heard>, k: nat)
    requires k < |heard| && NotSetBack(heard)
    ensures var o := Decision(cfg, Run(cfg, heard, k), heard[k].msg, heard[k].now);
      var addr := Syndrome(Body(o.msg, o.t));
      o.t !in {11, 17, 18} ==>
        && (o.crcok <==> (o.t in {0, 4, 5, 16, 20, 21} || o.t >= 24) && exists i :: Vouches(heard, i, k, addr))
        && (o.crcok ==> o.address == addr)
        && o.msg == heard[k].msg && o.t == Format(heard[k].msg)
  {
    hide Vouches, Run, Syndrome, Seen, ValidMessage, Address, Format, PatchedBit, AsSquitter;
    var m := heard[k].msg;
    PatchMarksErrors(cfg, m);
    var w := Patch(cfg, m);
    SeenIffVouched(cfg, heard, k, Syndrome(Body(w.msg, w.t)));
  }

  /** A reply to an interrogation, its parity carrying the interrogator's code, is accepted exactly
      when a clean squitter vouches for the address it carries. */
  lemma InterrogatedRepliesAreEarned(cfg: Config, heard: seq<Heard>, k: nat)
    requires k < |heard| && NotSetBack(heard)
    ensures var m := heard[k].msg;
      var o := Decision(cfg, Run(cfg, heard, k), m, heard[k].now);
      var residue := Syndrome(Body(m, 11));
      Format(m) == 11 && 0 < residue < 0x80 ==>
        && (o.crcok <==> exists i :: Vouches(heard, i, k, Address(m)))
        && (o.crcok ==> o.iid == residue && o.address == Address(m) && o.msg == m)
  {
    hide Vouches, Run, Syndrome, Seen, ValidMessage, Address, Format, PatchedBit, AsSquitter, Body, IsCode, Code;
    SeenIffVouched(cfg, heard, k, Address(heard[k].msg));
    SmallIsCode(Syndrome(Body(heard[k].msg, 11)));
  }

  // ---------------------------------------------------------------- the decoder object

  class Decoder {
    var fixErrors: bool
    var aggressive: bool
    const icaoCache: array<Slot>

    ghost predicate Valid()
    {
      icaoCache.Length == CACHE_LEN
    }

    ghost function View(): Cache
      requires Valid()
      reads icaoCache
    {
      icaoCache[..]
    }

    ghost function Settings(): Config
      reads this
    {
      Config(fixErrors, aggressive)
    }

    constructor ()
      ensures Valid() && fresh(icaoCache)
      ensures Settings() == Config(true, false) && View() == Run(Settings(), [], 0)
    {
      fixErrors := true;
      aggressive := false;
      icaoCache := new Slot[CACHE_LEN](_ => Slot(0, 0));
    }

    method AddRecentlySeenIcaoAddr(addr: bv32, now: nat)
      requires Valid()
      modifies icaoCache
      ensures View() == Remember(old(View()), addr, now)
    {
      hide Hash;
      icaoCache[Hash(addr)] := Slot(addr, now % 0x1_0000_0000);
    }

    method IcaoAddrWasRecentlySeen(addr: bv32, now: nat) returns (seen: bool)
      requires Valid()
      ensures seen == Seen(View(), addr, now)
    {
      hide Hash;
      var s := icaoCache[Hash(addr)];
      seen := s.addr != 0 && s.addr == addr && now - Signed32(s.stamp) <= CACHE_TTL;
    }

    /** Recovers the address from the parity overlay, byte by byte on a copy of the frame. */
    method BruteForceAp(msg: array<Byte>, t: nat, now: nat) returns (ok: bool, addr: bv32)
      requires Valid() && msg.Length == 14
      ensures addr == Syndrome(Body(msg[..], t))
      ensures ok == (HasOverlay(t) && Seen(View(), addr, now))
    {
      hide Hash, Seen, Checksum, Word, Add, Strip;
      var n := MsgBits(t) / 8;
      var aux := new Byte[14];
      Copy(msg, aux, n);
      assert aux[..n] == Body(msg[..], t);
      var crc := ComputeChecksum(aux, MsgBits(t));
      ChecksumBytes(aux[..n]);
      WordBytes(aux[n - 3], aux[n - 2], aux[n - 1], crc);
      aux[n - 1] := Strip(aux[n - 1], crc, 0);
      aux[n - 2] := Strip(aux[n - 2], crc, 1);
      aux[n - 3] := Strip(aux[n - 3], crc, 2);
      addr := Word(aux[n - 3], aux[n - 2], aux[n - 1]);
      ok := false;
      if HasOverlay(t) {
        ok := IcaoAddrWasRecentlySeen(addr, now);
      }
    }


    /** The format patch, on the working copy. */
    method PatchFormat(msg: array<Byte>) returns (t: nat, errorbit: int)
      requires msg.Length == 14
      modifies msg
      ensures Work(msg[..], t, errorbit) == Patch(Settings(), old(msg[..]))
    {
      hide ValidMessage, AsSquitter, PatchedBit, FormatOf;
      ghost var m: Frame := msg[..];
      t, errorbit := FormatOf(msg[0]), -1;
      if fixErrors && NearSquitter(t) {
        var orig := msg[0];
        msg[0] := AsSquitter(orig);
        assert msg[..] == m[0 := AsSquitter(orig)];
        var ok := Matches(msg, 112);
        assert msg[..14] == msg[..];
        if ok {
          t, errorbit := 17, PatchedBit(orig);
        } else {
          msg[0] := orig;
          assert msg[..] == m;
        }
      }
    }

    /** The parity check and the repairs, on the working copy. */
    method CheckInPlace(msg: array<Byte>, t: nat, errorbit: int, now: nat) returns (o: Outcome)
      requires Valid() && msg.Length == 14
      modifies msg
      ensures o == CheckParity(Settings(), View(), Work(old(msg[..]), t, errorbit), now)
      ensures msg[..] == o.msg
    {
      hide Syndrome, ValidMessage, Seen, IsCode, Code, Repair, Add, Word, Checksum;
      var bits := MsgBits(t);
      var n := bits / 8;
      ghost var m: Frame := msg[..];
      ghost var body := Body(m, t);
      var crc2 := ComputeChecksum(msg, bits);
      var residue := Add(Word(msg[n - 3], msg[n - 2], msg[n - 1]), crc2);
      assert residue == Syndrome(body) by { SyndromeIs(body); }
      o := Outcome(msg[..], t, false, errorbit, 0, Word(msg[1], msg[2], msg[3]));
      if residue == 0 {
        o := o.(crcok := true);
      } else if t == 11 && IsCode(residue) {
        var seen := IcaoAddrWasRecentlySeen(o.address, now);
        if seen { o := o.(crcok := true, iid := Code(residue)); }
      } else if fixErrors && HasOwnParity(t) {
        o := RepairInPlace(msg, o);
      }
    }

    method RepairInPlace(msg: array<Byte>, plain: Outcome) returns (o: Outcome)
      requires Valid() && msg.Length == 14 && msg[..] == plain.msg
      modifies msg
      ensures o == Repair(Settings(), plain) && msg[..] == o.msg
    {
      hide Syndrome, ValidMessage, FirstFix, FirstPair, Flip, Word;
      var bits := MsgBits(plain.t);
      var n := bits / 8;
      ghost var m := plain.msg;
      o := plain;
      var bit := FixSingleBitErrors(msg, bits);
      assert msg[..] == msg[..n] + m[n..];
      if bit != -1 {
        o := o.(msg := msg[..], crcok := true, errorbit := bit, address := Word(msg[1], msg[2], msg[3]));
      } else {
        assert msg[..] == m by { assert m == m[..n] + m[n..]; }
        o := o.(errorbit := -1);
        if aggressive && plain.t == 17 {
          var pair := FixTwoBitsErrors(msg, bits);
          assert msg[..] == msg[..n] + m[n..];
          if pair.Pair? {
            o := o.(msg := msg[..], crcok := true, errorbit := pair.first + 256 * pair.second,
                    address := Word(msg[1], msg[2], msg[3]));
          } else {
            assert msg[..] == m by { assert m == m[..n] + m[n..]; }
          }
        }
      }
    }

    method Decode(frame: array<Byte>, now: nat) returns (o: Outcome)
      requires Valid() && 14 <= frame.Length
      modifies icaoCache
      ensures o == Decision(Settings(), old(View()), old(frame[..14]), now)
      ensures View() == NextCache(Settings(), old(View()), old(frame[..14]), now)
    {
      hide Patch, CheckParity, Hash, Seen, Syndrome, Body;
      ghost var cfg, cache, m := Settings(), View(), frame[..14];
      var msg := new Byte[14];
      Copy(frame, msg, 14);
      assert msg[..] == m;
      var t, errorbit := PatchFormat(msg);
      ghost var w := Work(msg[..], t, errorbit);
      assert w == Patch(cfg, m);
      o := CheckInPlace(msg, t, errorbit, now);
      assert o == CheckParity(cfg, cache, w, now);
      OverlayUnrepaired(cfg, cache, w, now);
      if !HasOwnParity(t) {
        var ok, addr := BruteForceAp(msg, t, now);
        assert addr == Syndrome(Body(w.msg, t));
        o := if ok then o.(crcok := true, address := addr) else o.(crcok := false);
      } else if o.crcok && o.errorbit == -1 && t != 18 && o.iid == 0 {
        AddRecentlySeenIcaoAddr(o.address, now);
      }
      assert o == Decision(cfg, cache, m, now);
    }
  }

  function LowByte(x: bv32): Byte {
    (x & 0xff) as Byte
  }

  /** A byte of the parity field without its share of the checksum. */
  function Strip(b: Byte, crc: bv32, i: nat): Byte {
    b ^ LowByte(if i == 0 then crc else if i == 1 then crc >> 8 else crc >> 16)
  }

  lemma WordBytes(a: Byte, b: Byte, c: Byte, x: bv32)
    requires x < 0x1000000
    ensures Word(Strip(a, x, 2), Strip(b, x, 1), Strip(c, x, 0)) == Add(Word(a, b, c), x)
  {
  }

  lemma ChecksumBytes(m: seq<Byte>)
    requires IsMessage(m)
    ensures Checksum(m) < 0x1000000
  {
    hide Bits, Horner;
    ChecksumIsHorner(m);
    HornerSmall(Bits(m), 8 * |m| - 24);
  }

  lemma SyndromeIs(m: seq<Byte>)
    requires IsMessage(m)
    ensures Syndrome(m) == Add(Word(m[|m| - 3], m[|m| - 2], m[|m| - 1]), Checksum(m))
  {
  }

  lemma OverlayUnrepaired(cfg: Config, cache: Cache, w: Work, now: nat)
    ensures CheckParity(cfg, cache, w, now).t == w.t
    ensures !HasOwnParity(w.t) ==> CheckParity(cfg, cache, w, now).msg == w.msg
  {
    hide Syndrome, Seen, FirstFix, FirstPair, Flip;
  }
}
