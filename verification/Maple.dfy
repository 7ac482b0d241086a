/** The asynchronous Maple service: each frame the shim runs the game's own engine against a mirrored
    register block, walks the descriptor list the engine programmed, and answers its frames in memory. */
module Maple {
  import opened Options
  import opened Words
  import opened Iface
  import opened Jvs
  import Bits

  // ---- memory: uncached views of the 16 MB chip, which area 3 repeats ----

  const CHIP := 0x100_0000
  const RAM := 0x0c00_0000
  const WINDOW := 0x200_0000
  const MDSTAR: u32 := Phys(MAPLE_MIRROR) + 0x04
  const MDST: u32 := Phys(MAPLE_MIRROR) + 0x18

  type Ram = int -> byte

  function Cell(a: int): nat { a % CHIP }

  /** Two addresses are one cell exactly when they are a whole number of chips apart. */
  lemma ChipRepeats(a: int, b: int)
    ensures Cell(a) == Cell(b) <==> (a - b) % 0x100_0000 == 0
  {}

  function Bytes(m: Ram, a: int, n: nat): (s: seq<byte>)
    ensures |s| == n && forall k | 0 <= k < n :: s[k] == m(Cell(a + k))
  {
    seq<byte>(n, k requires 0 <= k => m(Cell(a + k)))
  }

  function Word(m: Ram, a: int): u32 { Le32(Bytes(m, a, 4), 0) }

  function Put(m: Ram, a: int, s: seq<byte>): Ram {
    b => var d := (b - a) % CHIP; if d < |s| then s[d] else m(b)
  }

  /** Byte x is outside the n bytes at a. */
  predicate Away(x: int, a: int, n: nat) { (x - a) % CHIP >= n }

  lemma PutAt(m: Ram, a: int, s: seq<byte>, k: nat)
    requires k < |s| <= CHIP
    ensures Put(m, a, s)(Cell(a + k)) == s[k]
  {
    assert (Cell(a + k) - a) % CHIP == k;
  }

  lemma OffsetFrom(d: int, k: nat)
    requires k <= CHIP
    ensures (d - k) % CHIP == if d % CHIP >= k then d % CHIP - k else d % CHIP - k + CHIP
  {}

  /** A reply stored in pieces is, byte for byte, the whole one stored at once. */
  lemma PutPieces(m: Ram, a: int, s: seq<byte>, rest: seq<byte>, x: int)
    requires |s| + |rest| <= CHIP
    ensures Put(Put(m, a, s), a + |s|, rest)(x) == Put(m, a, s + rest)(x)
  {
    OffsetFrom(x - a, |s|);
  }

  /** And so is one stored whole with a byte of it then replaced. */
  lemma PutThenByte(m: Ram, a: int, s: seq<byte>, k: nat, v: byte, x: int)
    requires k < |s| <= CHIP
    ensures Put(Put(m, a, s), a + k, [v])(x) == Put(m, a, s[k := v])(x)
  {
    OffsetFrom(x - a, k);
  }

  // ---- descriptor entries, as the 40 bytes a visit may read ----

  const HEAD: nat := 0x28

  type Head = f: seq<byte> | |f| == HEAD witness seq(HEAD, _ => 0)

  function HeadAt(m: Ram, a: int): Head { Bytes(m, a, HEAD) }

  function Receive(f: Head): u32 { Le32(f, 4) % 0x2000_0000 / 32 * 32 }

  function Stride(f: Head): int { (2 + (f[0] as int + 1)) * 4 }

  predicate Last(f: Head) { f[3] >= 0x80 }

  predicate Start(f: Head) { f[1] % 8 == 0 }

  predicate Mie(f: Head) { f[8] == 0x86 && f[9] == 0x20 }

  function Sub(f: Head): byte { f[0x0c] }

  /** a - 0x0c000000u < 0x02000000u */
  predicate InRam(a: u32) { Add32(a, -RAM) < WINDOW }

  lemma InRamExactly(a: u32)
    ensures InRam(a) <==> 0x0c00_0000 <= a < 0x0e00_0000
  {}

  lemma LowBytes(h: nat, b0: byte, b1: byte, rest: nat)
    requires h == b0 + 0x100 * (b1 + 0x100 * rest)
    ensures h % 0x100 == b0 && h / 0x100 == b1 + 0x100 * rest && h / 0x100 % 0x100 == b1
  {
    Bits.DivModUnique(h, 0x100, b1 + 0x100 * rest, b0);
    Bits.DivModUnique(b1 + 0x100 * rest, 0x100, rest, b1);
  }

  lemma LowThree(b1: byte, rest: nat)
    ensures (b1 + 0x100 * rest) % 8 == b1 % 8
  {
    Bits.DivModUnique(b1 + 0x100 * rest, 8, b1 / 8 + 0x20 * rest, b1 % 8);
  }

  lemma TopBit(low: nat, b3: byte)
    requires low < 0x100_0000
    ensures (low + 0x100_0000 * b3) / 0x8000_0000 % 2 == 1 <==> b3 >= 0x80
  {
    Bits.DivModUnique(low + 0x100_0000 * b3, 0x8000_0000, b3 / 0x80, low + 0x100_0000 * (b3 % 0x80));
  }

  /** The low bytes of a little-endian word, and its top bit. */
  lemma WordParts(f: seq<byte>, i: nat)
    requires i + 4 <= |f|
    ensures var h: nat := Le32(f, i);
            && h % 0x100 == f[i] && h / 0x100 % 0x100 == f[i + 1] && h / 0x100 % 8 == f[i + 1] % 8
            && (h / 0x8000_0000 % 2 == 1 <==> f[i + 3] >= 0x80)
  {
    var b0: nat, b1: nat, b2: nat, b3: nat := f[i], f[i + 1], f[i + 2], f[i + 3];
    var rest := b2 + 0x100 * b3;
    LowBytes(Le32(f, i), b0, b1, rest);
    LowThree(b1, rest);
    TopBit(b0 + 0x100 * b1 + 0x1_0000 * b2, b3);
  }

  /** And its third byte. */
  lemma ThirdByte(f: seq<byte>, i: nat)
    requires i + 4 <= |f|
    ensures Le32(f, i) / 0x1_0000 % 0x100 == f[i + 2]
  {
    var b0: nat, b1: nat, b2: nat, b3: nat := f[i], f[i + 1], f[i + 2], f[i + 3];
    Bits.DivModUnique(Le32(f, i), 0x1_0000, b2 + 0x100 * b3, b0 + 0x100 * b1);
    Bits.DivModUnique(b2 + 0x100 * b3, 0x100, b3, b2);
  }

  lemma LengthField(f: Head)
    ensures Stride(f) == 4 * (2 + (Bits.And(Le32(f, 0), 0xff) + 1))
  {
    Bits.Pow2Values();
    Bits.AndMask(Le32(f, 0), 8);
    WordParts(f, 0);
  }

  lemma LastField(f: Head)
    ensures Last(f) <==> Bits.Bit(Le32(f, 0), 31)
  {
    Bits.Pow2Values();
    assert Bits.Pow2(32) == 2 * Bits.Pow2(31);
    Bits.ShrIsDiv(Le32(f, 0), 31);
    WordParts(f, 0);
  }

  lemma StartField(f: Head)
    ensures Start(f) <==> Bits.And(Bits.Shr(Le32(f, 0), 8), 7) == 0
  {
    assert Bits.Pow2(3) == 8 && Bits.Pow2(8) == 0x100;
    Bits.Field(Le32(f, 0), 8, 3);
    WordParts(f, 0);
  }

  /** The fields of an entry, in the C's shifts and masks of its words. */
  lemma HeaderFields(f: Head)
    ensures var h := Le32(f, 0);
            && Stride(f) == 4 * (2 + (Bits.And(h, 0xff) + 1)) && (Last(f) <==> Bits.Bit(h, 31))
            && (Start(f) <==> Bits.And(Bits.Shr(h, 8), 7) == 0)
  {
    LengthField(f);
    LastField(f);
    StartField(f);
  }

  lemma AddressParts(v: u32)
    ensures v / 32 % 0x100_0000 == v % 0x2000_0000 / 32
  {
    var q, r := v / 0x2000_0000, v % 0x2000_0000;
    assert v == 32 * (0x100_0000 * q + r / 32) + r % 32;
    assert v / 32 == 0x100_0000 * q + r / 32;
  }

  lemma AddressMask()
    ensures Bits.Pow2(5) == 32 && Bits.Pow2(24) == 0x100_0000 && Bits.Shl(0xff_ffff, 5) == 0x1fff_ffe0
  {
    Bits.Pow2Values();
  }

  lemma AddressField(v: u32)
    ensures Bits.And(v, 0x1fff_ffe0) == v % 0x2000_0000 / 32 * 32
  {
    AddressMask();
    AddressParts(v);
    Bits.FieldInPlace(v, 5, 24);
  }

  lemma ReceiveField(f: Head)
    ensures Receive(f) == Bits.And(Le32(f, 4), 0x1fff_ffe0)
  {
    AddressField(Le32(f, 4));
  }

  lemma FrameFields(f: Head)
    ensures var h := Le32(f, 8);
            Mie(f) <==> Bits.And(h, 0xff) == 0x86 && Bits.And(Bits.Shr(h, 8), 0xff) == 0x20
  {
    var h := Le32(f, 8);
    Bits.Pow2Values();
    Bits.AndMask(h, 8);
    Bits.Field(h, 8, 8);
    WordParts(f, 8);
  }

  // ---- the JVS latch ----

  /** What an MIE frame does to the I/O board's wire: transmits a command, or resets. */
  datatype Wire = Sent(cmd: byte) | Reset
  {
    function Value(): byte { if Sent? then cmd else 0xff }
  }

  function WireOf(f: Head): Option<Wire> {
    if !Start(f) || !Mie(f) then None
    else if Sub(f) == 0x17 || Sub(f) == 0x19 || Sub(f) == 0x21 then Some(Sent(f[0x14]))
    else if Sub(f) == 0x27 then Some(Reset)
    else None
  }

  function Latched(latch: byte, f: Head): byte {
    if WireOf(f).Some? then WireOf(f).value.Value() else latch
  }

  // ---- replies ----

  /** The captured replies and the EEPROM image, embedded at build time. */
  datatype Blobs = Blobs(f1: seq<byte>, j10: seq<byte>, j11: seq<byte>, j12: seq<byte>, j13: seq<byte>, j14: seq<byte>,
                         sub01: seq<byte>, sub13: seq<byte>, sub17: seq<byte>, sub27: seq<byte>, sub31: seq<byte>,
                         subFF: seq<byte>, eeprom: seq<byte>, id: seq<byte>)
  {
    predicate Fit() {
      && |f1| <= 132 && |j10| <= 132 && |j11| <= 132 && |j12| <= 132 && |j13| <= 132 && |j14| <= 132
      && |sub01| <= 132 && |sub13| <= 132 && |sub17| <= 132 && |sub27| <= 132 && 10 < |sub31| <= 132
      && |subFF| <= 132 && |eeprom| == 128 && |id| == 48
    }
  }

  /** What a reply depends on besides the frame: the pad words and the video cable. */
  datatype World = World(a: u16, b: u16, vga: bool)
  {
    function Digital(): seq<byte> { DigitalFrame(Buttons(a), Buttons(b)) }
  }

  /** A receive answers the last command on the wire. */
  function Received(t: Blobs, latch: byte, w: World): (s: seq<byte>)
    requires t.Fit()
    ensures |s| <= 132
  {
    match latch
    case 0xf1 => t.f1
    case 0x10 => t.j10
    case 0x11 => t.j11
    case 0x12 => t.j12
    case 0x13 => t.j13
    case 0x14 => t.j14
    case _ => w.Digital()
  }

  /** The reply to an MIE frame; none where the shim stops the machine. */
  function Answer(t: Blobs, sub: byte, latch: byte, w: World): (r: Option<seq<byte>>)
    requires t.Fit()
    ensures r.Some? ==> |r.value| <= 132
  {
    match sub
    case 0x33 => Some(w.Digital())
    case 0x15 => Some(Received(t, latch, w))
    case 0x03 => Some([0x87, 0x00, 0x20, 0x20] + t.eeprom)
    case 0x01 => Some(t.sub01)
    case 0x13 => Some(t.sub13)
    case 0x17 => Some(t.sub17)
    case 0x19 => Some(t.sub17)
    case 0x21 => Some(t.sub17)
    case 0x27 => Some(t.sub27)
    case 0x31 => Some(if w.vga then t.sub31 else t.sub31[10 := t.sub31[10] / 2 * 2])
    case 0xff => Some(t.subFF)
    case 0x0b => Some([0x87, 0x00, 0x20, 0x01, 0x0c, 0x00, 0x8e, 0x00])
    case _ => None
  }

  lemma ClearLow(v: byte)
    ensures Bits.And(v, 0xfe) == v / 2 * 2
  {
    var half: nat := v / 2;
    Bits.AndEven(v, 0x7f);
    assert Bits.Pow2(7) == 0x80;
    Bits.AndMask(half, 7);
  }

  predicate Unknown(sub: int) {
    sub !in {0x33, 0x15, 0x03, 0x01, 0x13, 0x17, 0x19, 0x21, 0x27, 0x31, 0xff, 0x0b}
  }

  /** Which reply a subcommand gets, and a receive after each command on the wire. */
  lemma AnswersAre(t: Blobs, sub: byte, latch: byte, w: World)
    requires t.Fit()
    ensures var r, live := Answer(t, sub, latch, w), Some(DigitalFrame(Buttons(w.a), Buttons(w.b)));
            && (sub == 0x33 ==> r == live)
            && (sub == 0x15 ==> r == if latch == 0xf1 then Some(t.f1) else if latch == 0x10 then Some(t.j10)
                                     else if latch == 0x11 then Some(t.j11) else if latch == 0x12 then Some(t.j12)
                                     else if latch == 0x13 then Some(t.j13) else if latch == 0x14 then Some(t.j14)
                                     else live)
            && (sub == 0x03 ==> r.Some? && |r.value| == 132 && Le32(r.value, 0) == 0x2020_0087
                                && r.value[4..] == t.eeprom)
            && (sub == 0x0b ==> r.Some? && |r.value| == 8 && Le32(r.value, 0) == 0x0120_0087
                                && Le32(r.value, 4) == 0x008e_000c)
            && (sub == 0x01 ==> r == Some(t.sub01)) && (sub == 0x13 ==> r == Some(t.sub13))
            && (sub in {0x17, 0x19, 0x21} ==> r == Some(t.sub17)) && (sub == 0x27 ==> r == Some(t.sub27))
            && (sub == 0xff ==> r == Some(t.subFF))
            && (sub == 0x31 ==> r == Some(if w.vga then t.sub31 else t.sub31[10 := Bits.And(t.sub31[10], 0xfe)]))
            && (Unknown(sub) <==> r == None)
  {
    ClearLow(t.sub31[10]);
  }

  /** hdr | resp | n << 24: the sender and recipient of the frame, exchanged. */
  function Echo(f: Head, resp: byte, n: byte): (s: seq<byte>)
    ensures |s| == 4
  {
    [resp, f[10], f[9], n]
  }

  lemma OrLow(high: nat, v: nat, low: byte)
    requires v == 0x100 * high
    ensures Bits.Or(v, low) == v + low
  {
    Bits.Pow2Values();
    Bits.ShlEight(high);
    Bits.OrShifted(high, low, 8);
  }

  /** Or-ing in a byte above what is there adds it. */
  lemma OrHigh(low: nat, b: byte, k: nat, p: nat)
    requires p == Bits.Pow2(k) && low < p
    ensures Bits.Or(low, Bits.Shl(b, k)) == low + b * p
  {
    Bits.OrShifted(b, low, k);
    Bits.ShlIsMul(b, k);
  }

  lemma OrBytes(a: byte, b: byte, resp: byte, n: byte)
    ensures Bits.Or(Bits.Or(Bits.Or(Bits.Shl(a, 8), Bits.Shl(b, 16)), resp), Bits.Shl(n, 24))
         == resp + 0x100 * a + 0x1_0000 * b + 0x100_0000 * n
  {
    var m0: nat := 0x100 * a;
    var m1: nat := m0 + 0x1_0000 * b;
    var m2: nat := m1 + resp;
    Bits.Pow2Values();
    assert Bits.Shl(a, 8) == m0 by { Bits.ShlEight(a); }
    assert Bits.Or(m0, Bits.Shl(b, 16)) == m1 by { OrHigh(m0, b, 16, 0x1_0000); }
    assert Bits.Or(m1, resp) == m2 by { OrLow(a + 0x100 * b, m1, resp); }
    OrHigh(m2, n, 24, 0x100_0000);
  }

  lemma MiddleBytes(f: Head)
    ensures var h := Le32(f, 8); Bits.And(Bits.Shr(h, 16), 0xff) == f[10] && Bits.And(Bits.Shr(h, 8), 0xff) == f[9]
  {
    var h := Le32(f, 8);
    Bits.Pow2Values();
    Bits.Field(h, 16, 8);
    Bits.Field(h, 8, 8);
    WordParts(f, 8);
    ThirdByte(f, 8);
  }

  /** As the word the C stores. */
  lemma EchoWord(f: Head, resp: byte, n: byte)
    ensures var h := Le32(f, 8);
            var from, to := Bits.Shl(Bits.And(Bits.Shr(h, 16), 0xff), 8), Bits.Shl(Bits.And(Bits.Shr(h, 8), 0xff), 16);
            Le32(Echo(f, resp, n), 0) == Bits.Or(Bits.Or(Bits.Or(from, to), resp), Bits.Shl(n, 24))
  {
    MiddleBytes(f);
    OrBytes(f[10], f[9], resp, n);
  }

  /** The reply to a frame of the bring-up ladder. */
  function Ladder(t: Blobs, f: Head): (s: seq<byte>)
    requires t.Fit()
    ensures |s| <= 132
  {
    match f[8]
    case 0x01 => Echo(f, 0x05, 0)
    case 0x02 => Echo(f, 0x06, 0)
    case 0x82 => Echo(f, 0x83, 7) + t.id[..28] + Echo(f, 0x83, 5) + t.id[28..]
    case 0x80 =>
      if f[0x0d] == 0xff then Echo(f, 0x07, 0)
      else Echo(f, 0x80, 1) + [Sum(f, 0x0c, 0x28) % 0x100, 0, 0, 0] + Echo(f, 0x07, 0)
    case _ => Echo(f, 0x07, 0)
  }

  /** The rungs: device and status requests, the board's identity in two frames, a firmware chunk's checksum,
      and a plain acknowledgement for everything else. */
  lemma LadderAre(t: Blobs, f: Head)
    requires t.Fit()
    ensures var s, ack := Ladder(t, f), Echo(f, 0x07, 0);
            && (f[8] == 0x01 ==> s == Echo(f, 0x05, 0)) && (f[8] == 0x02 ==> s == Echo(f, 0x06, 0))
            && (f[8] == 0x82 ==> |s| == 56 && s[..4] == Echo(f, 0x83, 28 / 4) && s[4..32] == t.id[..28]
                                 && s[32..36] == Echo(f, 0x83, 20 / 4) && s[36..] == t.id[28..])
            && (f[8] == 0x80 && f[0x0d] != 0xff ==>
                 |s| == 12 && s[..4] == Echo(f, 0x80, 1) && Le32(s, 4) == Sum(f, 0x0c, 0x28) % 0x100 && s[8..] == ack)
            && (f[8] !in {0x01, 0x02, 0x82, 0x80} || (f[8] == 0x80 && f[0x0d] == 0xff) ==> s == ack)
  {}

  /** What one entry calls for. */
  datatype Act = Quiet | Reply(bytes: seq<byte>) | Die(sub: byte, rcv: u32)

  function Due(t: Blobs, f: Head, latch: byte, w: World): (act: Act)
    requires t.Fit()
    ensures act.Reply? ==> |act.bytes| <= 132
  {
    if !Start(f) || !InRam(Receive(f)) then Quiet
    else if !Mie(f) then Reply(Ladder(t, f))
    else match Answer(t, Sub(f), Latched(latch, f), w)
      case None => Die(Sub(f), Receive(f))
      case Some(s) => Reply(s)
  }

  // ---- a list, visited ----

  /** One entry visited: where, what memory, the latch and the entry were, what the world supplied, and
      what the shim did. */
  datatype Visit = Visit(addr: int, ram: Ram, latch: byte, frame: Head, world: World, act: Act)
  {
    function Next(): int { addr + Stride(frame) }
    function LatchAfter(): byte { Latched(latch, frame) }
    function RamAfter(): Ram { if act.Reply? then Put(ram, Receive(frame), act.bytes) else ram }

    /** The entry is what memory held, the act is what it calls for, and neither pad word shows the reset
        combination. */
    ghost predicate Legal(t: Blobs)
      requires t.Fit()
    {
      && frame == HeadAt(ram, addr) && act == Due(t, frame, latch, world) && !act.Die?
      && !ResetCombo(world.a) && !ResetCombo(world.b)
    }
  }

  ghost predicate LegalAt(t: Blobs, vs: seq<Visit>, i: nat)
    requires t.Fit() && i < |vs|
  {
    vs[i].Legal(t)
  }

  ghost predicate AllLegal(t: Blobs, vs: seq<Visit>)
    requires t.Fit()
  {
    forall i: nat | i < |vs| :: LegalAt(t, vs, i)
  }

  /** Visit i follows its predecessor, which was not marked last, on the memory and the latch that one left. */
  ghost predicate Linked(vs: seq<Visit>, i: nat)
    requires 0 < i < |vs|
  {
    var v, w := vs[i - 1], vs[i];
    !Last(v.frame) && w.addr == v.Next() && w.ram == v.RamAfter() && w.latch == v.LatchAfter()
  }

  /** The visits follow one another from base, memory m and the given latch. */
  ghost predicate Trail(vs: seq<Visit>, base: int, m: Ram, latch: byte) {
    && (vs != [] ==> vs[0].addr == base && vs[0].ram == m && vs[0].latch == latch)
    && forall i: nat | 0 < i < |vs| :: Linked(vs, i)
  }

  function EndAddr(vs: seq<Visit>, base: int): int {
    if vs == [] then base else vs[|vs| - 1].Next()
  }

  function EndLatch(vs: seq<Visit>, latch: byte): byte {
    if vs == [] then latch else vs[|vs| - 1].LatchAfter()
  }

  function EndRam(vs: seq<Visit>, m: Ram): Ram {
    if vs == [] then m else vs[|vs| - 1].RamAfter()
  }

  lemma TrailNext(vs: seq<Visit>, v: Visit, base: int, m: Ram, latch: byte)
    requires Trail(vs, base, m, latch) && (vs != [] ==> !Last(vs[|vs| - 1].frame))
    requires v.addr == EndAddr(vs, base) && v.ram == EndRam(vs, m) && v.latch == EndLatch(vs, latch)
    ensures Trail(vs + [v], base, m, latch)
  {
    var ws := vs + [v];
    forall i: nat | 0 < i < |ws| ensures Linked(ws, i) {
      if i < |vs| { assert Linked(vs, i); }
    }
  }

  lemma LegalNext(t: Blobs, vs: seq<Visit>, v: Visit)
    requires t.Fit() && AllLegal(t, vs) && v.Legal(t)
    ensures AllLegal(t, vs + [v])
  {
    var ws := vs + [v];
    forall i: nat | i < |ws| ensures LegalAt(t, ws, i) {
      if i < |vs| { assert LegalAt(t, vs, i); }
    }
  }

  lemma StrideBounds(f: Head)
    ensures 12 <= Stride(f) <= 1032
  {}

  const CAP := 32

  /** A whole list: up to the first entry marked last, or the cap. */
  ghost predicate Whole(t: Blobs, vs: seq<Visit>, base: int, m: Ram, latch: byte)
    requires t.Fit()
  {
    && Trail(vs, base, m, latch) && AllLegal(t, vs) && 0 < |vs| <= CAP
    && (|vs| == CAP || Last(vs[|vs| - 1].frame))
  }

  // ---- the service ----

  /** How a frame ends. Trampled: a reply went over the shim's own code, data or stack, as the window test
      allows, and nothing is promised from there on. */
  datatype Outcome = Returned | Rebooted | Died(code: u32, a: u32, b: u32) | Trampled

  predicate Triggered(m: Ram) { Word(m, MDST) % 2 == 1 }

  /** The subcommands answered with the live pad words. */
  predicate Live(sub: byte, latch: byte) {
    sub == 0x33 || (sub == 0x15 && !(latch == 0xf1 || 0x10 <= latch <= 0x14))
  }

  predicate OwnAt(own: int -> bool, a: int, k: nat) { own(Cell(a + k)) }

  /** Some of the n bytes at a are the shim's own. */
  predicate Hits(own: int -> bool, a: int, n: nat) {
    exists k | 0 <= k < n :: OwnAt(own, a, k)
  }

  /** A store that hits nothing of the shim's own changes nothing of it. */
  lemma OwnKept(own: int -> bool, m: Ram, a: int, s: seq<byte>, x: int)
    requires !Hits(own, a, |s|) && 0 <= x < CHIP && own(x)
    ensures Put(m, a, s)(x) == m(x)
  {
    var k := (x - a) % CHIP;
    assert Cell(a + k) == x;
    if k < |s| { assert OwnAt(own, a, k); }
  }

  /** One that does overwrites some of it. */
  lemma OwnHit(own: int -> bool, m: Ram, a: int, s: seq<byte>) returns (k: nat)
    requires Hits(own, a, |s|) && |s| <= CHIP
    ensures k < |s| && own(Cell(a + k)) && Put(m, a, s)(Cell(a + k)) == s[k]
  {
    k :| 0 <= k < |s| && OwnAt(own, a, k);
    PutAt(m, a, s, k);
  }

  predicate Tramples(own: int -> bool, v: Visit) {
    v.act.Reply? && Hits(own, Receive(v.frame), |v.act.bytes|)
  }

  ghost predicate Untrampled(own: int -> bool, vs: seq<Visit>) {
    forall i | 0 <= i < |vs| :: !Tramples(own, vs[i])
  }

  /** A frame with a receive buffer the shim accepts. */
  predicate Receives(f: Head) { Start(f) && InRam(Receive(f)) }

  /** The window test does let a reply go over the shim's own home: an EEPROM read received there. */
  lemma WindowAdmitsHome(t: Blobs, latch: byte, w: World) returns (f: Head)
    requires t.Fit()
    ensures Receives(f) && Receive(f) == Phys(SHIM_BASE)
    ensures Due(t, f, latch, w).Reply? && |Due(t, f, latch, w).bytes| == 132
  {
    f := [0, 0, 0, 0] + Pack32(Phys(SHIM_BASE)) + [0x86, 0x20, 0, 0, 0x03] + seq(HEAD - 13, _ => 0);
    Unpack32(f, 4, Phys(SHIM_BASE));
  }

  /** Why the walk ends at entry v: a live poll found the reset combination, the subcommand is unknown, or
      the reply due goes over what is the shim's own. */
  ghost predicate Stops(t: Blobs, own: int -> bool, v: Visit, r: Outcome)
    requires t.Fit()
  {
    && v.frame == HeadAt(v.ram, v.addr) && Receives(v.frame)
    && match r
       case Returned => false
       case Rebooted => Mie(v.frame) && Live(Sub(v.frame), v.LatchAfter())
                        && (ResetCombo(v.world.a) || ResetCombo(v.world.b))
       case Died(code, a, b) => Due(t, v.frame, v.latch, v.world) == Die(Sub(v.frame), Receive(v.frame))
                                && code == 3 && a == Sub(v.frame) && b == Receive(v.frame) && Unknown(a)
       case Trampled => v.act == Due(t, v.frame, v.latch, v.world) && Tramples(own, v)
  }

  lemma TriggerField(m: Ram)
    ensures Bits.And(Word(m, MDST), 1) == if Triggered(m) then 1 else 0
  {
    assert Bits.Pow2(1) == 2;
    Bits.AndMask(Word(m, MDST), 1);
  }

  /** What one frame does to the memory the engine left. */
  ghost predicate Serviced(t: Blobs, m: Ram, vs: seq<Visit>, latch: byte, m': Ram)
    requires t.Fit()
  {
    if Bits.And(Word(m, Phys(MAPLE_MIRROR) + 0x18), 1) == 0 then vs == [] && m' == m
    else
      var base := Bits.And(Word(m, Phys(MAPLE_MIRROR) + 0x04), 0x1fff_ffe0);
      && (if 0x0c00_0000 <= base < 0x0e00_0000 then Whole(t, vs, base, m, latch) else vs == [])
      && m' == Put(EndRam(vs, m), Phys(MAPLE_MIRROR) + 0x18, [0, 0, 0, 0])
  }

  /** A frame played: the memory the engine left, the latch before, the entries visited, the memory after. */
  datatype Frame = Frame(left: Ram, latch: byte, visits: seq<Visit>, after: Ram)

  /** The latch as run leaves it. */
  function RunLatch(run: seq<Frame>, latch: byte): byte {
    if run == [] then latch else EndLatch(run[|run| - 1].visits, run[|run| - 1].latch)
  }

  ghost predicate PlayedAt(t: Blobs, own: int -> bool, run: seq<Frame>, latch: byte, i: nat)
    requires t.Fit() && i < |run|
  {
    var f := run[i];
    && f.latch == RunLatch(run[..i], latch) && Serviced(t, f.left, f.visits, f.latch, f.after)
    && Untrampled(own, f.visits) && !Triggered(f.after)
  }

  /** Frame after frame was serviced whole, the latch carried from one to the next. */
  ghost predicate Played(t: Blobs, own: int -> bool, run: seq<Frame>, latch: byte)
    requires t.Fit()
  {
    forall i: nat | i < |run| :: PlayedAt(t, own, run, latch, i)
  }

  lemma PlayedNext(t: Blobs, own: int -> bool, run: seq<Frame>, latch: byte, f: Frame)
    requires t.Fit() && Played(t, own, run, latch)
    requires f.latch == RunLatch(run, latch) && Serviced(t, f.left, f.visits, f.latch, f.after)
    requires Untrampled(own, f.visits) && !Triggered(f.after)
    ensures Played(t, own, run + [f], latch)
  {
    var more := run + [f];
    forall i: nat | i < |more| ensures PlayedAt(t, own, more, latch, i) {
      assert more[..i] == run[..i];
      if i < |run| { assert PlayedAt(t, own, run, latch, i); } else { assert run[..i] == run; }
    }
  }

  lemma Cleared(m: Ram)
    ensures !Triggered(Put(m, MDST, [0, 0, 0, 0])) && Pack32(0) == [0, 0, 0, 0]
  {
    PutAt(m, MDST, [0, 0, 0, 0], 0);
  }

  ghost predicate LatchedAt(h: seq<Visit>, i: nat)
    requires i < |h|
  {
    h[i].latch == if i == 0 then 0xff else h[i - 1].LatchAfter()
  }

  /** All the visits of a run, list after list: each finds the latch its predecessor left. */
  ghost predicate Chained(t: Blobs, h: seq<Visit>)
    requires t.Fit()
  {
    AllLegal(t, h) && forall i: nat | i < |h| :: LatchedAt(h, i)
  }

  lemma ChainGrows(t: Blobs, h: seq<Visit>, vs: seq<Visit>, base: int, m: Ram)
    requires t.Fit() && Chained(t, h) && Trail(vs, base, m, EndLatch(h, 0xff)) && AllLegal(t, vs)
    ensures Chained(t, h + vs) && EndLatch(h + vs, 0xff) == EndLatch(vs, EndLatch(h, 0xff))
  {
    var all := h + vs;
    forall i: nat | i < |all| ensures LegalAt(t, all, i) {
      if i < |h| { assert LegalAt(t, h, i); } else { assert LegalAt(t, vs, i - |h|); }
    }
    forall i: nat | i < |all| ensures LatchedAt(all, i) {
      if i < |h| { assert LatchedAt(h, i); }
      else if i > |h| { assert Linked(vs, i - |h|); }
    }
  }

  class Shim {
    const blobs: Blobs
    const own: int -> bool     // the cells the shim runs on: its code, its data and its stack
    ghost const start: Ram     // memory as loaded
    var ram: Ram
    var pending: byte          // pending_jvs
    var padA: u16              // raw_cache_a
    var padB: u16
    var freePlay: int          // the settings word stamped through the cached view
    ghost var history: seq<Visit>

    predicate Ready()
      reads this
    {
      blobs.Fit() && !ResetCombo(padA) && !ResetCombo(padB)
    }

    /** Everything answered so far, list after list, is one chain from the latch as loaded. */
    ghost predicate Valid()
      reads this
    {
      Ready() && Chained(blobs, history) && pending == EndLatch(history, 0xff)
    }

    /** As loaded: the mirrors are zeroed before the handoff. */
    constructor (t: Blobs, m: Ram, own: int -> bool)
      requires t.Fit() && Word(m, MDST) == 0
      ensures Valid() && !Triggered(ram) && blobs == t && this.own == own && history == []
      ensures ram == start == m && pending == 0xff
    {
      blobs, this.own, ram, start, pending, padA, padB, freePlay, history := t, own, m, m, 0xff, 0xffff, 0xffff, 0, [];
      new;
      ComboIsFive(0xffff);
      NothingHeld(1);
    }

    /** jvs_digital: the cached pad words, refreshed when the timer says so; the reset combination on
        either fresh word reboots. */
    method PollPads() returns (rebooted: bool)
      requires Ready()
      modifies `padA, `padB
      ensures if rebooted then ResetCombo(padA) || ResetCombo(padB) else Ready()
    {
      rebooted := false;
      var stale: bool := *;
      if stale {
        var a: u16, b: u16 := *, *;
        padA, padB := a, b;
        rebooted := ResetCombo(a) || ResetCombo(b);
      }
    }

    method Store(rcv: u32, s: seq<byte>) returns (r: Outcome)
      modifies `ram
      ensures ram == Put(old(ram), rcv, s)
      ensures r == if Hits(own, rcv, |s|) then Trampled else Returned
    {
      ram := Put(ram, rcv, s);
      r := if Hits(own, rcv, |s|) then Trampled else Returned;
    }

    method Enumeration() returns (s: seq<byte>)
      requires Ready() && (pending == 0xf1 || 0x10 <= pending <= 0x14)
      ensures forall w :: s == Received(blobs, pending, w)
    {
      if pending == 0xf1 {
        s := blobs.f1;
      } else if pending == 0x10 {
        s := blobs.j10;
      } else if pending == 0x11 {
        s := blobs.j11;
      } else if pending == 0x12 {
        s := blobs.j12;
      } else if pending == 0x13 {
        s := blobs.j13;
      } else {
        s := blobs.j14;
      }
    }

    /** maple_reply */
    method MapleReply(sub: byte, rcv: u32) returns (r: Outcome, ghost w: World)
      requires Ready()
      modifies `ram, `padA, `padB
      ensures w.a == padA && w.b == padB
      ensures var s := Answer(blobs, sub, pending, w);
              match r
              case Returned => Ready() && s.Some? && ram == Put(old(ram), rcv, s.value) && !Hits(own, rcv, |s.value|)
              case Trampled => Ready() && s.Some? && ram == Put(old(ram), rcv, s.value) && Hits(own, rcv, |s.value|)
              case Rebooted => Live(sub, pending) && (ResetCombo(padA) || ResetCombo(padB)) && ram == old(ram)
              case Died(_, _, _) => r == Died(3, sub, rcv) && s.None? && ram == old(ram)
    {
      var vga: bool := *;
      if Live(sub, pending) {
        var rebooted := PollPads();
        w := World(padA, padB, vga);
        if rebooted {
          return Rebooted, w;
        }
        var f := Jvs.Digital(padA, padB);
        r := Store(rcv, f[..]);
        return;
      }
      w := World(padA, padB, vga);
      var s: seq<byte> := [];
      if sub == 0x15 {
        s := Enumeration();
      } else if sub == 0x03 {
        s := [0x87, 0x00, 0x20, 0x20] + blobs.eeprom;
      } else if sub == 0x01 {
        s := blobs.sub01;
      } else if sub == 0x13 {
        s := blobs.sub13;
      } else if sub == 0x17 || sub == 0x19 || sub == 0x21 {
        s := blobs.sub17;
      } else if sub == 0x27 {
        s := blobs.sub27;
      } else if sub == 0x31 {
        s := blobs.sub31;
        if !vga {
          s := s[10 := s[10] / 2 * 2];
        }
      } else if sub == 0xff {
        s := blobs.subFF;
      } else if sub == 0x0b {
        s := [0x87, 0x00, 0x20, 0x01, 0x0c, 0x00, 0x8e, 0x00];
      } else {
        return Died(3, sub, rcv), w;
      }
      r := Store(rcv, s);
    }

    /** mie_probe_reply */
    method MieProbeReply(f: Head, rcv: u32) returns (r: Outcome)
      requires Ready()
      modifies `ram
      ensures ram == Put(old(ram), rcv, Ladder(blobs, f))
      ensures r == if Hits(own, rcv, |Ladder(blobs, f)|) then Trampled else Returned
    {
      var s: seq<byte> := [];
      if f[8] == 0x01 {
        s := Echo(f, 0x05, 0);
      } else if f[8] == 0x02 {
        s := Echo(f, 0x06, 0);
      } else if f[8] == 0x82 {
        s := Echo(f, 0x83, 7) + blobs.id[..28] + Echo(f, 0x83, 5) + blobs.id[28..];
      } else if f[8] == 0x80 && f[0x0d] != 0xff {
        var sum := 0;
        for k := 0 to 0x1c
          invariant sum == Sum(f, 0x0c, 0x0c + k)
        {
          sum := sum + f[0x0c + k] as int;
        }
        s := Echo(f, 0x80, 1) + [sum % 0x100, 0, 0, 0] + Echo(f, 0x07, 0);
      } else {
        s := Echo(f, 0x07, 0);
      }
      r := Store(rcv, s);
    }

    /** One turn of the walk's loop, short of moving on. */
    method Serve(addr: u32) returns (r: Outcome, ghost v: Visit)
      requires Ready()
      modifies `ram, `pending, `padA, `padB
      ensures v.addr == addr && v.ram == old(ram) && v.latch == old(pending)
      ensures r.Returned? ==> Ready() && v.Legal(blobs) && ram == v.RamAfter() && pending == v.LatchAfter()
      ensures if r.Returned? then !Tramples(own, v) else Stops(blobs, own, v, r)
    {
      var f := HeadAt(ram, addr);
      var rcv := Receive(f);
      v := Visit(addr, ram, pending, f, World(padA, padB, true), Quiet);
      r := Returned;
      if Start(f) {
        if Mie(f) {
          var sub := Sub(f);
          if sub == 0x17 || sub == 0x19 || sub == 0x21 {
            pending := f[0x14];
          } else if sub == 0x27 {
            pending := 0xff;
          }
          if InRam(rcv) {
            ghost var w;
            r, w := MapleReply(sub, rcv);
            v := v.(world := w, act := Due(blobs, f, v.latch, w));
          }
        } else if InRam(rcv) {
          r := MieProbeReply(f, rcv);
          v := v.(act := Reply(Ladder(blobs, f)));
        }
      }
    }

    /** The walk: entry after entry until one is marked last, at most CAP of them. */
    method Walk(base: u32) returns (r: Outcome, ghost vs: seq<Visit>)
      requires Ready() && InRam(base)
      modifies `ram, `pending, `padA, `padB
      ensures r.Returned? ==> Ready() && Whole(blobs, vs, base, old(ram), old(pending)) && Untrampled(own, vs)
      ensures r.Returned? ==> ram == EndRam(vs, old(ram)) && pending == EndLatch(vs, old(pending))
      ensures Trail(vs, base, old(ram), old(pending)) && 0 < |vs| <= CAP
      ensures !r.Returned? ==> AllLegal(blobs, vs[..|vs| - 1]) && Stops(blobs, own, vs[|vs| - 1], r)
    {
      InRamExactly(base);
      r, vs := Returned, [];
      var addr: u32 := base;
      for i := 0 to CAP
        invariant r.Returned? && Ready() && |vs| == i && Trail(vs, base, old(ram), old(pending)) && AllLegal(blobs, vs)
        invariant addr == EndAddr(vs, base) && base <= addr <= base + 1032 * i
        invariant ram == EndRam(vs, old(ram)) && pending == EndLatch(vs, old(pending))
        invariant Untrampled(own, vs) && (vs != [] ==> !Last(vs[i - 1].frame))
      {
        var f := HeadAt(ram, addr);
        ghost var v;
        r, v := Serve(addr);
        TrailNext(vs, v, base, old(ram), old(pending));
        if !r.Returned? {
          assert (vs + [v])[..|vs|] == vs;
          vs := vs + [v];
          return;
        }
        LegalNext(blobs, vs, v);
        vs := vs + [v];
        if Last(f) {
          return;
        }
        StrideBounds(f);
        addr := addr + Stride(f);
      }
    }

    // ---- frames and runs ----

    /** The game's engine: it may do anything to memory. What it may rely on is its precondition. */
    method Engine() returns (rc: int)
      requires !Triggered(ram) && freePlay == 1
      modifies `ram, `freePlay
    {
      var m: Ram, flag: int := *, *;
      ram, freePlay := m, flag;
      rc := *;
    }

    /** One frame. The ghosts are the memory the engine left and the entries visited. */
    method Steady() returns (r: Outcome, rc: int, ghost m: Ram, ghost vs: seq<Visit>)
      requires Valid() && !Triggered(ram)
      modifies this
      ensures r.Returned? ==> Valid() && !Triggered(ram) && history == old(history) + vs
      ensures r.Returned? ==> Serviced(blobs, m, vs, old(pending), ram) && pending == EndLatch(vs, old(pending))
      ensures if r.Returned? then Untrampled(own, vs) else vs != [] && Stops(blobs, own, vs[|vs| - 1], r)
    {
      r, vs := Returned, [];
      freePlay := 1;
      rc := Engine();
      m := ram;
      TriggerField(ram);
      if Triggered(ram) {
        AddressField(Word(ram, MDSTAR));
        var base := Word(ram, MDSTAR) % 0x2000_0000 / 32 * 32;
        if InRam(base) {
          r, vs := Walk(base);
          if !r.Returned? {
            return;
          }
          ChainGrows(blobs, history, vs, base, m);
          history := history + vs;
        }
        ram := Put(ram, MDST, Pack32(0));
        Cleared(EndRam(vs, m));
      }
    }

    /** Any number of frames. Every call of the engine meets its precondition: it never finds the
        transaction it started still pending. run is the frames played to their end, stop the entry at
        which the machine stopped, if it did. */
    method Run(frames: nat) returns (r: Outcome, ghost run: seq<Frame>, ghost stop: Option<Visit>)
      requires Valid() && !Triggered(ram)
      modifies this
      ensures Played(blobs, own, run, old(pending))
      ensures if r.Returned? then Valid() && !Triggered(ram) && |run| == frames
              else |run| < frames && stop.Some? && Stops(blobs, own, stop.value, r)
    {
      r, run, stop := Returned, [], None;
      for i := 0 to frames
        invariant r.Returned? && Valid() && !Triggered(ram) && |run| == i
        invariant Played(blobs, own, run, old(pending)) && pending == RunLatch(run, old(pending))
      {
        var rc;
        ghost var m, vs;
        ghost var latch := pending;
        r, rc, m, vs := Steady();
        if !r.Returned? {
          stop := Some(vs[|vs| - 1]);
          return;
        }
        PlayedNext(blobs, own, run, old(pending), Frame(m, latch, vs, ram));
        run := run + [Frame(m, latch, vs, ram)];
      }
    }
  }

  // ---- the latch over a whole run ----

  predicate LastWire(h: seq<Visit>, k: nat, i: nat)
    requires k <= i < |h|
  {
    WireOf(h[k].frame).Some? && forall j | k < j <= i :: WireOf(h[j].frame).None?
  }

  /** The board is a one-variable machine: after any visit of any run, the latch is what the last command or
      reset anywhere before put there, whatever list it was in and whether or not it was answered. */
  lemma {:induction false} LatchIsLastWire(t: Blobs, h: seq<Visit>, i: nat) returns (k: int)
    requires t.Fit() && Chained(t, h) && i < |h|
    ensures -1 <= k <= i
    ensures k >= 0 ==> LastWire(h, k, i) && h[i].LatchAfter() == WireOf(h[k].frame).value.Value()
    ensures k == -1 ==> (forall j | 0 <= j <= i :: WireOf(h[j].frame).None?) && h[i].LatchAfter() == 0xff
    decreases i
  {
    assert LatchedAt(h, i);
    if WireOf(h[i].frame).Some? {
      k := i;
    } else if i == 0 {
      k := -1;
    } else {
      k := LatchIsLastWire(t, h, i - 1);
    }
  }

  /** Every receive of a run that is answered gets the board's reply to the last command sent; after a
      reset, another command or nothing at all, the live pad words. */
  lemma ReceiveAnswers(t: Blobs, h: seq<Visit>, i: nat) returns (k: int)
    requires t.Fit() && Chained(t, h) && i < |h|
    requires var f := h[i].frame; Start(f) && Mie(f) && Sub(f) == 0x15 && InRam(Receive(f))
    ensures -1 <= k < i && (k >= 0 ==> LastWire(h, k, i))
    ensures k == -1 ==> forall j | 0 <= j <= i :: WireOf(h[j].frame).None?
    ensures var cmd := if k == -1 then 0xff else WireOf(h[k].frame).value.Value();
            h[i].act == Reply(Received(t, cmd, h[i].world))
  {
    k := LatchIsLastWire(t, h, i);
    assert LegalAt(t, h, i);
  }

  // ---- one list: where it reads and what it leaves ----

  /** Visit i lies at most i strides of the longest entry above the base. */
  lemma {:induction false} TrailBounds(vs: seq<Visit>, base: int, m: Ram, latch: byte, i: nat)
    requires Trail(vs, base, m, latch) && i < |vs|
    ensures base + 12 * i <= vs[i].addr <= base + 1032 * i
  {
    if i == 0 {
    } else {
      assert Linked(vs, i);
      TrailBounds(vs, base, m, latch, i - 1);
      StrideBounds(vs[i - 1].frame);
    }
  }

  /** Every byte a walk reads, and every byte a reply routine reads, lies in [base, base + 31 * 1032 + 0x28):
      inside area 3, so no register is touched and no address wraps. */
  lemma ReadsStayNear(t: Blobs, vs: seq<Visit>, base: u32, m: Ram, latch: byte, i: nat, k: nat)
    requires t.Fit() && Whole(t, vs, base, m, latch) && InRam(base) && i < |vs| && k < HEAD
    ensures RAM <= base <= vs[i].addr + k < base + 31 * 1032 + 0x28 < 0x1000_0000
    ensures vs[i].frame[k] == vs[i].ram(Cell(vs[i].addr + k))
  {
    TrailBounds(vs, base, m, latch, i);
    InRamExactly(base);
    assert LegalAt(t, vs, i);
  }

  /** The entries of a list as it stands in memory, without answering any. */
  function Parse(m: Ram, addr: int, n: nat): seq<int>
    decreases n
  {
    if n == 0 then []
    else if Last(HeadAt(m, addr)) then [addr]
    else [addr] + Parse(m, addr + Stride(HeadAt(m, addr)), n - 1)
  }

  lemma {:induction false} ParseAt(m: Ram, addr: int, n: nat, i: nat)
    requires i < |Parse(m, addr, n)|
    ensures |Parse(m, addr, n)| <= n
    ensures var p := Parse(m, addr, n);
            if i == |p| - 1 then |p| == n || Last(HeadAt(m, p[i]))
            else !Last(HeadAt(m, p[i])) && p[i + 1] == p[i] + Stride(HeadAt(m, p[i]))
    decreases n
  {
    var f := HeadAt(m, addr);
    if Last(f) || n == 1 {
    } else {
      ParseAt(m, addr + Stride(f), n - 1, if i == 0 then 0 else i - 1);
    }
  }

  lemma ParseStarts(m: Ram, addr: int, n: nat)
    requires n > 0
    ensures Parse(m, addr, n) != [] && Parse(m, addr, n)[0] == addr
  {}

  predicate MissesAt(r: int, a: int, k: nat) { Away(Cell(a + k), r, 132) }

  /** The 132 bytes at r, the longest reply, miss the entry at a. */
  ghost predicate Misses(r: int, a: int) {
    forall k: nat | k < HEAD :: MissesAt(r, a, k)
  }

  ghost predicate SeparateAt(m: Ram, p: seq<int>, i: nat, j: nat)
    requires i < |p| && j < |p|
  {
    Misses(Receive(HeadAt(m, p[i])), p[j])
  }

  /** No receive buffer of the list overlaps an entry of the list. */
  ghost predicate Separate(m: Ram, p: seq<int>) {
    forall i: nat, j: nat | i < |p| && j < |p| && Receives(HeadAt(m, p[i])) :: SeparateAt(m, p, i, j)
  }

  ghost predicate SameEntry(m: Ram, m': Ram, p: seq<int>, j: nat)
    requires j < |p|
  {
    HeadAt(m', p[j]) == HeadAt(m, p[j])
  }

  /** Every listed entry reads in m' as in m. */
  ghost predicate SameEntries(m: Ram, m': Ram, p: seq<int>) {
    forall j: nat | j < |p| :: SameEntry(m, m', p, j)
  }

  lemma LegalReply(t: Blobs, vs: seq<Visit>, i: nat)
    requires t.Fit() && AllLegal(t, vs) && i < |vs|
    ensures vs[i].frame == HeadAt(vs[i].ram, vs[i].addr)
    ensures vs[i].act.Reply? ==> |vs[i].act.bytes| <= 132 && Receives(vs[i].frame)
  {
    assert LegalAt(t, vs, i);
  }

  lemma ReplyMisses(v: Visit, a: int)
    requires v.act.Reply? ==> |v.act.bytes| <= 132 && Misses(Receive(v.frame), a)
    ensures HeadAt(v.RamAfter(), a) == HeadAt(v.ram, a)
  {
    var f, g := HeadAt(v.RamAfter(), a), HeadAt(v.ram, a);
    forall k | 0 <= k < HEAD ensures f[k] == g[k] {
      if v.act.Reply? { assert MissesAt(Receive(v.frame), a, k); }
    }
  }

  /** When buffers and entries are separate, the walk visits exactly the entries the list had when it was
      triggered, and reads each as it was then. */
  lemma {:induction false} WalkIsParse(t: Blobs, vs: seq<Visit>, base: int, m: Ram, latch: byte, i: nat)
    requires t.Fit() && Trail(vs, base, m, latch) && AllLegal(t, vs) && i < |vs| <= CAP
    requires Separate(m, Parse(m, base, CAP))
    ensures var p := Parse(m, base, CAP);
            i < |p| && vs[i].addr == p[i] && vs[i].frame == HeadAt(m, p[i]) && SameEntries(m, vs[i].ram, p)
  {
    var p := Parse(m, base, CAP);
    ParseStarts(m, base, CAP);
    LegalReply(t, vs, i);
    if i > 0 {
      var v := vs[i - 1];
      assert Linked(vs, i);
      WalkIsParse(t, vs, base, m, latch, i - 1);
      ParseAt(m, base, CAP, i - 1);
      LegalReply(t, vs, i - 1);
      forall j: nat | j < |p| ensures SameEntry(m, vs[i].ram, p, j) {
        assert SameEntry(m, v.ram, p, j);
        if Receives(HeadAt(m, p[i - 1])) { assert SeparateAt(m, p, i - 1, j); }
        ReplyMisses(v, p[j]);
      }
    } else {
      forall j: nat | j < |p| ensures SameEntry(m, vs[0].ram, p, j) {}
    }
    assert SameEntry(m, vs[i].ram, p, i);
  }

  ghost predicate VisitedAt(vs: seq<Visit>, m: Ram, p: seq<int>, i: nat)
    requires i < |vs|
  {
    i < |p| && vs[i].addr == p[i] && vs[i].frame == HeadAt(m, p[i])
  }

  /** The whole list is visited: as many visits as entries. */
  lemma WalkIsWholeParse(t: Blobs, vs: seq<Visit>, base: int, m: Ram, latch: byte)
    requires t.Fit() && Whole(t, vs, base, m, latch) && Separate(m, Parse(m, base, CAP))
    ensures |vs| == |Parse(m, base, CAP)|
    ensures forall i: nat | i < |vs| :: VisitedAt(vs, m, Parse(m, base, CAP), i)
  {
    var p := Parse(m, base, CAP);
    WalkIsParse(t, vs, base, m, latch, |vs| - 1);
    ParseAt(m, base, CAP, |vs| - 1);
    forall i: nat | i < |vs| ensures VisitedAt(vs, m, p, i) { WalkIsParse(t, vs, base, m, latch, i); }
  }

  // ---- a list as the game lays it out ----

  /** A transfer: a header word, a receive address and the words of the frame. */
  datatype Descriptor = Descriptor(header: u32, receive: u32, frame: seq<u32>)
  {
    /** The low byte of the header counts the frame's words, from one. */
    predicate Counted() { 1 <= |frame| <= 256 && Bits.And(header, 0xff) == |frame| - 1 }
  }

  /** Where entry i starts: every entry before it takes two words and its frame. */
  function Offset(ds: seq<Descriptor>, i: nat): nat
    requires i <= |ds|
  {
    if i == 0 then 0 else Offset(ds, i - 1) + 4 * (2 + |ds[i - 1].frame|)
  }

  predicate WordIs(m: Ram, a: int, k: nat, w: u32) { Word(m, a + 4 * k) == w }

  ghost predicate LaidAt(m: Ram, a: int, d: Descriptor) {
    && WordIs(m, a, 0, d.header) && WordIs(m, a, 1, d.receive)
    && forall k: nat | k < |d.frame| :: WordIs(m, a, k + 2, d.frame[k])
  }

  predicate Ends(ds: seq<Descriptor>, i: nat)
    requires i < |ds|
  {
    Bits.Bit(ds[i].header, 31) <==> i == |ds| - 1
  }

  ghost predicate EntryLaid(m: Ram, base: int, ds: seq<Descriptor>, i: nat)
    requires i < |ds|
  {
    ds[i].Counted() && LaidAt(m, base + Offset(ds, i), ds[i]) && Ends(ds, i)
  }

  /** Memory at base is the descriptors one after another, the last one and no other marked last. */
  ghost predicate LaidOut(m: Ram, base: int, ds: seq<Descriptor>) {
    ds != [] && forall i: nat | i < |ds| :: EntryLaid(m, base, ds, i)
  }

  function Visited(n: nat): nat { if n < 32 then n else 32 }

  /** The addresses of the entries a walk gets to. */
  function Places(base: int, ds: seq<Descriptor>): (p: seq<int>)
    ensures |p| == Visited(|ds|)
  {
    seq(Visited(|ds|), i requires 0 <= i < Visited(|ds|) => base + Offset(ds, i))
  }

  lemma HeadWord(m: Ram, a: int, k: nat, w: u32)
    requires 4 * k + 4 <= HEAD && WordIs(m, a, k, w)
    ensures Le32(HeadAt(m, a), 4 * k) == w
  {
    var f, b := HeadAt(m, a), Bytes(m, a + 4 * k, 4);
    assert f[4 * k] == b[0] && f[4 * k + 1] == b[1] && f[4 * k + 2] == b[2] && f[4 * k + 3] == b[3];
  }

  predicate FrameWord(f: Head, k: nat, w: u32)
    requires k < 8
  {
    Le32(f, 8 + 4 * k) == w
  }

  /** The entry reads as the descriptor, as far as it is read. */
  ghost predicate Reads(f: Head, d: Descriptor) {
    && Le32(f, 0) == d.header && Le32(f, 4) == d.receive
    && forall k: nat | k < |d.frame| && k < 8 :: FrameWord(f, k, d.frame[k])
  }

  lemma HeadReads(m: Ram, a: int, d: Descriptor)
    requires LaidAt(m, a, d)
    ensures Reads(HeadAt(m, a), d)
  {
    HeadWord(m, a, 0, d.header);
    HeadWord(m, a, 1, d.receive);
    forall k: nat | k < |d.frame| && k < 8 ensures FrameWord(HeadAt(m, a), k, d.frame[k]) {
      assert WordIs(m, a, k + 2, d.frame[k]);
      HeadWord(m, a, k + 2, d.frame[k]);
    }
  }

  lemma EntryLength(f: Head, d: Descriptor)
    requires d.Counted() && Le32(f, 0) == d.header
    ensures Stride(f) == 4 * (2 + |d.frame|) && (Last(f) <==> Bits.Bit(d.header, 31))
  {
    HeaderFields(f);
  }

  lemma EntryReads(m: Ram, base: int, ds: seq<Descriptor>, i: nat, a: int)
    requires LaidOut(m, base, ds) && i < |ds| && a == base + Offset(ds, i)
    ensures Reads(HeadAt(m, a), ds[i])
  {
    assert EntryLaid(m, base, ds, i);
    HeadReads(m, a, ds[i]);
  }

  /** The entry is the last one laid, or the next one follows it. */
  lemma EntryEnds(m: Ram, base: int, ds: seq<Descriptor>, i: nat, a: int)
    requires LaidOut(m, base, ds) && i < |ds| && a == base + Offset(ds, i)
    ensures Last(HeadAt(m, a)) <==> i == |ds| - 1
    ensures i < |ds| - 1 ==> a + Stride(HeadAt(m, a)) == base + Offset(ds, i + 1)
  {
    EntryReads(m, base, ds, i, a);
    assert EntryLaid(m, base, ds, i) && Ends(ds, i);
    EntryLength(HeadAt(m, a), ds[i]);
  }

  /** Place j of the entries from i on. */
  predicate PlaceAt(p: seq<int>, base: int, ds: seq<Descriptor>, i: nat, j: nat)
    requires j < |p| && i + j <= |ds|
  {
    p[j] == base + Offset(ds, i + j)
  }

  ghost predicate PlacesFrom(p: seq<int>, base: int, ds: seq<Descriptor>, i: nat, n: nat) {
    && i <= |ds| && |p| == (if n < |ds| - i then n else |ds| - i)
    && forall j: nat | j < |p| :: PlaceAt(p, base, ds, i, j)
  }

  lemma PlacesNext(p: seq<int>, q: seq<int>, base: int, ds: seq<Descriptor>, i: nat, n: nat)
    requires n > 0 && i < |ds| && PlacesFrom(q, base, ds, i + 1, n - 1) && p == [base + Offset(ds, i)] + q
    ensures PlacesFrom(p, base, ds, i, n)
  {
    forall j: nat | j < |p| ensures PlaceAt(p, base, ds, i, j) {
      if j > 0 {
        assert PlaceAt(q, base, ds, i + 1, j - 1);
        assert i + 1 + (j - 1) == i + j;
      }
    }
  }

  lemma ParseNext(m: Ram, a: int, n: nat)
    requires n > 0
    ensures Parse(m, a, n) == [a] + if Last(HeadAt(m, a)) then [] else Parse(m, a + Stride(HeadAt(m, a)), n - 1)
  {}

  lemma {:induction false} ParseFrom(m: Ram, base: int, ds: seq<Descriptor>, i: nat, n: nat, a: int)
    requires LaidOut(m, base, ds) && i < |ds| && a == base + Offset(ds, i)
    ensures PlacesFrom(Parse(m, a, n), base, ds, i, n)
    decreases n
  {
    if n == 0 {
    } else {
      EntryEnds(m, base, ds, i, a);
      ParseNext(m, a, n);
      if i == |ds| - 1 {
        PlacesNext([a], [], base, ds, i, n);
      } else {
        var next := base + Offset(ds, i + 1);
        ParseFrom(m, base, ds, i + 1, n - 1, next);
        PlacesNext(Parse(m, a, n), Parse(m, next, n - 1), base, ds, i, n);
      }
    }
  }

  lemma ParseIsPlaces(m: Ram, base: int, ds: seq<Descriptor>)
    requires LaidOut(m, base, ds)
    ensures Parse(m, base, CAP) == Places(base, ds)
  {
    ParseFrom(m, base, ds, 0, CAP, base);
    var p, q := Parse(m, base, CAP), Places(base, ds);
    forall j: nat | j < |p| ensures p[j] == q[j] { assert PlaceAt(p, base, ds, 0, j); }
  }

  ghost predicate EntrySeen(vs: seq<Visit>, base: int, ds: seq<Descriptor>, i: nat)
    requires i < |vs| && i < |ds|
  {
    vs[i].addr == base + Offset(ds, i) && Reads(vs[i].frame, ds[i])
  }

  /** A list laid out in memory, its buffers apart from it: the walk visits its entries, each at the running
      sum of the lengths before it, up to the one marked last or the thirty-second, and reads each as laid. */
  lemma ListVisited(t: Blobs, vs: seq<Visit>, base: int, m: Ram, latch: byte, ds: seq<Descriptor>)
    requires t.Fit() && Whole(t, vs, base, m, latch) && LaidOut(m, base, ds) && Separate(m, Places(base, ds))
    ensures |vs| == if |ds| < 32 then |ds| else 32
    ensures forall i: nat | i < |vs| :: EntrySeen(vs, base, ds, i)
  {
    ParseIsPlaces(m, base, ds);
    WalkIsWholeParse(t, vs, base, m, latch);
    forall i: nat | i < |vs| ensures EntrySeen(vs, base, ds, i) {
      assert VisitedAt(vs, m, Places(base, ds), i);
      EntryReads(m, base, ds, i, base + Offset(ds, i));
    }
  }

  /** The start-of-frame test on a header word, and the window test on a receive word. */
  predicate Command(d: Descriptor) {
    Bits.And(Bits.Shr(d.header, 8), 7) == 0 && 0x0c00_0000 <= Bits.And(d.receive, 0x1fff_ffe0) < 0x0e00_0000
  }

  predicate ForBoard(w: u32) {
    Bits.And(w, 0xff) == 0x86 && Bits.And(Bits.Shr(w, 8), 0xff) == 0x20
  }

  lemma SubField(f: Head)
    ensures Sub(f) == Bits.And(Le32(f, 0x0c), 0xff)
  {
    Bits.Pow2Values();
    Bits.AndMask(Le32(f, 0x0c), 8);
    WordParts(f, 0x0c);
  }

  lemma ReadsCommand(f: Head, d: Descriptor)
    requires Reads(f, d)
    ensures Start(f) <==> Bits.And(Bits.Shr(d.header, 8), 7) == 0
    ensures Receive(f) == Bits.And(d.receive, 0x1fff_ffe0)
  {
    HeaderFields(f);
    ReceiveField(f);
  }

  lemma ReadsBoard(f: Head, d: Descriptor)
    requires Reads(f, d) && |d.frame| >= 1
    ensures Mie(f) <==> ForBoard(d.frame[0])
  {
    assert FrameWord(f, 0, d.frame[0]);
    FrameFields(f);
  }

  lemma ReadsSub(f: Head, d: Descriptor)
    requires Reads(f, d) && |d.frame| >= 2
    ensures Sub(f) == Bits.And(d.frame[1], 0xff)
  {
    assert FrameWord(f, 1, d.frame[1]);
    SubField(f);
  }

  lemma CommandField(f: Head)
    ensures f[0x14] == Bits.And(Le32(f, 0x14), 0xff)
  {
    Bits.Pow2Values();
    Bits.AndMask(Le32(f, 0x14), 8);
    WordParts(f, 0x14);
  }

  /** The latch a frame leaves, by its words: the command of a transmit, 0xff after a reset. */
  function LatchOf(d: Descriptor, latch: byte): nat
    requires |d.frame| >= 4
  {
    var sub := Bits.And(d.frame[1], 0xff);
    if Bits.And(Bits.Shr(d.header, 8), 7) != 0 || !ForBoard(d.frame[0]) then latch
    else if sub == 0x17 || sub == 0x19 || sub == 0x21 then Bits.And(d.frame[3], 0xff)
    else if sub == 0x27 then 0xff else latch
  }

  lemma ReadsLatch(f: Head, d: Descriptor, latch: byte)
    requires Reads(f, d) && |d.frame| >= 4
    ensures Latched(latch, f) == LatchOf(d, latch)
  {
    ReadsCommand(f, d);
    ReadsBoard(f, d);
    ReadsSub(f, d);
    assert FrameWord(f, 3, d.frame[3]);
    CommandField(f);
  }

  /** What each entry of such a list gets, by its words: nothing, unless it is a command with a buffer in the
      window; then one reply, at that buffer: the board's answer to the subcommand, or the ladder's. */
  lemma ListAnswered(t: Blobs, vs: seq<Visit>, base: int, m: Ram, latch: byte, ds: seq<Descriptor>, i: nat)
    requires t.Fit() && Whole(t, vs, base, m, latch) && LaidOut(m, base, ds) && Separate(m, Places(base, ds))
    requires i < |vs|
    ensures i < |ds| && vs[i].addr == base + Offset(ds, i) && ds[i].Counted()
    ensures |ds[i].frame| >= 4 ==> vs[i].LatchAfter() == LatchOf(ds[i], vs[i].latch)
    ensures var v, d := vs[i], ds[i];
            if !Command(d) then v.act == Quiet && v.RamAfter() == v.ram
            else v.act.Reply? && v.RamAfter() == Put(v.ram, Bits.And(d.receive, 0x1fff_ffe0), v.act.bytes)
                 && (!ForBoard(d.frame[0]) ==> v.act.bytes == Ladder(t, v.frame))
                 && (ForBoard(d.frame[0]) && |d.frame| >= 2 ==>
                      Answer(t, Bits.And(d.frame[1], 0xff), v.LatchAfter(), v.world) == Some(v.act.bytes))
  {
    ListVisited(t, vs, base, m, latch, ds);
    assert EntrySeen(vs, base, ds, i) && EntryLaid(m, base, ds, i) && LegalAt(t, vs, i);
    ReadsCommand(vs[i].frame, ds[i]);
    ReadsBoard(vs[i].frame, ds[i]);
    if |ds[i].frame| >= 2 { ReadsSub(vs[i].frame, ds[i]); }
    if |ds[i].frame| >= 4 { ReadsLatch(vs[i].frame, ds[i], vs[i].latch); }
    InRamExactly(Receive(vs[i].frame));
  }

  // ---- what the replies leave in memory ----

  /** Visit i did not store to cell x. */
  predicate SparedAt(vs: seq<Visit>, i: nat, x: int)
    requires i < |vs|
  {
    vs[i].act.Reply? ==> Away(x, Receive(vs[i].frame), |vs[i].act.bytes|)
  }

  /** The byte at cell x lies in none of the replies from visit j on. */
  ghost predicate Spared(vs: seq<Visit>, j: nat, x: int) {
    forall i: nat | j <= i < |vs| :: SparedAt(vs, i, x)
  }

  lemma {:induction false} RepliesStand(vs: seq<Visit>, base: int, m: Ram, latch: byte, j: nat, x: nat)
    requires Trail(vs, base, m, latch) && j < |vs| && Spared(vs, j, x)
    ensures EndRam(vs, m)(x) == vs[j].ram(x)
    decreases |vs| - j
  {
    assert SparedAt(vs, j, x);
    if j + 1 == |vs| {
    } else {
      RepliesStand(vs, base, m, latch, j + 1, x);
      assert Linked(vs, j + 1);
    }
  }

  /** Memory no reply covers is as the engine left it. */
  lemma Untouched(vs: seq<Visit>, base: int, m: Ram, latch: byte, x: nat)
    requires Trail(vs, base, m, latch) && Spared(vs, 0, x)
    ensures EndRam(vs, m)(x) == m(x)
  {
    if vs != [] {
      RepliesStand(vs, base, m, latch, 0, x);
    }
  }

  /** A byte of a reply that no later reply covers stands when the walk is over. */
  lemma ReplyDelivered(vs: seq<Visit>, base: int, m: Ram, latch: byte, i: nat, k: nat)
    requires Trail(vs, base, m, latch) && i < |vs| && vs[i].act.Reply? && k < |vs[i].act.bytes| <= 132
    requires Spared(vs, i + 1, Cell(Receive(vs[i].frame) + k))
    ensures EndRam(vs, m)(Cell(Receive(vs[i].frame) + k)) == vs[i].act.bytes[k]
  {
    var v := vs[i];
    PutAt(v.ram, Receive(v.frame), v.act.bytes, k);
    if i + 1 < |vs| {
      assert Linked(vs, i + 1);
      RepliesStand(vs, base, m, latch, i + 1, Cell(Receive(v.frame) + k));
    }
  }

  /** Byte k of the buffer of entry i misses the buffer of entry j. */
  ghost predicate DisjointAt(m: Ram, p: seq<int>, i: nat, j: nat, k: nat)
    requires i < |p| && j < |p|
  {
    Away(Cell(Receive(HeadAt(m, p[i])) + k), Receive(HeadAt(m, p[j])), 132)
  }

  /** No later entry's buffer overlaps that of entry i. */
  ghost predicate LaterMiss(m: Ram, p: seq<int>, i: nat)
    requires i < |p|
  {
    forall j: nat, k: nat | i < j < |p| && k < 132 && Receives(HeadAt(m, p[j])) :: DisjointAt(m, p, i, j, k)
  }

  lemma ReceiveAligned(f: Head)
    ensures Receive(f) % 32 == 0
  {}

  lemma DueNotQuiet(t: Blobs, f: Head, latch: byte, w: World)
    requires t.Fit() && Receives(f)
    ensures !Due(t, f, latch, w).Quiet?
  {}

  lemma DueIsReply(t: Blobs, vs: seq<Visit>, i: nat)
    requires t.Fit() && AllLegal(t, vs) && i < |vs| && Receives(vs[i].frame)
    ensures vs[i].act == Due(t, vs[i].frame, vs[i].latch, vs[i].world) && vs[i].act.Reply?
    ensures |vs[i].act.bytes| <= 132 && Receive(vs[i].frame) % 32 == 0
  {
    var v := vs[i];
    assert v.act == Due(t, v.frame, v.latch, v.world) && !v.act.Die? by { assert LegalAt(t, vs, i); }
    DueNotQuiet(t, v.frame, v.latch, v.world);
    ReceiveAligned(v.frame);
  }

  /** A list as triggered, its receive buffers apart from its entries: each frame with a buffer in RAM gets
      exactly one reply, its due, of at most 132 bytes at a 32-byte-aligned address, whether or not buffers
      are shared. */
  lemma EachFrameAnswered(t: Blobs, vs: seq<Visit>, base: int, m: Ram, latch: byte, i: nat)
    requires t.Fit() && Whole(t, vs, base, m, latch) && Separate(m, Parse(m, base, CAP))
    requires i < |Parse(m, base, CAP)| && Receives(HeadAt(m, Parse(m, base, CAP)[i]))
    ensures i < |vs| == |Parse(m, base, CAP)| && vs[i].addr == Parse(m, base, CAP)[i]
    ensures var f := HeadAt(m, Parse(m, base, CAP)[i]);
            && vs[i].frame == f && vs[i].act == Due(t, f, vs[i].latch, vs[i].world) && vs[i].act.Reply?
            && |vs[i].act.bytes| <= 132 && Receive(f) % 32 == 0
  {
    WalkIsWholeParse(t, vs, base, m, latch);
    assert VisitedAt(vs, m, Parse(m, base, CAP), i);
    DueIsReply(t, vs, i);
  }

  ghost predicate Delivered(vs: seq<Visit>, m: Ram, f: Head, i: nat, k: nat)
    requires i < |vs| && vs[i].act.Reply? && k < |vs[i].act.bytes|
  {
    EndRam(vs, m)(Cell(Receive(f) + k)) == vs[i].act.bytes[k]
  }

  lemma LaterSpare(t: Blobs, vs: seq<Visit>, m: Ram, p: seq<int>, i: nat, k: nat)
    requires t.Fit() && AllLegal(t, vs) && |vs| == |p| && i < |p| && k < 132 && LaterMiss(m, p, i)
    requires Receives(vs[i].frame) && forall j: nat | j < |vs| :: VisitedAt(vs, m, p, j)
    ensures Spared(vs, i + 1, Cell(Receive(vs[i].frame) + k))
  {
    var x := Cell(Receive(vs[i].frame) + k);
    assert VisitedAt(vs, m, p, i);
    forall j: nat | i + 1 <= j < |vs| ensures SparedAt(vs, j, x) {
      assert VisitedAt(vs, m, p, j);
      LegalReply(t, vs, j);
      if vs[j].act.Reply? { assert DisjointAt(m, p, i, j, k); }
    }
  }

  /** And where no later frame shares the buffer, the reply is in memory when the walk is over. */
  lemma EachReplyDelivered(t: Blobs, vs: seq<Visit>, base: int, m: Ram, latch: byte, i: nat)
    requires t.Fit() && Whole(t, vs, base, m, latch) && Separate(m, Parse(m, base, CAP))
    requires i < |Parse(m, base, CAP)| && Receives(HeadAt(m, Parse(m, base, CAP)[i]))
    requires LaterMiss(m, Parse(m, base, CAP), i)
    ensures i < |vs| && vs[i].act.Reply?
    ensures forall k: nat | k < |vs[i].act.bytes| :: Delivered(vs, m, HeadAt(m, Parse(m, base, CAP)[i]), i, k)
  {
    var p := Parse(m, base, CAP);
    EachFrameAnswered(t, vs, base, m, latch, i);
    WalkIsWholeParse(t, vs, base, m, latch);
    forall k: nat | k < |vs[i].act.bytes| ensures Delivered(vs, m, vs[i].frame, i, k) {
      LaterSpare(t, vs, m, p, i, k);
      ReplyDelivered(vs, base, m, latch, i, k);
    }
  }
}
