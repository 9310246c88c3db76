/** The infrared frame of the air conditioner: payload, complement protection, pulses, and a reader. */
module IrProtocol {
  import opened Bytes
  import opened DataStream

  // ---------- states and pulses ----------

  type UInt8 = x: int | 0 <= x < 256

  datatype AcMode = Off | Ventilation | Cooling | Dehumidify | Heating

  datatype FanSpeed = Fan1 | Fan2 | Fan3 | Fan4 | FanAuto | Fan5

  datatype AcState = AcState(power: bool, mode: AcMode, temp: UInt8, fan: FanSpeed)

  /** A mark and a space, in microseconds. */
  datatype IrPulse = IrPulse(mark: nat, space: nat)

  const IR_MAX_PULSES := 430
  const FRAME_PULSES := 427
  const PAYLOAD_LEN := 25
  const COMMAND_LEN := 53

  const WAKEUP := IrPulse(30000, 49500)
  const HEADER := IrPulse(3380, 1700)
  const BIT_MARK: nat := 384
  const ONE_SPACE: nat := 1234
  const ZERO_SPACE: nat := 399
  const TRAIL := IrPulse(BIT_MARK, 0)

  function ModeCode(mode: AcMode): bv8 {
    match mode
    case Off => 0x0
    case Ventilation => 0x1
    case Cooling => 0x3
    case Dehumidify => 0x5
    case Heating => 0x6
  }

  function FanCode(fan: FanSpeed): bv8 {
    match fan
    case Fan1 => 0x1
    case Fan2 => 0x2
    case Fan3 => 0x3
    case Fan4 => 0x4
    case FanAuto => 0x5
    case Fan5 => 0x6
  }

  // ---------- what a frame says ----------

  /** The flags byte: power, and whether the mode heats or cools. */
  function FlagsByte(state: AcState): bv8 {
    if !state.power then 0xE1 else if state.mode == Heating || state.mode == Cooling then 0xF1 else 0xF0
  }

  function FanModeByte(state: AcState): bv8 {
    (FanCode(state.fan) << 4) | ModeCode(if state.power then state.mode else Heating)
  }

  /** The payload byte by byte: three bytes depend on the state, the rest are fixed. */
  function RawByte(state: AcState, i: nat): bv8 {
    if i == 5 then ByteFrom(state.temp * 4)
    else if i == 11 then FanModeByte(state)
    else if i == 12 then FlagsByte(state)
    else FixedByte(i)
  }

  function FixedByte(i: nat): bv8 {
    match i
    case 0 => 0x40
    case 1 => 0xFF
    case 2 => 0xCC
    case 3 => 0x92
    case 4 => 0x13
    case 15 => 0x80
    case 16 => 0x03
    case 17 => 0x01
    case 18 => 0x88
    case _ => if 21 <= i then 0xFF else 0
  }

  function RawBytes(state: AcState): (raw: seq<bv8>)
    ensures |raw| == PAYLOAD_LEN
  {
    seq(PAYLOAD_LEN, i requires 0 <= i < PAYLOAD_LEN => RawByte(state, i))
  }

  function Complement(b: bv8): bv8 {
    b ^ 0xFF
  }

  function PreambleByte(i: nat): bv8 {
    if i == 0 then 0x01 else if i == 1 then 0x10 else 0x00
  }

  /** The preamble, then every payload byte followed by its complement. */
  function CommandByte(raw: seq<bv8>, i: nat): bv8
    requires i < 2 * |raw| + 3
  {
    if i < 3 then PreambleByte(i) else if i % 2 == 1 then raw[(i - 3) / 2] else Complement(raw[(i - 4) / 2])
  }

  function CommandOf(raw: seq<bv8>): (cmd: seq<bv8>)
    ensures |cmd| == 2 * |raw| + 3
  {
    seq(2 * |raw| + 3, i requires 0 <= i < 2 * |raw| + 3 => CommandByte(raw, i))
  }

  function BitPulse(one: bool): IrPulse {
    IrPulse(BIT_MARK, if one then ONE_SPACE else ZERO_SPACE)
  }

  /** Wakeup, header, the bits of all bytes with the least significant bit of each first, trail. */
  function PulsesOf(cmd: seq<bv8>): (pulses: seq<IrPulse>)
    ensures |pulses| == 8 * |cmd| + 3
  {
    [WAKEUP, HEADER] + seq(8 * |cmd|, k requires 0 <= k < 8 * |cmd| => BitPulse(Bit(cmd[k / 8], k % 8))) + [TRAIL]
  }

  function Frame(state: AcState): (pulses: seq<IrPulse>)
    ensures |pulses| == FRAME_PULSES
  {
    PulsesOf(CommandOf(RawBytes(state)))
  }

  // ---------- a reader ----------

  // The reader knows the protocol by its own numbers; it uses nothing of the encoder.

  ghost predicate SaysOne(p: IrPulse) {
    p.mark == 384 && p.space == 1234
  }

  ghost predicate SaysZero(p: IrPulse) {
    p.mark == 384 && p.space == 399
  }

  ghost predicate IsBitPulse(p: IrPulse) {
    SaysOne(p) || SaysZero(p)
  }

  /** The bits of byte b, most significant first: the reverse of the order in which they are sent. */
  ghost function ByteBits(pulses: seq<IrPulse>, b: nat): (bits: seq<bool>)
    requires 8 * b + 10 <= |pulses|
    ensures |bits| == 8 && forall i | 0 <= i < 8 :: bits[i] == SaysOne(pulses[2 + 8 * b + 7 - i])
  {
    seq(8, i requires 0 <= i < 8 => SaysOne(pulses[2 + 8 * b + 7 - i]))
  }

  ghost function ReadByte(pulses: seq<IrPulse>, b: nat): bv8
    requires 8 * b + 10 <= |pulses|
  {
    ByteOf(ByteBits(pulses, b))
  }

  /** Wakeup, header and trail, with nothing but bit pulses between them. */
  ghost predicate HasShape(pulses: seq<IrPulse>) {
    && |pulses| == 427
    && pulses[0] == IrPulse(30000, 49500) && pulses[1] == IrPulse(3380, 1700) && pulses[426] == IrPulse(384, 0)
    && (forall k | 2 <= k < 426 :: IsBitPulse(pulses[k]))
  }

  /** A frame of the right shape, whose preamble is right and whose bytes all have their complement behind them. */
  ghost predicate Accepted(pulses: seq<IrPulse>) {
    && HasShape(pulses)
    && ReadByte(pulses, 0) == 0x01 && ReadByte(pulses, 1) == 0x10 && ReadByte(pulses, 2) == 0x00
    && (forall i: nat | i < 25 :: ReadByte(pulses, 2 * i + 4) == ReadByte(pulses, 2 * i + 3) ^ 0xFF)
  }

  ghost function Payload(pulses: seq<IrPulse>): (raw: seq<bv8>)
    requires |pulses| == FRAME_PULSES
    ensures |raw| == PAYLOAD_LEN && forall i | 0 <= i < PAYLOAD_LEN :: raw[i] == ReadByte(pulses, 2 * i + 3)
  {
    hide ReadByte;
    seq(PAYLOAD_LEN, i requires 0 <= i < PAYLOAD_LEN => ReadByte(pulses, 2 * i + 3))
  }

  ghost function ReadFrame(pulses: seq<IrPulse>): Option<seq<bv8>> {
    if Accepted(pulses) then Some(Payload(pulses)) else None
  }

  lemma BitPulseSays(one: bool)
    ensures IsBitPulse(BitPulse(one)) && SaysOne(BitPulse(one)) == one
  {
  }

  lemma PulseAt(cmd: seq<bv8>, b: nat, i: nat)
    requires b < |cmd| && i < 8
    ensures PulsesOf(cmd)[2 + 8 * b + i] == BitPulse(Bit(cmd[b], i))
  {
    hide Bit, BitPulse;
    assert (8 * b + i) / 8 == b && (8 * b + i) % 8 == i;
  }

  lemma ReadByteOf(cmd: seq<bv8>, b: nat)
    requires b < |cmd|
    ensures ReadByte(PulsesOf(cmd), b) == cmd[b]
  {
    hide Bit, ByteOf, ByteBits, PulsesOf, BitPulse, SaysOne;
    forall i | 0 <= i < 8
      ensures ByteBits(PulsesOf(cmd), b)[i] == Bit(cmd[b], 7 - i)
    {
      PulseAt(cmd, b, 7 - i);
      BitPulseSays(Bit(cmd[b], 7 - i));
    }
    ByteOfBits(cmd[b], ByteBits(PulsesOf(cmd), b));
  }

  lemma DataPulses(cmd: seq<bv8>, k: nat)
    requires 2 <= k < 8 * |cmd| + 2
    ensures IsBitPulse(PulsesOf(cmd)[k])
  {
    hide PulsesOf, BitPulse, IsBitPulse, Bit;
    PulseAt(cmd, (k - 2) / 8, (k - 2) % 8);
    BitPulseSays(Bit(cmd[(k - 2) / 8], (k - 2) % 8));
  }

  /** Every payload comes back from its pulses, and passes all checks of the reader. */
  lemma FrameRoundTrip(raw: seq<bv8>)
    requires |raw| == PAYLOAD_LEN
    ensures ReadFrame(PulsesOf(CommandOf(raw))) == Some(raw)
  {
    hide Bit, ReadByte, IsBitPulse, CommandOf, PulsesOf, PreambleByte;
    var cmd := CommandOf(raw);
    var pulses := PulsesOf(cmd);
    FrameEnds(cmd);
    forall k | 2 <= k < 426
      ensures IsBitPulse(pulses[k])
    {
      DataPulses(cmd, k);
    }
    forall b: nat | b < COMMAND_LEN
      ensures ReadByte(pulses, b) == cmd[b]
    {
      ReadByteOf(cmd, b);
    }
    forall i: nat | i < PAYLOAD_LEN
      ensures ReadByte(pulses, 2 * i + 4) == Complement(ReadByte(pulses, 2 * i + 3)) &&
              ReadByte(pulses, 2 * i + 3) == raw[i]
    {
      CommandPair(raw, i);
      assert ReadByte(pulses, 2 * i + 3) == cmd[2 * i + 3] && ReadByte(pulses, 2 * i + 4) == cmd[2 * i + 4];
    }
    CommandPreamble(raw);
    PreambleIs();
    assert forall i: nat | i < 3 :: ReadByte(pulses, i) == cmd[i] == PreambleByte(i);
    assert Payload(pulses) == raw;
  }

  lemma CommandPair(raw: seq<bv8>, i: nat)
    requires i < |raw|
    ensures CommandOf(raw)[2 * i + 3] == raw[i] && CommandOf(raw)[2 * i + 4] == Complement(raw[i])
  {
  }

  lemma CommandPreamble(raw: seq<bv8>)
    ensures forall i: nat | i < 3 :: CommandOf(raw)[i] == PreambleByte(i)
  {
  }

  lemma PreambleIs()
    ensures PreambleByte(0) == 0x01 && PreambleByte(1) == 0x10 && PreambleByte(2) == 0x00
  {
  }

  lemma FrameEnds(cmd: seq<bv8>)
    ensures var p := PulsesOf(cmd); p[0] == WAKEUP && p[1] == HEADER && p[8 * |cmd| + 2] == TRAIL
  {
    hide Bit;
  }

  /** Changing one pulse of an accepted frame, whichever and however, gives a frame that is not accepted. */
  lemma SingleErrorDetected(pulses: seq<IrPulse>, k: nat, p: IrPulse)
    requires Accepted(pulses) && k < |pulses| && p != pulses[k]
    ensures !Accepted(pulses[k := p])
  {
    hide ReadByte, IsBitPulse;
    var damaged := pulses[k := p];
    assert damaged[k] == p;
    if 2 <= k < 426 && IsBitPulse(p) {
      assert IsBitPulse(pulses[k]);
      if k < 26 {
        PreambleError(pulses, k, p);
      } else {
        PayloadError(pulses, k, p);
      }
    }
  }

  lemma PreambleError(pulses: seq<IrPulse>, k: nat, p: IrPulse)
    requires Accepted(pulses) && 2 <= k < 26 && IsBitPulse(pulses[k]) && IsBitPulse(p) && p != pulses[k]
    ensures !Accepted(pulses[k := p])
  {
    hide ReadByte, IsBitPulse;
    ReadByteChanged(pulses, k, p);
    var b := (k - 2) / 8;
    assert b == 0 || b == 1 || b == 2;
  }

  lemma PayloadError(pulses: seq<IrPulse>, k: nat, p: IrPulse)
    requires |pulses| == FRAME_PULSES && Accepted(pulses) && 26 <= k < 426 && IsBitPulse(pulses[k]) && IsBitPulse(p) &&
             p != pulses[k]
    ensures !Accepted(pulses[k := p])
  {
    hide ReadByte, IsBitPulse, Accepted, Complement;
    var damaged := pulses[k := p];
    var b := (k - 2) / 8;
    var i := (b - 3) / 2;
    ReadByteChanged(pulses, k, p);
    AcceptedPair(pulses, i);
    if Accepted(damaged) {
      AcceptedPair(damaged, i);
      if b == 2 * i + 3 {
        ReadByteElsewhere(pulses, k, p, 2 * i + 4);
        ComplementsDiffer(ReadByte(pulses, b), ReadByte(damaged, b));
      } else {
        ReadByteElsewhere(pulses, k, p, 2 * i + 3);
      }
    }
  }

  lemma AcceptedPair(pulses: seq<IrPulse>, i: nat)
    requires Accepted(pulses) && i < PAYLOAD_LEN
    ensures |pulses| == FRAME_PULSES && ReadByte(pulses, 2 * i + 4) == Complement(ReadByte(pulses, 2 * i + 3))
  {
    hide ReadByte;
  }

  lemma ComplementsDiffer(a: bv8, b: bv8)
    requires a != b
    ensures Complement(a) != Complement(b)
  {
  }

  lemma ReadByteChanged(pulses: seq<IrPulse>, k: nat, p: IrPulse)
    requires |pulses| == FRAME_PULSES && 2 <= k < 426 && IsBitPulse(p) && IsBitPulse(pulses[k]) && p != pulses[k]
    ensures ReadByte(pulses, (k - 2) / 8) != ReadByte(pulses[k := p], (k - 2) / 8)
  {
    hide Bit, ByteOf, ByteBits;
    var b, i := (k - 2) / 8, 7 - (k - 2) % 8;
    assert 2 + 8 * b + 7 - i == k;
    BitsOfByte(ByteBits(pulses, b));
    BitsOfByte(ByteBits(pulses[k := p], b));
    hide BitsOf;
    assert ByteBits(pulses, b)[i] != ByteBits(pulses[k := p], b)[i];
  }

  lemma ReadByteElsewhere(pulses: seq<IrPulse>, k: nat, p: IrPulse, b: nat)
    requires |pulses| == FRAME_PULSES && 2 <= k < 426 && b < COMMAND_LEN && b != (k - 2) / 8
    ensures ReadByte(pulses, b) == ReadByte(pulses[k := p], b)
  {
    hide ByteOf;
    assert ByteBits(pulses, b) == ByteBits(pulses[k := p], b);
  }

  // ---------- the state in a frame ----------

  ghost function ReadMode(code: bv8): Option<AcMode> {
    if code == 0 then Some(Off) else if code == 1 then Some(Ventilation) else if code == 3 then Some(Cooling)
    else if code == 5 then Some(Dehumidify) else if code == 6 then Some(Heating) else None
  }

  ghost function ReadFan(code: bv8): Option<FanSpeed> {
    if code == 1 then Some(Fan1) else if code == 2 then Some(Fan2) else if code == 3 then Some(Fan3)
    else if code == 4 then Some(Fan4) else if code == 5 then Some(FanAuto) else if code == 6 then Some(Fan5) else None
  }

  lemma FrameLength(pulses: seq<IrPulse>)
    ensures ReadFrame(pulses) != None ==> |ReadFrame(pulses).value| == PAYLOAD_LEN
  {
  }

  lemma ByteInRange(b: bv8)
    ensures ByteValue(b) < 256
  {
    ByteFromValue(b);
  }

  /** The bytes by which the air conditioner knows its protocol; bytes 5, 11 and 12 are left to the state. */
  ghost predicate IsProtocolPayload(raw: seq<bv8>) {
    && |raw| == 25
    && raw[0] == 0x40 && raw[1] == 0xFF && raw[2] == 0xCC && raw[3] == 0x92 && raw[4] == 0x13
    && raw[6] == 0x00 && raw[7] == 0x00 && raw[8] == 0x00 && raw[9] == 0x00 && raw[10] == 0x00
    && raw[13] == 0x00 && raw[14] == 0x00
    && raw[15] == 0x80 && raw[16] == 0x03 && raw[17] == 0x01 && raw[18] == 0x88
    && raw[19] == 0x00 && raw[20] == 0x00
    && raw[21] == 0xFF && raw[22] == 0xFF && raw[23] == 0xFF && raw[24] == 0xFF
  }

  /** The flags that go with a mode code: one value when off, and when on one for heating or cooling, one for the
      other modes. */
  ghost predicate FlagsAgree(modeCode: bv8, flags: bv8) {
    flags == 0xE1 || flags == if modeCode == 3 || modeCode == 6 then 0xF1 else 0xF0
  }

  /** The state a receiver takes from a frame; it refuses a frame that is not of its protocol. */
  ghost function ReadState(pulses: seq<IrPulse>): Option<AcState> {
    hide ReadFrame, ByteValue, ReadMode, ReadFan, IsProtocolPayload, FlagsAgree;
    match ReadFrame(pulses)
    case None => None
    case Some(raw) =>
      FrameLength(pulses);
      var mode, fan := ReadMode(raw[11] & 0x0F), ReadFan(raw[11] >> 4);
      ByteInRange(raw[5]);
      if !IsProtocolPayload(raw) || !FlagsAgree(raw[11] & 0x0F, raw[12]) || mode == None || fan == None then None
      else Some(AcState(raw[12] & 0x10 != 0, mode.value, ByteValue(raw[5]) / 4, fan.value))
  }

  /** What of a state reaches the receiver: six bits of temperature, and the mode only when on. */
  function Effective(state: AcState): AcState {
    state.(temp := state.temp % 64, mode := if state.power then state.mode else Heating)
  }

  lemma FanModeRead(state: AcState)
    ensures ReadMode(FanModeByte(state) & 0x0F) == Some(Effective(state).mode)
    ensures ReadFan(FanModeByte(state) >> 4) == Some(state.fan)
    ensures (FlagsByte(state) & 0x10 != 0) == state.power
    ensures FlagsAgree(FanModeByte(state) & 0x0F, FlagsByte(state))
  {
  }

  /** Every payload carries the bytes of the protocol. */
  lemma RawIsProtocol(state: AcState)
    ensures IsProtocolPayload(RawBytes(state))
  {
    hide FanModeByte, FlagsByte, ByteFrom;
    var raw := RawBytes(state);
    assert forall i | 0 <= i < 25 && i != 5 && i != 11 && i != 12 :: raw[i] == FixedByte(i);
  }

  lemma TemperatureRead(t: UInt8)
    ensures ByteValue(ByteFrom(t * 4)) / 4 == t % 64
  {
    hide ByteValue, ByteFrom;
    LowByte(t * 4);
    ByteValueFrom((t * 4) % 256);
    DivUnique(t * 4, 256, t / 64, 4 * (t % 64));
  }

  lemma LowByte(n: nat)
    ensures ByteFrom(n) == ByteFrom(n % 256)
  {
    hide ByteOf;
    assert Pow2(8) == 256;
    LowBits(n, 8);
  }

  lemma {:induction false} LowBits(n: nat, k: nat)
    ensures NatBits(n, k) == NatBits(n % Pow2(k), k)
  {
    hide NatBits;
    if k == 0 {
      NatBitsStep(n, 0);
      NatBitsStep(n % Pow2(0), 0);
    } else {
      var p := Pow2(k - 1);
      HalfOfLow(n, p);
      LowBits(n / 2, k - 1);
      NatBitsStep(n, k);
      NatBitsStep(n % (2 * p), k);
    }
  }

  lemma NatBitsStep(n: nat, k: nat)
    ensures NatBits(n, k) == if k == 0 then [] else NatBits(n / 2, k - 1) + [n % 2 == 1]
  {
  }

  lemma HalfOfLow(n: nat, p: nat)
    requires p > 0
    ensures (n % (2 * p)) / 2 == (n / 2) % p && (n % (2 * p)) % 2 == n % 2
  {
    var q, r := (n / 2) / p, (n / 2) % p;
    assert n / 2 == q * p + r;
    assert n == q * (2 * p) + (2 * r + n % 2);
    DivUnique(n, 2 * p, q, 2 * r + n % 2);
  }

  /** The frame of a state is read back as what of it can reach the receiver. */
  lemma StateRoundTrip(state: AcState)
    ensures ReadState(Frame(state)) == Some(Effective(state))
  {
    hide PulsesOf, CommandOf, ByteValue, ByteFrom, FanModeByte, FlagsByte, ReadFrame, ReadMode, ReadFan,
         IsProtocolPayload, FlagsAgree, FixedByte;
    RawIsProtocol(state);
    var raw := RawBytes(state);
    FrameRoundTrip(raw);
    assert raw[5] == RawByte(state, 5) && raw[11] == RawByte(state, 11) && raw[12] == RawByte(state, 12);
    FanModeRead(state);
    TemperatureRead(state.temp);
  }

  lemma RawBytesEffective(state: AcState)
    ensures RawBytes(state) == RawBytes(Effective(state))
  {
    hide ByteFrom;
    LowByte(state.temp * 4);
    DivUnique(state.temp * 4, 256, state.temp / 64, 4 * (state.temp % 64));
  }

  /** Two states have the same frame exactly when they agree on power, fan, temperature modulo 64 and, when on, mode. */
  lemma SameFrame(a: AcState, b: AcState)
    ensures Frame(a) == Frame(b) <==>
            a.power == b.power && a.fan == b.fan && a.temp % 64 == b.temp % 64 && (a.power ==> a.mode == b.mode)
  {
    hide PulsesOf, CommandOf, RawBytes, ReadState;
    StateRoundTrip(a);
    StateRoundTrip(b);
    RawBytesEffective(a);
    RawBytesEffective(b);
  }

  // ---------- how long a frame takes ----------

  function Duration(pulses: seq<IrPulse>, n: nat): nat
    requires n <= |pulses|
  {
    if n == 0 then 0 else Duration(pulses, n - 1) + pulses[n - 1].mark + pulses[n - 1].space
  }

  /** Ones among the i low-order bits. */
  function Ones(b: bv8, i: nat): nat
    requires i <= 8
  {
    if i == 0 then 0 else Ones(b, i - 1) + if Bit(b, i - 1) then 1 else 0
  }

  function OnesBefore(cmd: seq<bv8>, n: nat): nat
    requires n <= |cmd|
  {
    if n == 0 then 0 else OnesBefore(cmd, n - 1) + Ones(cmd[n - 1], 8)
  }

  lemma {:induction false} ComplementOnes(b: bv8, i: nat)
    requires i <= 8
    ensures Ones(b, i) + Ones(Complement(b), i) == i
  {
    if i > 0 {
      ComplementOnes(b, i - 1);
      ComplementBit(b, i - 1);
    }
  }

  lemma ComplementBit(b: bv8, i: nat)
    requires i < 8
    ensures Bit(Complement(b), i) == !Bit(b, i)
  {
  }

  /** Every byte and its complement together have eight ones. */
  lemma {:induction false} PairOnes(raw: seq<bv8>, n: nat)
    requires n <= |raw|
    ensures OnesBefore(CommandOf(raw), 3 + 2 * n) == 2 + 8 * n
    decreases n
  {
    hide Ones, OnesBefore, CommandOf;
    var cmd := CommandOf(raw);
    if n == 0 {
      PreambleOnes();
      CommandPreamble(raw);
      assert cmd[0] == PreambleByte(0) && cmd[1] == PreambleByte(1) && cmd[2] == PreambleByte(2);
      OnesStep(cmd, 0);
      OnesStep(cmd, 1);
      OnesStep(cmd, 2);
    } else {
      PairOnes(raw, n - 1);
      CommandPair(raw, n - 1);
      OnesStep(cmd, 2 * n + 1);
      OnesStep(cmd, 2 * n + 2);
      ComplementOnes(raw[n - 1], 8);
    }
  }

  lemma OnesStep(cmd: seq<bv8>, n: nat)
    requires n < |cmd|
    ensures OnesBefore(cmd, 0) == 0 && OnesBefore(cmd, n + 1) == OnesBefore(cmd, n) + Ones(cmd[n], 8)
  {
    hide Ones;
  }

  lemma PreambleOnes()
    ensures Ones(0x01, 8) == 1 && Ones(0x10, 8) == 1 && Ones(0x00, 8) == 0
  {
    assert Ones(0x01, 4) == 1 && Ones(0x10, 4) == 0 && Ones(0x00, 4) == 0;
  }

  lemma DurationStep(pulses: seq<IrPulse>, n: nat)
    requires n < |pulses|
    ensures Duration(pulses, 0) == 0
    ensures Duration(pulses, n + 1) == Duration(pulses, n) + pulses[n].mark + pulses[n].space
  {
  }

  lemma {:induction false} DurationOfByte(cmd: seq<bv8>, b: nat, i: nat)
    requires b < |cmd| && i <= 8
    ensures Duration(PulsesOf(cmd), 2 + 8 * b + i) ==
            Duration(PulsesOf(cmd), 2 + 8 * b) + i * (BIT_MARK + ZERO_SPACE) +
              Ones(cmd[b], i) * (ONE_SPACE - ZERO_SPACE)
    decreases i
  {
    hide Bit, PulsesOf, Duration;
    if i > 0 {
      DurationOfByte(cmd, b, i - 1);
      DurationStep(PulsesOf(cmd), 2 + 8 * b + (i - 1));
      PulseAt(cmd, b, i - 1);
    }
  }

  lemma {:induction false} DurationOfBytes(cmd: seq<bv8>, b: nat)
    requires b <= |cmd|
    ensures Duration(PulsesOf(cmd), 2 + 8 * b) ==
            84580 + 8 * b * (BIT_MARK + ZERO_SPACE) + OnesBefore(cmd, b) * (ONE_SPACE - ZERO_SPACE)
    decreases b
  {
    hide Bit, Ones, PulsesOf, Duration;
    if b == 0 {
      FrameEnds(cmd);
      DurationStep(PulsesOf(cmd), 0);
      DurationStep(PulsesOf(cmd), 1);
    } else {
      DurationOfBytes(cmd, b - 1);
      DurationOfByte(cmd, b - 1, 8);
    }
  }

  /** Every frame takes the same time on air, whatever its payload. */
  lemma ConstantDuration(raw: seq<bv8>)
    requires |raw| == PAYLOAD_LEN
    ensures Duration(PulsesOf(CommandOf(raw)), FRAME_PULSES) == 585626
  {
    hide CommandOf;
    var p := PulsesOf(CommandOf(raw));
    DurationOfBytes(CommandOf(raw), COMMAND_LEN);
    PairOnes(raw, PAYLOAD_LEN);
    assert p[426] == TRAIL;
  }

  // ---------- the encoder ----------

  /** The bytes that do not depend on the state: zeros, preamble, update type and tail. */
  method FillFixedBytes(raw: array<bv8>)
    requires raw.Length == PAYLOAD_LEN
    modifies raw
    ensures forall i: nat | i < PAYLOAD_LEN :: raw[i] == FixedByte(i)
  {
    forall i | 0 <= i < PAYLOAD_LEN {
      raw[i] := 0;
    }
    raw[0], raw[1], raw[2], raw[3], raw[4] := 0x40, 0xFF, 0xCC, 0x92, 0x13;
    FillTail(raw);
  }

  method FillTail(raw: array<bv8>)
    requires raw.Length == PAYLOAD_LEN && forall i | 5 <= i < PAYLOAD_LEN :: raw[i] == 0
    modifies raw
    ensures forall i: nat | 5 <= i < PAYLOAD_LEN :: raw[i] == FixedByte(i)
    ensures forall i | 0 <= i < 5 :: raw[i] == old(raw[i])
  {
    raw[15], raw[16], raw[17], raw[18] := 0x80, 0x03, 0x01, 0x88;
    raw[21], raw[22], raw[23], raw[24] := 0xFF, 0xFF, 0xFF, 0xFF;
  }

  method EncodeRaw(state: AcState, raw: array<bv8>)
    requires raw.Length == PAYLOAD_LEN
    modifies raw
    ensures raw[..] == RawBytes(state) && IsProtocolPayload(raw[..])
  {
    hide ByteFrom, FanCode, ModeCode, FixedByte, FanModeByte, FlagsByte, IsProtocolPayload;
    RawIsProtocol(state);
    FillFixedBytes(raw);
    raw[5] := ByteFrom(state.temp * 4);
    var modeNibble := if state.power then ModeCode(state.mode) else ModeCode(Heating);
    raw[11] := (FanCode(state.fan) << 4) | modeNibble;
    StateBytes(state, modeNibble);
    if !state.power {
      raw[12] := 0xE1;
    } else if state.mode == Heating || state.mode == Cooling {
      raw[12] := 0xF1;
    } else {
      raw[12] := 0xF0;
    }
    assert forall i: nat | i < PAYLOAD_LEN :: raw[i] == RawByte(state, i);
  }

  lemma StateBytes(state: AcState, modeNibble: bv8)
    requires modeNibble == if state.power then ModeCode(state.mode) else ModeCode(Heating)
    ensures FanModeByte(state) == (FanCode(state.fan) << 4) | modeNibble
    ensures FlagsByte(state) ==
            if !state.power then 0xE1 else if state.mode == Heating || state.mode == Cooling then 0xF1 else 0xF0
  {
    hide FanCode, ModeCode;
  }

  method EncodeCommand(state: AcState, cmd: array<bv8>)
    requires cmd.Length == COMMAND_LEN
    modifies cmd
    ensures cmd[..] == CommandOf(RawBytes(state))
  {
    hide RawBytes;
    var raw := new bv8[PAYLOAD_LEN];
    EncodeRaw(state, raw);
    ghost var bytes := raw[..];
    cmd[0] := 0x01;
    cmd[1] := 0x10;
    cmd[2] := 0x00;
    for i := 0 to PAYLOAD_LEN
      invariant raw[..] == bytes
      invariant forall k: nat | k < 2 * i + 3 :: cmd[k] == CommandByte(bytes, k)
    {
      cmd[2 * i + 3] := raw[i];
      cmd[2 * i + 4] := Complement(raw[i]);
    }
  }

  /** Fills the pulse buffer and returns the number of pulses. */
  method AcEncodePulses(state: AcState, pulses: array<IrPulse>) returns (count: nat)
    requires IR_MAX_PULSES <= pulses.Length
    modifies pulses
    ensures count == FRAME_PULSES && pulses[..count] == Frame(state) && pulses[count..] == old(pulses[count..])
    ensures ReadState(pulses[..count]) == Some(Effective(state))
  {
    hide RawBytes, CommandOf, Bit, PulsesOf, ReadState;
    StateRoundTrip(state);
    var command := new bv8[COMMAND_LEN];
    EncodeCommand(state, command);
    ghost var cmd := command[..];
    ghost var frame := Frame(state);
    FrameEnds(cmd);
    var idx := 0;
    pulses[idx] := WAKEUP;
    idx := idx + 1;
    pulses[idx] := HEADER;
    idx := idx + 1;
    for b := 0 to COMMAND_LEN
      invariant command[..] == cmd && idx == 2 + 8 * b
      invariant forall k | 0 <= k < idx :: pulses[k] == frame[k]
      invariant forall k | idx <= k < pulses.Length :: pulses[k] == old(pulses[k])
    {
      idx := EncodeByte(command[b], pulses, idx);
      forall k | 2 + 8 * b <= k < 10 + 8 * b
        ensures pulses[k] == frame[k]
      {
        PulseAt(cmd, b, k - 2 - 8 * b);
        assert k == 2 + 8 * b + (k - 2 - 8 * b);
      }
    }
    pulses[idx] := TRAIL;
    idx := idx + 1;
    count := idx;
  }

  /** The inner loop: eight pulses for one byte. */
  method EncodeByte(byte: bv8, pulses: array<IrPulse>, start: nat) returns (idx: nat)
    requires start + 8 <= pulses.Length
    modifies pulses
    ensures idx == start + 8
    ensures forall i: nat | i < 8 :: pulses[start + i] == BitPulse(Bit(byte, i))
    ensures forall k | 0 <= k < pulses.Length && !(start <= k < idx) :: pulses[k] == old(pulses[k])
  {
    hide Bit;
    idx := start;
    for bit := 0 to 8
      invariant idx == start + bit
      invariant forall i: nat | i < bit :: pulses[start + i] == BitPulse(Bit(byte, i))
      invariant forall k | 0 <= k < pulses.Length && !(start <= k < idx) :: pulses[k] == old(pulses[k])
    {
      BitIsShift(byte, bit);
      var isOne := (byte >> bit) & 1 != 0;
      pulses[idx] := IrPulse(BIT_MARK, if isOne then ONE_SPACE else ZERO_SPACE);
      idx := idx + 1;
    }
  }
}
