/**
 * The request frames that `ModbusMaster` builds before the CRC trailer is
 * added (`createFixedPacket` and `createVariousPacket` in lib/master.js):
 * the slave address followed by the protocol data unit of Read Holding
 * Registers (0x03), Write Single Register (0x06) or Write Multiple
 * Registers (0x10), sections 6.3, 6.6 and 6.12 of the Modbus Application
 * Protocol Specification V1.1b3. Each builder has a decoder beside it, and
 * the lemmas show that the two are inverse.
 */
module Frames {
  import opened Wrappers
  import opened Wire

  const READ_HOLDING_REGISTERS: int := 0x03
  const WRITE_SINGLE_REGISTER: int := 0x06
  const WRITE_MULTIPLE_REGISTERS: int := 0x10

  /** `createFixedPacket`: slave, function code and two big-endian words, six bytes in all. */
  function CreateFixedPacket(slave: int, func: int, param: int, param2: int): (r: seq<int>)
    ensures |r| == 6 && AllBytes(r)
    ensures r[0] == Word8(slave) && r[1] == Word8(func)
    ensures WordAt(r, 2) == param % 0x1_0000 && WordAt(r, 4) == param2 % 0x1_0000
  {
    [Word8(slave), Word8(func)] + Word16(param) + Word16(param2)
  }

  datatype FixedFields = FixedFields(slave: int, func: int, param: int, param2: int)

  /** Reads a six-byte fixed frame back into its four fields. */
  function ParseFixedPacket(b: seq<int>): Option<FixedFields>
  {
    if |b| == 6 && AllBytes(b) then Some(FixedFields(b[0], b[1], WordAt(b, 2), WordAt(b, 4)))
    else None
  }

  /** Decoding a fixed frame recovers every field, reduced to the width the frame gives it. */
  lemma FixedPacketRoundTrip(slave: int, func: int, param: int, param2: int)
    ensures ParseFixedPacket(CreateFixedPacket(slave, func, param, param2))
         == Some(FixedFields(Word8(slave), Word8(func), param % 0x1_0000, param2 % 0x1_0000))
    ensures IsByte(slave) && IsByte(func) && IsWord(param) && IsWord(param2) ==>
              (ParseFixedPacket(CreateFixedPacket(slave, func, param, param2))
               == Some(FixedFields(slave, func, param, param2)))
  {
  }

  /** Every six-byte frame is the fixed frame of the fields read from it. */
  lemma ParseFixedPacketInverse(b: seq<int>)
    requires ParseFixedPacket(b).Some?
    ensures var f := ParseFixedPacket(b).value;
            IsByte(f.slave) && IsByte(f.func) && IsWord(f.param) && IsWord(f.param2) &&
            CreateFixedPacket(f.slave, f.func, f.param, f.param2) == b
  {
    Word16OfWordAt(b, 2);
    Word16OfWordAt(b, 4);
    assert b == b[0..2] + b[2..4] + b[4..6];
  }

  /**
   * The frame `createVariousPacket` builds: slave, function code, start
   * address, register count, byte count and then every value, each word
   * big-endian. The count is written with `word16be` and the byte count
   * with `word8be`, so both keep only their low-order bits.
   */
  function VariousPacket(slave: int, func: int, start: int, values: seq<int>): (r: seq<int>)
    ensures |r| == 7 + 2 * |values| && AllBytes(r)
    ensures r[0] == Word8(slave) && r[1] == Word8(func)
    ensures WordAt(r, 2) == start % 0x1_0000
    ensures WordAt(r, 4) == |values| % 0x1_0000
    ensures r[6] == (2 * |values|) % 0x100
    ensures |values| < 0x80 ==> WordAt(r, 4) == |values| && r[6] == 2 * |values|
    ensures forall i :: 0 <= i < |values| ==> WordAt(r, 7 + 2 * i) == values[i] % 0x1_0000
  {
    WordsAllAt(values);
    VariousHeader(slave, func, start, |values|) + Words(values)
  }

  /** The seven header bytes of a variable-length frame for n values. */
  function VariousHeader(slave: int, func: int, start: int, n: nat): (h: seq<int>)
    ensures |h| == 7 && AllBytes(h)
  {
    [Word8(slave), Word8(func)] + Word16(start) + Word16(n) + [Word8(n * 2)]
  }

  /**
   * `createVariousPacket`: writes the header, then appends the values one
   * by one to the growing buffer, as the source's forEach does.
   */
  method CreateVariousPacket(slave: int, func: int, start: int, values: seq<int>) returns (buf: seq<int>)
    ensures buf == VariousPacket(slave, func, start, values)
  {
    buf := VariousHeader(slave, func, start, |values|);
    var i := 0;
    while i < |values|
      invariant 0 <= i <= |values|
      invariant buf == VariousHeader(slave, func, start, |values|) + Words(values[..i])
    {
      WordsSnoc(values[..i], values[i]);
      assert values[..i + 1] == values[..i] + [values[i]];
      buf := buf + Word16(values[i]);
      i := i + 1;
    }
    assert values[..i] == values;
  }

  datatype VariousFields = VariousFields(slave: int, func: int, start: int, values: seq<int>)

  /** Reads a variable-length frame back; the count and byte-count fields must agree with its length. */
  function ParseVariousPacket(b: seq<int>): Option<VariousFields>
  {
    if |b| < 7 || !AllBytes(b) then None
    else
      var n := WordAt(b, 4);
      if b[6] != Word8(2 * n) || |b| != 7 + 2 * n then None
      else Some(VariousFields(b[0], b[1], WordAt(b, 2), ParseWords(b[7..])))
  }

  /**
   * Decoding a variable-length frame built from in-range fields recovers
   * the slave, the function code, the start address and every value in
   * order. The only limit is that the count must fit its 16-bit field.
   */
  lemma VariousPacketRoundTrip(slave: int, func: int, start: int, values: seq<int>)
    requires IsByte(slave) && IsByte(func) && IsWord(start) && AllWords(values)
    requires |values| < 0x1_0000
    ensures ParseVariousPacket(VariousPacket(slave, func, start, values))
         == Some(VariousFields(slave, func, start, values))
  {
    var b := VariousPacket(slave, func, start, values);
    assert b[7..] == Words(values);
    ParseWordsOfWords(values);
  }

  /** Every frame the decoder accepts is the variable-length frame of the fields it reads. */
  lemma ParseVariousPacketInverse(b: seq<int>)
    requires ParseVariousPacket(b).Some?
    ensures var f := ParseVariousPacket(b).value;
            IsByte(f.slave) && IsByte(f.func) && IsWord(f.start) && AllWords(f.values) &&
            VariousPacket(f.slave, f.func, f.start, f.values) == b
  {
    var f := ParseVariousPacket(b).value;
    var n := WordAt(b, 4);
    assert |f.values| == n;
    VariousHeaderInverse(b);
    WordsOfParseWords(b[7..]);
    assert b == b[..7] + b[7..];
  }

  lemma VariousHeaderInverse(b: seq<int>)
    requires |b| >= 7 && AllBytes(b) && b[6] == Word8(2 * WordAt(b, 4))
    ensures VariousHeader(b[0], b[1], WordAt(b, 2), WordAt(b, 4)) == b[..7]
  {
    Word16OfWordAt(b, 2);
    Word16OfWordAt(b, 4);
    assert b[..7] == b[0..2] + b[2..4] + b[4..6] + [b[6]];
  }
}
