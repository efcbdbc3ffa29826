/**
 * `ModbusMaster` (lib/master.js): the options merge of its constructor, the
 * validate-or-fail `request` step, and the three register operations built
 * on it. Collaborators whose code is not part of this model are
 * parameters: the `packet-utils` functions are the fields of a
 * `PacketUtils` value, and the serial transport is a function from the
 * bytes written to the reply they draw.
 */
module Master {
  import opened Wrappers
  import opened Wire
  import opened Frames
  import opened Errors
  import opened Retry

  /** What the serial helper's `write` resolves with (a response frame) or rejects with. */
  datatype Reply = Response(bytes: seq<int>) | Fault(reason: string)

  /** One transport exchange: the frame written, and the reply it draws. */
  type Link = seq<int> -> Reply

  /** The `packet-utils` functions that lib/master.js calls, uninterpreted. */
  datatype PacketUtils = PacketUtils(
    addCrc: seq<int> -> seq<int>,
    checkCrc: seq<int> -> bool,
    getDataBuffer: seq<int> -> seq<int>,
    parseFc03Packet: (seq<int>, Option<int>) -> seq<int>)

  /** The values of `./constants` that the master uses; they are not fixed here. */
  datatype Constants = Constants(responseTimeout: int, queueTimeout: int, defaultRetryCount: int)

  /** The value of one entry of the caller's options object. */
  datatype OptionValue = Number(n: int) | Flag(b: bool) | Text(s: string) | Undefined

  datatype Master = Master(options: map<string, OptionValue>, constants: Constants, utils: PacketUtils)

  /** `new ModbusMaster(serialPort, options)`: the master keeps the merged options as its `_options`. */
  function NewMaster(constants: Constants, utils: PacketUtils, options: Option<map<string, OptionValue>>): Master
  {
    Master(MergeOptions(constants, options), constants, utils)
  }

  /**
   * The constructor's `Object.assign({}, defaults, options || {})`: the
   * two timeouts are always present; every key the caller gives overrides
   * the default, whatever its value (an explicit `undefined` included);
   * a timeout the caller leaves out keeps its default. An absent options
   * object (None) counts as `{}`.
   */
  function MergeOptions(constants: Constants, options: Option<map<string, OptionValue>>)
    : (merged: map<string, OptionValue>)
    ensures forall k :: k in merged <==>
              (k == "responseTimeout" || k == "queueTimeout" || (options.Some? && k in options.value))
    ensures options.Some? ==> forall k :: k in options.value ==> merged[k] == options.value[k]
    ensures options.None? || "responseTimeout" !in options.value ==>
              merged["responseTimeout"] == Number(constants.responseTimeout)
    ensures options.None? || "queueTimeout" !in options.value ==>
              merged["queueTimeout"] == Number(constants.queueTimeout)
  {
    var defaults := map["responseTimeout" := Number(constants.responseTimeout),
                        "queueTimeout" := Number(constants.queueTimeout)];
    match options
    case None => defaults
    case Some(given) => defaults + given
  }

  /**
   * `request(buffer)`: writes `addCrc(buffer)` to the transport; a reply
   * that `checkCrc` accepts is returned unchanged, any other reply fails
   * with `ModbusCrcError`, and a transport failure is passed on as it is.
   * Whatever it resolves with has passed `checkCrc`, and it never fails
   * with the retry-limit error.
   */
  function Request(utils: PacketUtils, send: Link, packet: seq<int>): (r: Outcome)
    ensures var reply := send(utils.addCrc(packet));
            && (r.Success? <==> reply.Response? && utils.checkCrc(reply.bytes))
            && (r.Success? ==> r.value == reply.bytes && utils.checkCrc(r.value))
            && (reply.Response? && !utils.checkCrc(reply.bytes) ==> r == Failure(CrcError))
            && (reply.Fault? ==> r == Failure(TransportError(reply.reason)))
    ensures r.Failure? ==> !r.error.RetryLimitExceed?
  {
    match send(utils.addCrc(packet))
    case Fault(reason) => Failure(TransportError(reason))
    case Response(response) =>
      if !utils.checkCrc(response) then Failure(CrcError) else Success(response)
  }

  /** The `dataType` argument of `readHoldingRegisters`: a data-type tag (or none), or a callback. */
  datatype DataType = Tag(code: Option<int>) | Transform(f: seq<int> -> seq<int>)

  /** The dispatch on `dataType`: a callback gets the raw data buffer, a tag goes to `parseFc03Packet`. */
  function Interpret(utils: PacketUtils, dataType: DataType, buf: seq<int>): seq<int>
  {
    match dataType
    case Transform(f) => f(buf)
    case Tag(code) => utils.parseFc03Packet(buf, code)
  }

  /**
   * `readHoldingRegisters`: one request with the six-byte fixed frame for
   * function 0x03 (start and length as its two words); on a validated
   * reply, the data buffer is taken out and interpreted per `dataType`.
   * A callback receives that buffer exactly as `getDataBuffer` gives it.
   */
  function ReadHoldingRegisters(m: Master, slave: int, start: int, length: int,
                                dataType: DataType, send: Link): (r: Result<seq<int>, ModbusError>)
    ensures var frame := CreateFixedPacket(slave, READ_HOLDING_REGISTERS, start, length);
            var reply := send(m.utils.addCrc(frame));
            && (r.Success? <==> reply.Response? && m.utils.checkCrc(reply.bytes))
            && (reply.Fault? ==> r == Failure(TransportError(reply.reason)))
            && (reply.Response? && !m.utils.checkCrc(reply.bytes) ==> r == Failure(CrcError))
            && (r.Success? && dataType.Transform? ==>
                  r.value == dataType.f(m.utils.getDataBuffer(reply.bytes)))
            && (r.Success? && dataType.Tag? ==>
                  r.value == m.utils.parseFc03Packet(m.utils.getDataBuffer(reply.bytes), dataType.code))
  {
    var packet := CreateFixedPacket(slave, READ_HOLDING_REGISTERS, start, length);
    match Request(m.utils, send, packet)
    case Failure(e) => Failure(e)
    case Success(buffer) => Success(Interpret(m.utils, dataType, m.utils.getDataBuffer(buffer)))
  }

  /**
   * `writeMultipleRegisters`: one request, not retried, with the
   * variable-length frame for function 0x10; the validated reply is the
   * result.
   */
  method WriteMultipleRegisters(m: Master, slave: int, start: int, values: seq<int>, send: Link)
    returns (r: Outcome)
    ensures var reply := send(m.utils.addCrc(VariousPacket(slave, WRITE_MULTIPLE_REGISTERS, start, values)));
            && (r.Success? <==> reply.Response? && m.utils.checkCrc(reply.bytes))
            && (r.Success? ==> r.value == reply.bytes)
            && (reply.Fault? ==> r == Failure(TransportError(reply.reason)))
            && (reply.Response? && !m.utils.checkCrc(reply.bytes) ==> r == Failure(CrcError))
  {
    var packet := CreateVariousPacket(slave, WRITE_MULTIPLE_REGISTERS, start, values);
    r := Request(m.utils, send, packet);
  }

  /** Attempt k of a retried write: `request(packet)` over the k-th exchange of the transport. */
  function Attempts(utils: PacketUtils, transport: nat -> Link, packet: seq<int>): nat -> Outcome
  {
    (k: nat) => Request(utils, transport(k), packet)
  }

  /**
   * `writeSingleRegister`: builds the fixed frame for function 0x06
   * (register and value as its two words), normalises the retry count and
   * runs the retry controller over `request(packet)`. The k-th exchange of
   * `transport` serves attempt k. It makes at most max(N, 0) attempts (N
   * the effective count), resolves with the first reply that passes
   * `checkCrc`, and otherwise rejects with the retry-limit error after
   * exactly max(N, 0) attempts.
   */
  method WriteSingleRegister(m: Master, slave: int, register: int, value: int,
                             retryCount: Option<int>, transport: nat -> Link)
    returns (result: Outcome, log: seq<Label>)
    ensures var n := EffectiveRetryCount(retryCount, m.constants.defaultRetryCount);
            var packet := CreateFixedPacket(slave, WRITE_SINGLE_REGISTER, register, value);
            && Run(result, log)
               == PerformRequest(WriteCall(slave, register, value), n, n, Attempts(m.utils, transport, packet))
            && |log| <= Max0(n)
            && (forall i :: 0 <= i < |log| ==> log[i] == Label(WriteCall(slave, register, value), i + 1, n))
            && (result.Success? ==>
                  && |log| >= 1
                  && m.utils.checkCrc(result.value)
                  && result == Request(m.utils, transport(|log| - 1), packet)
                  && forall j :: 0 <= j < |log| - 1 ==> Request(m.utils, transport(j), packet).Failure?)
            && (result.Failure? ==>
                  && |log| == Max0(n)
                  && result.error == RetryLimitExceed(Label(WriteCall(slave, register, value), |log| + 1, n)))
  {
    var packet := CreateFixedPacket(slave, WRITE_SINGLE_REGISTER, register, value);
    var n := EffectiveRetryCount(retryCount, m.constants.defaultRetryCount);
    var call := WriteCall(slave, register, value);
    var attempt := Attempts(m.utils, transport, packet);
    assert forall k: nat :: attempt(k) == Request(m.utils, transport(k), packet);
    result, log := RetryLoop(call, n, attempt);
    RetryController(call, n, attempt);
  }
}
