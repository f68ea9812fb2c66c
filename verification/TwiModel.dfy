/**
 * io/twi.h on values: what each call and each interrupt does to the master's variables
 * and two queues, and which bus command it issues.
 */
module TwiModel {
  import opened Words
  import opened RingBuffers

  datatype BusState = Ready | Transmitting | Receiving

  datatype Error = NoError | NoAck | ArbitrationLost | BusError | UnexpectedState

  /** The bits of the master status register that the handler looks at. */
  datatype Status = Status(arbLost: bool, busErr: bool, wif: bool, rxNack: bool, rif: bool)

  /** A write to a bus register: nothing moves on the bus without one. */
  datatype Command = NoCommand | Address(slarw: Byte) | Data(value: Byte) | ReceiveMore | Stop | NackStop

  datatype Master = Master(
    state: BusState, error: Error, slarw: Byte, received: Byte, requested: Byte,
    input: seq<Byte>, inputSize: nat, output: seq<Byte>, outputSize: nat)
  {
    predicate Valid() {
      0 < inputSize && |input| < inputSize && 0 < outputSize && |output| < outputSize
    }

    function InputRoom(): int { inputSize - 1 - |input| }
  }

  function Slarw(address: Byte, read: bool): Byte {
    Wrap8(2 * address) + if read then 1 else 0
  }

  /** The second half of Request, once its room check has passed. */
  function Commit(m: Master, address: Byte, n: Byte): (Master, Command, Byte) {
    if !m.state.Ready? then (m, NoCommand, 0)
    else
      var slarw := Slarw(address, true);
      (m.(error := NoError, state := Receiving, slarw := slarw, received := 0, requested := n), Address(slarw), n)
  }

  function Request(m: Master, address: Byte, n: Byte): (Master, Command, Byte) {
    if n >= m.InputRoom() then (m, NoCommand, 0) else Commit(m, address, n)
  }

  function Send(m: Master, address: Byte): (Master, Command, nat) {
    if m.output == [] || !m.state.Ready? then (m, NoCommand, 0)
    else
      var slarw := Slarw(address, false);
      (m.(error := NoError, state := Transmitting, slarw := slarw), Address(slarw), |m.output|)
  }

  function Handle(m: Master, st: Status, data: Byte): (Master, Command) {
    if st.arbLost || st.busErr then
      (m.(error := if st.arbLost then ArbitrationLost else BusError, state := Ready), NoCommand)
    else if st.wif then HandleWrite(m, st.rxNack)
    else if st.rif then HandleRead(m, data)
    else (m.(error := UnexpectedState, state := Ready), NoCommand)
  }

  function HandleWrite(m: Master, nack: bool): (Master, Command) {
    if nack then (m.(error := NoAck, state := Ready), Stop)
    else if m.output != [] then (m.(output := m.output[1..]), Data(m.output[0]))
    else if m.received < m.requested then (m, Address(m.slarw))
    else (m.(state := Ready), Stop)
  }

  function HandleRead(m: Master, data: Byte): (Master, Command) {
    var m2 := m.(input := Pushed(m.input, m.inputSize - 1, data), received := Wrap8(m.received + 1));
    if m2.received < m2.requested then (m2, ReceiveMore) else (m2.(state := Ready), NackStop)
  }

  predicate IsReadInterrupt(st: Status) {
    !st.arbLost && !st.busErr && !st.wif && st.rif
  }
}
