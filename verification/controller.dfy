/**
 * One eUSCI controller seen from the SPI driver: its family, the software
 * reset bit `UCSWRST`, the transmit-interrupt flag the driver polls, the
 * master configuration last written by `EUSCI_x_SPI_initMaster`, the receive
 * buffer, and the bytes shifted out on the bus so far.
 *
 * The functions below say what each driver operation does to one controller.
 * The methods of `Hardware` (spi_eusci.dfy) are proved to follow them, and
 * the lemmas here prove what a sequence of operations does.
 */
module Controllers {
  import opened Options
  import opened Registry
  import opened SpiErrors

  /** `uint8_t` */
  type Byte = x: int | 0 <= x < 0x100
  /** `uint32_t` */
  type U32 = x: int | 0 <= x < 0x1_0000_0000

  // The fields of `EUSCI_x_SPI_initMasterParam`. Both families have the same
  // choices; only the driverlib constants that encode them differ.
  datatype ClockSource = Aclk | Smclk
  datatype BitOrder = MsbFirst | LsbFirst
  datatype ClockPhase = DataChangedOnFirstCapturedOnNext | DataCapturedOnFirstChangedOnNext
  datatype ClockPolarity = InactivityHigh | InactivityLow
  datatype SpiMode = ThreePin | FourPinActiveHigh | FourPinActiveLow

  datatype InitMasterParam = InitMasterParam(
    selectClockSource: ClockSource,
    clockSourceFrequency: U32,
    desiredSpiClock: U32,
    msbFirst: BitOrder,
    clockPhase: ClockPhase,
    clockPolarity: ClockPolarity,
    spiMode: SpiMode)

  /**
   * The state of one controller.
   * `busyPolls` is how many more reads of the transmit-interrupt flag will
   * still find it clear; the flag is set when it is 0. After each byte written
   * to the transmit buffer the flag stays clear for `txLatency` reads.
   */
  datatype Controller = Controller(
    family: Family,
    inReset: bool,
    busyPolls: nat,
    config: Option<InitMasterParam>,
    rxBuf: Byte,
    sent: seq<Byte>,
    txLatency: nat)

  /** The transmit-interrupt flag (`UCTXIFG`). */
  predicate TxReady(c: Controller)
  {
    c.busyPolls == 0
  }

  /** A controller after power-up: held in reset, never configured, nothing sent. */
  function PowerOn(family: Family, txLatency: nat): (c: Controller)
    ensures c.inReset && c.family == family && TxReady(c) && c.sent == []
  {
    Controller(family, true, 0, None, 0, [], txLatency)
  }

  /**
   * The master configuration `spi_open` requests, for either family: clock
   * from ACLK at the frequency `CS_getACLK()` reports, the requested bit
   * rate, most significant bit first, data changed on the first edge and
   * captured on the next, clock idle high, 3-pin mode.
   */
  predicate IsOpenConfig(p: InitMasterParam, aclk: U32, clockRate: U32)
  {
    && p.selectClockSource == Aclk
    && p.clockSourceFrequency == aclk
    && p.desiredSpiClock == clockRate
    && p.msbFirst == MsbFirst
    && p.clockPhase == DataChangedOnFirstCapturedOnNext
    && p.clockPolarity == InactivityHigh
    && p.spiMode == ThreePin
  }

  /** The parameter block `spi_open` fills in. */
  function OpenParam(aclk: U32, clockRate: U32): (p: InitMasterParam)
    ensures IsOpenConfig(p, aclk, clockRate)
  {
    InitMasterParam(Aclk, aclk, clockRate, MsbFirst, DataChangedOnFirstCapturedOnNext, InactivityHigh, ThreePin)
  }

  /** Whether `spi_open` succeeds: only on a controller held in reset. */
  predicate OpenSucceeds(c: Controller): (r: bool)
    ensures r <==> TransferOutcome(c) == ChannelClosed
  {
    c.inReset
  }

  /** The controller after `spi_open`: configured and enabled if it was in reset, untouched otherwise. */
  function AfterOpen(c: Controller, p: InitMasterParam): (c': Controller)
    ensures !c'.inReset
    ensures c.inReset ==> c'.config == Some(p)
    ensures c'.(inReset := c.inReset, config := c.config) == c
    ensures !c.inReset ==> c' == c
  {
    if c.inReset then c.(inReset := false, config := Some(p)) else c
  }

  /** The controller after `spi_close`: held in reset, whatever its state was. */
  function AfterClose(c: Controller): (c': Controller)
    ensures c'.inReset
    ensures c'.(inReset := c.inReset) == c
  {
    c.(inReset := true)
  }

  /** What `spi_transfer_byte` reports: the channel is closed exactly when the controller is in reset. */
  function TransferOutcome(c: Controller): (e: SpiError)
    ensures e == ChannelClosed <==> c.inReset
  {
    if c.inReset then ChannelClosed else NoError
  }

  /** One full-duplex exchange: `send` goes out on the bus and `rx` lands in the receive buffer. */
  function Exchanged(c: Controller, send: Byte, rx: Byte): (c': Controller)
    ensures c'.sent == c.sent + [send] && c'.rxBuf == rx
    ensures c'.busyPolls == c.txLatency
    ensures c'.(sent := c.sent, rxBuf := c.rxBuf, busyPolls := c.busyPolls) == c
  {
    c.(sent := c.sent + [send], rxBuf := rx, busyPolls := c.txLatency)
  }

  /** The controller after `spi_transfer_byte`: unchanged on a closed channel. */
  function AfterTransfer(c: Controller, send: Byte, rx: Byte): (c': Controller)
    ensures c.inReset ==> c' == c
    ensures !c.inReset ==> c'.sent == c.sent + [send] && c'.rxBuf == rx
    ensures !c.inReset ==> c' == Exchanged(c, send, rx)
  {
    if c.inReset then c else Exchanged(c, send, rx)
  }

  /** Closing twice leaves the same state as closing once. */
  lemma CloseIdempotent(c: Controller)
    ensures AfterClose(AfterClose(c)) == AfterClose(c)
  {
  }

  /** A closed channel can be reused: the next open succeeds and enables it again. */
  lemma ReopenAfterClose(c: Controller, p: InitMasterParam)
    ensures OpenSucceeds(AfterClose(c))
    ensures AfterOpen(AfterClose(c), p) == c.(inReset := false, config := Some(p))
  {
  }

  /** Open, close and transfer never change which family a controller belongs to. */
  lemma OperationsKeepFamily(c: Controller, p: InitMasterParam, send: Byte, rx: Byte)
    ensures AfterOpen(c, p).family == c.family
    ensures AfterClose(c).family == c.family
    ensures AfterTransfer(c, send, rx).family == c.family
  {
  }

  // ---------------------------------------------------------------------
  // Sequences of operations on one controller.

  datatype Op = Open(param: InitMasterParam) | Close | Transfer(send: Byte, rx: Byte)

  function Step(c: Controller, op: Op): Controller
  {
    match op
    case Open(p) => AfterOpen(c, p)
    case Close => AfterClose(c)
    case Transfer(send, rx) => AfterTransfer(c, send, rx)
  }

  /** The controller after applying `ops` in order. */
  function Run(c: Controller, ops: seq<Op>): Controller
  {
    if ops == [] then c else Step(Run(c, ops[..|ops| - 1]), ops[|ops| - 1])
  }

  /** No close follows position `i` of `ops`. */
  predicate NoCloseAfter(ops: seq<Op>, i: nat)
  {
    forall j :: i < j < |ops| ==> !ops[j].Close?
  }

  /** Some open in `ops` has no close after it. */
  predicate OpenedSinceLastClose(ops: seq<Op>)
  {
    exists i: nat :: i < |ops| && ops[i].Open? && NoCloseAfter(ops, i)
  }

  /**
   * The lifecycle state machine of a channel whose controller starts in reset
   * (after power-up, or closed): a transfer succeeds after a sequence of
   * operations exactly when some open in it has not been followed by a close.
   * Failed opens, repeated closes and transfers never change the answer.
   */
  lemma {:induction false} TransferSucceedsIffOpen(c: Controller, ops: seq<Op>)
    requires c.inReset
    ensures TransferOutcome(Run(c, ops)) == NoError <==> OpenedSinceLastClose(ops)
  {
    if ops != [] {
      var n := |ops| - 1;
      var init := ops[..n];
      TransferSucceedsIffOpen(c, init);
      match ops[n]
      case Open(p) =>
        assert ops[n].Open? && NoCloseAfter(ops, n);
      case Close =>
      case Transfer(_, _) =>
        if OpenedSinceLastClose(ops) {
          var i: nat :| i < |ops| && ops[i].Open? && NoCloseAfter(ops, i);
          assert i < n && init[i].Open? && NoCloseAfter(init, i);
        }
        if OpenedSinceLastClose(init) {
          var i: nat :| i < |init| && init[i].Open? && NoCloseAfter(init, i);
          assert ops[i].Open? && NoCloseAfter(ops, i);
        }
    }
  }

  // ---------------------------------------------------------------------
  // Multi-byte exchanges.

  /**
   * The byte each exchange of `sends` brings back, when the device on the bus
   * of controller `k` answers `reply(k, h)` to the bus history `h` (all bytes
   * sent so far, the current one last) and `history` was sent before.
   */
  function Replies(reply: (nat, seq<Byte>) -> Byte, k: nat, history: seq<Byte>, sends: seq<Byte>): (r: seq<Byte>)
    ensures |r| == |sends|
  {
    if sends == [] then []
    else Replies(reply, k, history, sends[..|sends| - 1]) + [reply(k, history + sends)]
  }

  /** The `i`-th reply is the device's answer to the history that ends with the `i`-th byte. */
  lemma {:induction false} ReplyAt(reply: (nat, seq<Byte>) -> Byte, k: nat, history: seq<Byte>, sends: seq<Byte>, i: nat)
    requires i < |sends|
    ensures Replies(reply, k, history, sends)[i] == reply(k, history + sends[..i + 1])
  {
    var n := |sends| - 1;
    if i < n {
      ReplyAt(reply, k, history, sends[..n], i);
      assert sends[..n][..i + 1] == sends[..i + 1];
    } else {
      assert sends[..i + 1] == sends;
    }
  }

  /** A prefix of the sends brings back a prefix of the replies. */
  lemma ReplyPrefix(reply: (nat, seq<Byte>) -> Byte, k: nat, history: seq<Byte>, sends: seq<Byte>, i: nat)
    requires i < |sends|
    ensures Replies(reply, k, history, sends[..i + 1])
         == Replies(reply, k, history, sends[..i]) + [reply(k, history + sends[..i + 1])]
  {
    assert sends[..i + 1][..i] == sends[..i];
  }

  /** The controller after exchanging `sends` one byte at a time on an enabled channel. */
  function Transferred(c: Controller, reply: (nat, seq<Byte>) -> Byte, k: nat, sends: seq<Byte>): (c': Controller)
    ensures c'.sent == c.sent + sends
    ensures c'.family == c.family && c'.inReset == c.inReset && c'.config == c.config
    ensures c'.txLatency == c.txLatency
    ensures sends != [] ==> c'.rxBuf == reply(k, c.sent + sends) && c'.busyPolls == c.txLatency
    ensures sends == [] ==> c' == c
  {
    if sends == [] then c
    else
      assert sends == sends[..|sends| - 1] + [sends[|sends| - 1]];
      Exchanged(Transferred(c, reply, k, sends[..|sends| - 1]), sends[|sends| - 1], reply(k, c.sent + sends))
  }

  /** One more byte extends a multi-byte exchange by one single-byte exchange. */
  lemma TransferredStep(c: Controller, reply: (nat, seq<Byte>) -> Byte, k: nat, sends: seq<Byte>, i: nat)
    requires i < |sends|
    ensures Transferred(c, reply, k, sends[..i + 1])
         == Exchanged(Transferred(c, reply, k, sends[..i]), sends[i], reply(k, Transferred(c, reply, k, sends[..i]).sent + [sends[i]]))
  {
    assert sends[..i + 1][..i] == sends[..i];
    assert c.sent + sends[..i + 1] == c.sent + sends[..i] + [sends[i]];
  }

  /** The device of a loopback wire: it answers every byte with that byte. */
  function Loopback(k: nat, h: seq<Byte>): Byte
  {
    if h == [] then 0 else h[|h| - 1]
  }

  /**
   * A device whose answer trails the bus by one exchange: each byte brought
   * back is the one sent the exchange before. This is what an immediate read
   * of the receive buffer after writing the transmit buffer can return when
   * the hardware has not yet latched the current exchange.
   */
  function Lagged(k: nat, h: seq<Byte>): Byte
  {
    if |h| < 2 then 0 else h[|h| - 2]
  }

  /** Against a one-exchange-late device, every byte after the first brought back is the previous byte sent. */
  lemma LaggedRepliesTrail(k: nat, history: seq<Byte>, sends: seq<Byte>)
    ensures forall i :: 0 < i < |sends| ==> Replies(Lagged, k, history, sends)[i] == sends[i - 1]
  {
    forall i | 0 < i < |sends|
      ensures Replies(Lagged, k, history, sends)[i] == sends[i - 1]
    {
      ReplyAt(Lagged, k, history, sends, i);
      assert (history + sends[..i + 1])[|history| + i - 1] == sends[i - 1];
    }
  }

  /** On a loopback wire every exchange brings back exactly the bytes sent, index for index. */
  lemma {:induction false} LoopbackEchoes(k: nat, history: seq<Byte>, sends: seq<Byte>)
    ensures Replies(Loopback, k, history, sends) == sends
  {
    if sends != [] {
      var n := |sends| - 1;
      LoopbackEchoes(k, history, sends[..n]);
      assert sends == sends[..n] + [sends[n]];
    }
  }
}
