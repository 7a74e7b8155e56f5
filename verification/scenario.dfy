/**
 * Client sessions over the driver, as the radio task uses it: open a channel
 * once, exchange bytes, close it. The bus is a loopback wire, so every byte
 * comes back as it was sent.
 */
module Scenario {
  import opened Registry
  import opened SpiErrors
  import opened Controllers
  import opened SpiEusci
  import opened SpiBuffers

  /**
   * On a freshly powered controller: the first open succeeds and a second
   * open of the same channel is refused; a byte comes back unchanged over the
   * loopback; after closing (twice) a transfer reports `ChannelClosed`; and
   * the channel can then be opened again.
   */
  method LoopbackSession(build: Build, aclk: U32, eusci: nat)
    returns (firstOpen: bool, rivalOpen: bool, echoed: Byte, afterClose: SpiError, reopened: bool)
    requires Wf(build) && eusci < EusciCount(build)
    ensures firstOpen && !rivalOpen
    ensures echoed == 0xAA
    ensures afterClose == ChannelClosed
    ensures reopened
  {
    var hw := new Hardware(build, aclk, Loopback, 2);
    var spi := new Spi();
    firstOpen := hw.SpiOpen(eusci, 8000, spi);

    var rival := new Spi();
    rivalOpen := hw.SpiOpen(eusci, 8000, rival);

    var one := new Byte[1];
    var e := hw.SpiTransferByte(spi, 0xAA, one, 0);
    echoed := one[0];

    hw.SpiClose(spi);
    hw.SpiClose(spi);
    afterClose := hw.SpiTransferByte(spi, 0x55, one, 0);

    reopened := hw.SpiOpen(eusci, 8000, spi);
  }

  /** On an open channel, `spi_transfer_bytes` over the loopback brings back the buffer it sent. */
  method LoopbackBuffer(build: Build, aclk: U32, eusci: nat) returns (err: SpiError, echoes: seq<Byte>)
    requires Wf(build) && eusci < EusciCount(build)
    ensures err == NoError
    ensures echoes == [0x01, 0x02, 0x03]
  {
    var hw := new Hardware(build, aclk, Loopback, 1);
    var spi := new Spi();
    var ok := hw.SpiOpen(eusci, 8000, spi);
    ghost var before := hw.ctrl[eusci].sent;

    var send := new Byte[3] [0x01, 0x02, 0x03];
    var recv := new Byte[3];
    ghost var sends := send[..3];
    err := SpiTransferBytes(hw, spi, send, recv, 3);
    LoopbackEchoes(eusci, before, sends);
    assert recv[..3] == sends == [0x01, 0x02, 0x03];
    echoes := recv[..3];
  }
}
