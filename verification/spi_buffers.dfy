/**
 * The byte and buffer operations that board_common/common/spi.h declares
 * around `spi_transfer_byte`: `spi_send_byte(s)`, `spi_receive_byte(s)` and
 * `spi_transfer_bytes`. Each buffer operation exchanges its bytes one at a
 * time, in index order, through the single-byte transfer and stops at the
 * first error it reports.
 */
module SpiBuffers {
  import opened Registry
  import opened SpiErrors
  import opened Controllers
  import opened SpiEusci

  /** The byte clocked out while only receiving. */
  const Placeholder: Byte := 0xFF

  /** What a receive of `n` bytes sends. */
  function Placeholders(n: nat): (s: seq<Byte>)
    ensures |s| == n && forall i :: 0 <= i < n ==> s[i] == Placeholder
  {
    seq(n, _ => Placeholder)
  }

  /**
   * `spi_send_byte`: sends one byte and drops the byte that comes back.
   * The outcome and the new controller state are those of `spi_transfer_byte`.
   */
  method SpiSendByte(hw: Hardware, channel: Spi, sendByte: Byte) returns (err: SpiError)
    requires hw.Valid() && channel.eusci < EusciCount(hw.build)
    modifies hw.ctrl
    ensures hw.Valid()
    ensures err == TransferOutcome(old(hw.ctrl[channel.eusci]))
    ensures hw.ctrl[..] == old(hw.ctrl[..])[channel.eusci :=
      AfterTransfer(old(hw.ctrl[channel.eusci]), sendByte, hw.reply(channel.eusci, old(hw.ctrl[channel.eusci]).sent + [sendByte]))]
  {
    var discard := new Byte[1];
    err := hw.SpiTransferByte(channel, sendByte, discard, 0);
  }

  /** `spi_receive_byte`: sends the placeholder byte and stores the byte that comes back at `recv[at]`. */
  method SpiReceiveByte(hw: Hardware, channel: Spi, recv: array<Byte>, at: nat) returns (err: SpiError)
    requires hw.Valid() && channel.eusci < EusciCount(hw.build) && at < recv.Length
    modifies hw.ctrl, recv
    ensures hw.Valid()
    ensures err == TransferOutcome(old(hw.ctrl[channel.eusci]))
    ensures err == ChannelClosed ==> hw.ctrl[..] == old(hw.ctrl[..]) && recv[..] == old(recv[..])
    ensures err == NoError ==>
      var k := channel.eusci;
      var rx := hw.reply(k, old(hw.ctrl[k]).sent + [Placeholder]);
      && hw.ctrl[..] == old(hw.ctrl[..])[k := Exchanged(old(hw.ctrl[k]), Placeholder, rx)]
      && recv[..] == old(recv[..])[at := rx]
  {
    err := hw.SpiTransferByte(channel, Placeholder, recv, at);
  }

  /**
   * `spi_transfer_bytes`: sends `send[..length]` and saves the `length`
   * bytes that come back into `recv[..length]`, index for index. On a closed
   * channel it reports `ChannelClosed` and changes nothing. `send` and `recv`
   * may be the same buffer.
   */
  method SpiTransferBytes(hw: Hardware, channel: Spi, send: array<Byte>, recv: array<Byte>, length: nat)
    returns (err: SpiError)
    requires hw.Valid() && channel.eusci < EusciCount(hw.build)
    requires length <= send.Length && length <= recv.Length
    modifies hw.ctrl, recv
    ensures hw.Valid()
    ensures err == if length == 0 then NoError else TransferOutcome(old(hw.ctrl[channel.eusci]))
    ensures err == ChannelClosed ==> hw.ctrl[..] == old(hw.ctrl[..]) && recv[..] == old(recv[..])
    ensures err == NoError ==>
      var k := channel.eusci;
      var c := old(hw.ctrl[k]);
      && hw.ctrl[..] == old(hw.ctrl[..])[k := Transferred(c, hw.reply, k, old(send[..length]))]
      && recv[..length] == Replies(hw.reply, k, c.sent, old(send[..length]))
      && recv[length..] == old(recv[length..])
  {
    var k := channel.eusci;
    ghost var c := hw.ctrl[k];
    ghost var sends := send[..length];
    var i := 0;
    while i < length
      invariant 0 <= i <= length
      invariant hw.Valid()
      invariant i > 0 ==> !c.inReset
      invariant hw.ctrl[..] == old(hw.ctrl[..])[k := Transferred(c, hw.reply, k, sends[..i])]
      invariant recv[..i] == Replies(hw.reply, k, c.sent, sends[..i])
      invariant forall j :: i <= j < recv.Length ==> recv[j] == old(recv[j])
      invariant forall j :: i <= j < length ==> send[j] == sends[j]
    {
      var e := hw.SpiTransferByte(channel, send[i], recv, i);
      if e != NoError {
        return e;
      }
      TransferredStep(c, hw.reply, k, sends, i);
      ReplyPrefix(hw.reply, k, c.sent, sends, i);
      assert c.sent + sends[..i] + [sends[i]] == c.sent + sends[..i + 1];
      assert recv[..i + 1] == recv[..i] + [recv[i]];
      i := i + 1;
    }
    assert sends[..length] == sends;
    forall j | 0 <= j < recv.Length - length
      ensures recv[length..][j] == old(recv[length..])[j]
    {
      assert recv[length..][j] == recv[length + j];
    }
    assert recv[length..] == old(recv[length..]);
    return NoError;
  }

  /**
   * `spi_send_bytes`: sends `send[..length]`, dropping the bytes that come
   * back. On a closed channel it reports `ChannelClosed` and changes nothing.
   */
  method SpiSendBytes(hw: Hardware, channel: Spi, send: array<Byte>, length: nat) returns (err: SpiError)
    requires hw.Valid() && channel.eusci < EusciCount(hw.build) && length <= send.Length
    modifies hw.ctrl
    ensures hw.Valid()
    ensures err == if length == 0 then NoError else TransferOutcome(old(hw.ctrl[channel.eusci]))
    ensures err == ChannelClosed ==> hw.ctrl[..] == old(hw.ctrl[..])
    ensures err == NoError ==>
      hw.ctrl[..] == old(hw.ctrl[..])[channel.eusci := Transferred(old(hw.ctrl[channel.eusci]), hw.reply, channel.eusci, send[..length])]
  {
    var k := channel.eusci;
    ghost var c := hw.ctrl[k];
    var i := 0;
    while i < length
      invariant 0 <= i <= length
      invariant hw.Valid()
      invariant i > 0 ==> !c.inReset
      invariant hw.ctrl[..] == old(hw.ctrl[..])[k := Transferred(c, hw.reply, k, send[..i])]
    {
      var e := SpiSendByte(hw, channel, send[i]);
      if e != NoError {
        return e;
      }
      TransferredStep(c, hw.reply, k, send[..length], i);
      assert send[..length][..i] == send[..i] && send[..length][..i + 1] == send[..i + 1];
      i := i + 1;
    }
    return NoError;
  }

  /**
   * `spi_receive_bytes`: fills `recv[..length]` with the bytes that come
   * back while the placeholder byte is sent `length` times. On a closed
   * channel it reports `ChannelClosed` and changes nothing.
   */
  method SpiReceiveBytes(hw: Hardware, channel: Spi, recv: array<Byte>, length: nat) returns (err: SpiError)
    requires hw.Valid() && channel.eusci < EusciCount(hw.build) && length <= recv.Length
    modifies hw.ctrl, recv
    ensures hw.Valid()
    ensures err == if length == 0 then NoError else TransferOutcome(old(hw.ctrl[channel.eusci]))
    ensures err == ChannelClosed ==> hw.ctrl[..] == old(hw.ctrl[..]) && recv[..] == old(recv[..])
    ensures err == NoError ==>
      var k := channel.eusci;
      var c := old(hw.ctrl[k]);
      && hw.ctrl[..] == old(hw.ctrl[..])[k := Transferred(c, hw.reply, k, Placeholders(length))]
      && recv[..length] == Replies(hw.reply, k, c.sent, Placeholders(length))
      && recv[length..] == old(recv[length..])
  {
    var k := channel.eusci;
    ghost var c := hw.ctrl[k];
    ghost var sends := Placeholders(length);
    var i := 0;
    while i < length
      invariant 0 <= i <= length
      invariant hw.Valid()
      invariant i > 0 ==> !c.inReset
      invariant hw.ctrl[..] == old(hw.ctrl[..])[k := Transferred(c, hw.reply, k, sends[..i])]
      invariant recv[..i] == Replies(hw.reply, k, c.sent, sends[..i])
      invariant forall j :: i <= j < recv.Length ==> recv[j] == old(recv[j])
    {
      var e := SpiReceiveByte(hw, channel, recv, i);
      if e != NoError {
        return e;
      }
      TransferredStep(c, hw.reply, k, sends, i);
      ReplyPrefix(hw.reply, k, c.sent, sends, i);
      assert c.sent + sends[..i] + [sends[i]] == c.sent + sends[..i + 1];
      assert recv[..i + 1] == recv[..i] + [recv[i]];
      i := i + 1;
    }
    assert sends[..length] == sends;
    forall j | 0 <= j < recv.Length - length
      ensures recv[length..][j] == old(recv[length..])[j]
    {
      assert recv[length..][j] == recv[length + j];
    }
    assert recv[length..] == old(recv[length..]);
    return NoError;
  }
}
