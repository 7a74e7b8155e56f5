/**
 * The SPI driver of board_common/native/spi_eusci_native.c over an abstract
 * bank of eUSCI controllers.
 *
 * `Hardware` holds one `Controller` per compiled-in instance, in the order of
 * the `BASE_ADDRESSES` table; the bus decodes a base address to its slot with
 * `SlotOf`. The driverlib calls the driver makes (`EUSCI_x_SPI_initMaster`,
 * `_enable`, `_disable`, `_getInterruptStatus`, `_transmitData`,
 * `_receiveData`) are methods that take the family whose register layout they
 * use and require the controller at that address to be of that family, so
 * every dispatch below is proved to pick the right path.
 */
module SpiEusci {
  import opened Options
  import opened Registry
  import opened SpiErrors
  import opened Controllers

  /** `spi_t`: the handle records the logical channel it was opened on. */
  class Spi {
    var eusci: nat

    /** A handle in static storage starts zeroed. */
    constructor ()
      ensures eusci == 0
    {
      eusci := 0;
    }
  }

  class Hardware {
    /** The instances the device header compiles in. */
    const build: Build
    /** The frequency `CS_getACLK()` reports. */
    const aclk: U32
    /** The device on the bus of each controller: its answer to all bytes sent so far. */
    const reply: (nat, seq<Byte>) -> Byte
    /** The controllers, indexed by logical channel. */
    const ctrl: array<Controller>

    ghost predicate Valid()
      reads ctrl
    {
      && Wf(build)
      && ctrl.Length == EusciCount(build)
      && forall k :: 0 <= k < ctrl.Length ==> ctrl[k].family == FamilyOfChannel(build, k)
    }

    /** Power-up: every controller of the build is held in reset. */
    constructor (build: Build, aclk: U32, reply: (nat, seq<Byte>) -> Byte, txLatency: nat)
      requires Wf(build)
      ensures Valid() && fresh(ctrl)
      ensures this.build == build && this.aclk == aclk && this.reply == reply
      ensures forall k :: 0 <= k < ctrl.Length ==> ctrl[k] == PowerOn(FamilyOfChannel(build, k), txLatency)
    {
      this.build := build;
      this.aclk := aclk;
      this.reply := reply;
      ctrl := new Controller[EusciCount(build)](k => PowerOn(FamilyOfChannel(build, k), txLatency));
    }

    /** The slot that answers at base address `base`. */
    function Slot(base: Address): (k: nat)
      requires base in BaseAddresses(build)
      ensures k < EusciCount(build) && BaseAddresses(build)[k] == base
    {
      SlotOf(BaseAddresses(build), base)
    }

    /** `base` addresses a controller whose registers have the layout of `family`. */
    ghost predicate Decodes(family: Family, base: Address)
      reads ctrl
    {
      Valid() && base in BaseAddresses(build) && ctrl[Slot(base)].family == family
    }

    // -------------------------------------------------------------------
    // Driverlib register access, per family.

    /** `HWREG16(base + OFS_UCxxCTLW0) & UCSWRST`: is the controller held in reset? */
    function ResetBit(family: Family, base: Address): (r: bool)
      reads ctrl
      requires Decodes(family, base)
      ensures r <==> OpenSucceeds(ctrl[Slot(base)])
      ensures r <==> TransferOutcome(ctrl[Slot(base)]) == ChannelClosed
    {
      ctrl[Slot(base)].inReset
    }

    /** `EUSCI_x_SPI_initMaster`: holds the controller in reset and writes the configuration. */
    method InitMaster(family: Family, base: Address, param: InitMasterParam)
      requires Decodes(family, base)
      modifies ctrl
      ensures Valid()
      ensures ctrl[..] == old(ctrl[..])[Slot(base) := old(ctrl[Slot(base)]).(inReset := true, config := Some(param))]
    {
      var k := Slot(base);
      ctrl[k] := ctrl[k].(inReset := true, config := Some(param));
    }

    /** `EUSCI_x_SPI_enable`: releases the controller from reset. */
    method Enable(family: Family, base: Address)
      requires Decodes(family, base)
      modifies ctrl
      ensures Valid()
      ensures ctrl[..] == old(ctrl[..])[Slot(base) := old(ctrl[Slot(base)]).(inReset := false)]
    {
      var k := Slot(base);
      ctrl[k] := ctrl[k].(inReset := false);
    }

    /** `EUSCI_x_SPI_disable`: puts the controller into reset. */
    method Disable(family: Family, base: Address)
      requires Decodes(family, base)
      modifies ctrl
      ensures Valid()
      ensures ctrl[..] == old(ctrl[..])[Slot(base) := AfterClose(old(ctrl[Slot(base)]))]
    {
      var k := Slot(base);
      ctrl[k] := AfterClose(ctrl[k]);
    }

    /** `EUSCI_x_SPI_getInterruptStatus(base, TRANSMIT_INTERRUPT)`: one read of the transmit flag. */
    method GetTransmitInterruptStatus(family: Family, base: Address) returns (ready: bool)
      requires Decodes(family, base)
      modifies ctrl
      ensures Valid()
      ensures ready == TxReady(old(ctrl[Slot(base)]))
      ensures ctrl[..] == old(ctrl[..])[Slot(base) :=
        if ready then old(ctrl[Slot(base)]) else old(ctrl[Slot(base)]).(busyPolls := old(ctrl[Slot(base)]).busyPolls - 1)]
    {
      var k := Slot(base);
      ready := ctrl[k].busyPolls == 0;
      if !ready {
        ctrl[k] := ctrl[k].(busyPolls := ctrl[k].busyPolls - 1);
      }
    }

    /**
     * `EUSCI_x_SPI_transmitData`: shifts `b` out and the device's answer in.
     * Writing while the transmit flag is clear is undefined, so it is not allowed.
     */
    method TransmitData(family: Family, base: Address, b: Byte)
      requires Decodes(family, base) && TxReady(ctrl[Slot(base)])
      modifies ctrl
      ensures Valid()
      ensures ctrl[..] == old(ctrl[..])[Slot(base) :=
        Exchanged(old(ctrl[Slot(base)]), b, reply(Slot(base), old(ctrl[Slot(base)]).sent + [b]))]
    {
      var k := Slot(base);
      ctrl[k] := Exchanged(ctrl[k], b, reply(k, ctrl[k].sent + [b]));
    }

    /** `EUSCI_x_SPI_receiveData`: reads the receive buffer. */
    method ReceiveData(family: Family, base: Address) returns (b: Byte)
      requires Decodes(family, base)
      ensures b == ctrl[Slot(base)].rxBuf
    {
      b := ctrl[Slot(base)].rxBuf;
    }

    // -------------------------------------------------------------------
    // The driver.

    /**
     * `eusci_a_spi_open` / `eusci_b_spi_open`, which differ only in the
     * family whose registers and constants they use.
     */
    method EusciSpiOpen(family: Family, eusci: nat, base: Address, clockRate: U32, out: Spi) returns (ok: bool)
      requires Valid() && eusci < EusciCount(build)
      requires base == BaseAddress(build, eusci) && family == FamilyOfChannel(build, eusci)
      modifies ctrl, out
      ensures Valid()
      ensures ok == OpenSucceeds(old(ctrl[eusci]))
      ensures ctrl[..] == old(ctrl[..])[eusci := AfterOpen(old(ctrl[eusci]), OpenParam(aclk, clockRate))]
      ensures out.eusci == if ok then eusci else old(out.eusci)
    {
      SlotOfBase(build, eusci);
      var isInResetState := ResetBit(family, base);
      if !isInResetState {
        return false;
      }
      var param := OpenParam(aclk, clockRate);
      InitMaster(family, base, param);
      Enable(family, base);
      out.eusci := eusci;
      return true;
    }

    /**
     * `spi_open`: opens logical channel `eusci` at `clockRate` bits per
     * second. It fails, changing nothing, when the controller is already out
     * of reset; otherwise it configures and enables the controller, whatever
     * its family, and binds the handle to the channel.
     */
    method SpiOpen(eusci: nat, clockRate: U32, out: Spi) returns (ok: bool)
      requires Valid() && eusci < EusciCount(build)
      modifies ctrl, out
      ensures Valid()
      ensures ok <==> old(ctrl[eusci].inReset)
      ensures !ok ==> ctrl[..] == old(ctrl[..]) && out.eusci == old(out.eusci)
      ensures ok ==> out.eusci == eusci
      ensures ok ==> !ctrl[eusci].inReset && ctrl[eusci].config.Some? && IsOpenConfig(ctrl[eusci].config.value, aclk, clockRate)
      ensures ctrl[..] == old(ctrl[..])[eusci := AfterOpen(old(ctrl[eusci]), OpenParam(aclk, clockRate))]
    {
      var baseAddress := BaseAddress(build, eusci);
      ClassifierAgrees(build, eusci);
      if IsEusciABlock(build, baseAddress) {
        ok := EusciSpiOpen(EusciA, eusci, baseAddress, clockRate, out);
      } else {
        ok := EusciSpiOpen(EusciB, eusci, baseAddress, clockRate, out);
      }
    }

    /** `eusci_a_spi_close` / `eusci_b_spi_close`. */
    method EusciSpiClose(family: Family, base: Address)
      requires Decodes(family, base)
      modifies ctrl
      ensures Valid()
      ensures ctrl[..] == old(ctrl[..])[Slot(base) := AfterClose(old(ctrl[Slot(base)]))]
    {
      Disable(family, base);
    }

    /**
     * `spi_close`: puts the handle's controller into reset, whatever its
     * state, and leaves the handle bound to its channel.
     */
    method SpiClose(channel: Spi)
      requires Valid() && channel.eusci < EusciCount(build)
      modifies ctrl
      ensures Valid()
      ensures ctrl[channel.eusci].inReset
      ensures ctrl[..] == old(ctrl[..])[channel.eusci := AfterClose(old(ctrl[channel.eusci]))]
    {
      var k := channel.eusci;
      var baseAddress := BaseAddress(build, k);
      SlotOfBase(build, k);
      ClassifierAgrees(build, k);
      assert Slot(baseAddress) == k;
      var family := if IsEusciABlock(build, baseAddress) then EusciA else EusciB;
      assert Decodes(family, baseAddress);
      if family == EusciA {
        EusciSpiClose(EusciA, baseAddress);
      } else {
        EusciSpiClose(EusciB, baseAddress);
      }
    }

    /**
     * `eusci_a_spi_transfer_byte` / `eusci_b_spi_transfer_byte`: refuses a
     * controller in reset; otherwise polls the transmit flag until it is set,
     * writes the byte, and stores the receive buffer at `recv[at]`.
     */
    method EusciSpiTransferByte(family: Family, base: Address, sendByte: Byte, recv: array<Byte>, at: nat)
      returns (err: SpiError)
      requires Decodes(family, base) && at < recv.Length
      modifies ctrl, recv
      ensures Valid()
      ensures err == TransferOutcome(old(ctrl[Slot(base)]))
      ensures err == ChannelClosed ==> ctrl[..] == old(ctrl[..]) && recv[..] == old(recv[..])
      ensures err == NoError ==>
        var k := Slot(base);
        var rx := reply(k, old(ctrl[k]).sent + [sendByte]);
        && ctrl[..] == old(ctrl[..])[k := Exchanged(old(ctrl[k]), sendByte, rx)]
        && recv[..] == old(recv[..])[at := rx]
    {
      var k := Slot(base);
      var isInResetState := ResetBit(family, base);
      if isInResetState {
        return ChannelClosed;
      }

      var ready := false;
      while !ready
        invariant Valid() && base in BaseAddresses(build) && ctrl[k].family == family
        invariant ctrl[..] == old(ctrl[..])[k := old(ctrl[k]).(busyPolls := ctrl[k].busyPolls)]
        invariant ready ==> TxReady(ctrl[k])
        invariant recv[..] == old(recv[..])
        decreases ctrl[k].busyPolls + (if ready then 0 else 1)
      {
        ready := GetTransmitInterruptStatus(family, base);
      }

      TransmitData(family, base, sendByte);
      var b := ReceiveData(family, base);
      recv[at] := b;
      return NoError;
    }

    /**
     * `spi_transfer_byte`: exchanges one byte on the handle's channel. It
     * reports `ChannelClosed`, touching neither the controller nor
     * `recv[at]`, when the controller is in reset (never opened, or closed);
     * otherwise `sendByte` goes out, the device's answer is stored at
     * `recv[at]`, and the outcome is `NoError`.
     */
    method SpiTransferByte(channel: Spi, sendByte: Byte, recv: array<Byte>, at: nat) returns (err: SpiError)
      requires Valid() && channel.eusci < EusciCount(build) && at < recv.Length
      modifies ctrl, recv
      ensures Valid()
      ensures err == ChannelClosed <==> old(ctrl[channel.eusci].inReset)
      ensures err == ChannelClosed ==> ctrl[..] == old(ctrl[..]) && recv[..] == old(recv[..])
      ensures ctrl[..] == old(ctrl[..])[channel.eusci :=
        AfterTransfer(old(ctrl[channel.eusci]), sendByte, reply(channel.eusci, old(ctrl[channel.eusci]).sent + [sendByte]))]
      ensures err == NoError ==>
        && ctrl[channel.eusci].sent == old(ctrl[channel.eusci].sent) + [sendByte]
        && recv[..] == old(recv[..])[at := reply(channel.eusci, old(ctrl[channel.eusci]).sent + [sendByte])]
    {
      var baseAddress := BaseAddress(build, channel.eusci);
      SlotOfBase(build, channel.eusci);
      ClassifierAgrees(build, channel.eusci);
      if IsEusciABlock(build, baseAddress) {
        err := EusciSpiTransferByte(EusciA, baseAddress, sendByte, recv, at);
      } else {
        err := EusciSpiTransferByte(EusciB, baseAddress, sendByte, recv, at);
      }
    }
  }
}
