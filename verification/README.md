# SPI channel driver over eUSCI_A / eUSCI_B controllers

This project models the SPI driver of the flight software's board support
layer. The driver is `board_common/native/spi_eusci_native.c`, and its public
contract is `board_common/common/spi.h`. One handle type (`spi_t`) and one
error type (`spi_error_t`) cover two controller families, eUSCI_A and eUSCI_B.
These have different register layouts but behave the same way:

- **Registry** (`registry.dfy`, module `Registry`). `BASE_ADDRESSES` maps a
  logical channel to the base address of its controller. A `Build` records
  which A0–A3 and B0–B3 instances the device header compiles in.
- **Classifier** (`registry.dfy`). `is_eusci_a_block` is a chain of
  equality tests against A0, A1, ..., starting from `false`. The model calls it
  `OrChain`. It is proved true exactly
  for the compiled-in A addresses. A lemma also proves that it agrees with the
  table, so every handle takes the path of its own family.
- **Controller state machine** (`controller.dfy`, module `Controllers`). One
  controller holds:
  - its family;
  - the `UCSWRST` reset bit;
  - the transmit-ready flag, as a count of polls that still read "busy";
  - the configuration written by `initMaster`;
  - the receive buffer;
  - the bytes shifted out so far.

  Functions give the effect of open, close and transfer on one controller.
  Lemmas cover sequences of these operations and multi-byte exchanges.
- **Driver** (`spi_eusci.dfy`, module `SpiEusci`). Class `Hardware` holds the
  controllers in an array. The driverlib calls are methods on it:
  - `initMaster`, `enable`, `disable`;
  - `getInterruptStatus`, `transmitData`, `receiveData`.

  Each of these names the family whose registers it uses, and it may only be
  applied to a controller of that family. On top of them are
  `eusci_{a,b}_spi_open`, `_close` and `_transfer_byte`, and the dispatchers
  `spi_open`, `spi_close` and `spi_transfer_byte`. The busy-wait on the
  transmit flag is a `while` loop. The handle `spi_t` is class `Spi` with its
  one field, `eusci`.
- **Buffer operations** (`spi_buffers.dfy`, module `SpiBuffers`): the
  operations of `spi.h` built on the single-byte transfer, namely
  `spi_send_byte`, `spi_receive_byte`, `spi_send_bytes`, `spi_receive_bytes`
  and `spi_transfer_bytes`.
- **Sessions** (`scenario.dfy`): a client that opens a channel, exchanges
  bytes over a loopback wire, closes it and reopens it.

The device on the other end of each bus is the function `reply`. It gives the
device's answer to all bytes sent so far on that controller. `Loopback`
answers every byte with that same byte.

The bound handle is treated as the code treats it. `spi_close` leaves
`out->eusci` as it was (spi_eusci_native.c:127-136). It does not clear or
invalidate the binding. A transfer after close is refused only because the
controller is back in reset.

## Model

| member | source | states |
|---|---|---|
| SpiErrors.Code | board_common/common/spi.h:16-26 | each outcome's C value is its position in `SPI_ERROR_LIST`; it is below the sentinel `spi_count` = 2, and it is 0 exactly for `SPI_NO_ERROR` |
| SpiErrors.FromCode | board_common/common/spi.h:16-26 | a C value names an outcome exactly when it is below `spi_count`, and then it is that outcome's code |
| SpiErrors.CodeRoundTrip | board_common/common/spi.h:16-26 | reading an outcome's code back gives the same outcome |
| SpiErrors.CodesAreDistinct | board_common/common/spi.h:16-26 | two outcomes have the same code only if they are the same outcome |
| Registry.EusciCount | board_common/native/spi_eusci_native.c:5 | `EUSCI_count`, the number of logical channels, is at most eight (A0–A3 and B0–B3) |
| Registry.BaseAddresses | board_common/native/spi_eusci_native.c:5-30 | the table `BASE_ADDRESSES` has exactly `EUSCI_count` entries |
| Registry.TableLayout | board_common/native/spi_eusci_native.c:5-30 | the table lists the compiled-in A bases in instance order, then the B bases in instance order, with no address twice |
| Registry.BaseAddress | board_common/native/spi_eusci_native.c:5-30 | `BASE_ADDRESSES[eusci]` is in the table; channels before the A/B boundary get an A base address, the rest get a B base address |
| Registry.OrChain | board_common/native/spi_eusci_native.c:34-47 | the chain of tests `x == A0`, `x == A1`, ... that starts from `false` is true exactly when `x` is one of the listed bases |
| Registry.IsEusciABlock | board_common/native/spi_eusci_native.c:33-48 | true exactly for the compiled-in A base addresses; every other address is classified B |
| Registry.ClassifierAgrees | board_common/native/spi_eusci_native.c:107-114 | with no duplicate bases, the base address of channel `eusci` is classified A exactly when the channel is an A instance |
| Registry.SlotOf | board_common/native/spi_eusci_native.c:5-30 | the inverse of the table: the bus decoding that every base-addressed register access relies on (for example lines 52, 68, 71, 119 and 150) finds the first table slot that holds the address |
| Registry.SlotOfBase | board_common/native/spi_eusci_native.c:107 | with no duplicate bases, the address `BASE_ADDRESSES[eusci]` decodes back to slot `eusci`, so a handle always reaches its own controller |
| Controllers.OpenParam | board_common/native/spi_eusci_native.c:58-65 | the parameter block `spi_open` builds: ACLK source at the `CS_getACLK()` frequency, the requested clock rate, MSB first, data changed on the first edge and captured on the next, clock idle high, 3-pin mode |
| Controllers.OpenSucceeds | board_common/native/spi_eusci_native.c:51-55 | the `is_in_reset_state` gate: open proceeds exactly on a controller where a transfer would report `SPI_CHANNEL_CLOSED` |
| Controllers.AfterOpen | board_common/native/spi_eusci_native.c:50-76 | after open the controller is out of reset; a controller in reset gets the new configuration, and an enabled one is left unchanged |
| Controllers.AfterClose | board_common/native/spi_eusci_native.c:117-125 | after close the controller is in reset; nothing else about it changes |
| Controllers.TransferOutcome | board_common/native/spi_eusci_native.c:138-143 | a transfer reports `SPI_CHANNEL_CLOSED` exactly when the controller is in reset |
| Controllers.Exchanged | board_common/native/spi_eusci_native.c:150-151 | one exchange appends the sent byte to the bus, puts the answer in the receive buffer and makes the transmit flag busy again |
| Controllers.AfterTransfer | board_common/native/spi_eusci_native.c:138-154 | a transfer on a controller in reset changes nothing; on an enabled one it is exactly one exchange, which sends the byte and receives the answer and keeps reset bit, family and configuration |
| Controllers.CloseIdempotent | board_common/native/spi_eusci_native.c:127-136 | closing twice leaves the same state as closing once |
| Controllers.ReopenAfterClose | board_common/common/spi.h:38-41 | after close, the next open of the channel succeeds and enables it with the new configuration |
| Controllers.OperationsKeepFamily | board_common/native/spi_eusci_native.c:106-183 | open, close and transfer never change which family a controller belongs to |
| Controllers.TransferSucceedsIffOpen | board_common/native/spi_eusci_native.c:50-183 | starting from reset, a transfer succeeds after a sequence of opens, closes and transfers exactly when some open in it is not followed by a close |
| Controllers.Replies | board_common/common/spi.h:85-94 | a multi-byte exchange brings back one byte per byte sent |
| Controllers.ReplyAt | board_common/common/spi.h:85-94 | the `i`-th byte brought back is the device's answer to the bus history ending with the `i`-th byte sent |
| Controllers.ReplyPrefix | board_common/common/spi.h:85-94 | exchanging one more byte appends exactly one answer to the bytes brought back |
| Controllers.Transferred | board_common/common/spi.h:85-94 | after exchanging a buffer, the bus carries the old bytes followed by the buffer, in order. Reset bit, family and configuration are unchanged, and the receive buffer holds the last answer |
| Controllers.TransferredStep | board_common/common/spi.h:85-94 | a buffer exchange is that many single-byte exchanges, one after another, in index order |
| Controllers.LoopbackEchoes | board_common/common/spi.h:75-83 | on a loopback wire that answers within the same exchange, the bytes brought back are exactly the bytes sent, index for index |
| Controllers.LaggedRepliesTrail | board_common/native/spi_eusci_native.c:150-151 | if the byte read back trails the bus by one exchange, every byte after the first brought back is the previous byte sent |
| SpiEusci.Hardware.ResetBit | board_common/native/spi_eusci_native.c:52 | the read of `UCSWRST` in control word 0 (also lines 80, 140 and 158) is set exactly when open may proceed and exactly when a transfer is refused |
| SpiEusci.Hardware.InitMaster | board_common/native/spi_eusci_native.c:67-68 | writes the configuration into the addressed controller and leaves it in reset; no other controller changes |
| SpiEusci.Hardware.Enable | board_common/native/spi_eusci_native.c:70-71 | releases the addressed controller from reset; nothing else changes |
| SpiEusci.Hardware.Disable | board_common/native/spi_eusci_native.c:118-119 | puts the addressed controller into reset; nothing else changes |
| SpiEusci.Hardware.GetTransmitInterruptStatus | board_common/native/spi_eusci_native.c:147-148 | one read of the transmit flag: reports it set exactly when no busy polls remain, and otherwise counts one busy poll down |
| SpiEusci.Hardware.TransmitData | board_common/native/spi_eusci_native.c:150 | may only be called when the transmit flag is set; the byte goes out and the device's answer comes in |
| SpiEusci.Hardware.ReceiveData | board_common/native/spi_eusci_native.c:151 | returns the addressed controller's receive buffer |
| SpiEusci.Hardware.EusciSpiOpen | board_common/native/spi_eusci_native.c:50-104 | succeeds exactly when the controller is in reset. On success the controller is configured and enabled and `out->eusci` is set; on failure nothing changes |
| SpiEusci.Hardware.SpiOpen | board_common/native/spi_eusci_native.c:106-115 | succeeds exactly when the channel's controller is in reset. On success the controller is enabled with the open configuration, whatever its family, `out->eusci` is the channel, and no other controller changes. On failure neither the controllers nor the handle change |
| SpiEusci.Hardware.EusciSpiClose | board_common/native/spi_eusci_native.c:117-125 | puts the addressed controller into reset; nothing else changes |
| SpiEusci.Hardware.SpiClose | board_common/native/spi_eusci_native.c:127-136 | puts the handle's controller into reset whatever its state; no other controller changes, and the handle is not written |
| SpiEusci.Hardware.EusciSpiTransferByte | board_common/native/spi_eusci_native.c:138-172 | refuses a controller in reset without touching it or `*receive_byte`. Otherwise it polls until the transmit flag is set, then sends the byte and stores the answer at `*receive_byte` |
| SpiEusci.Hardware.SpiTransferByte | board_common/native/spi_eusci_native.c:174-183 | returns `SPI_CHANNEL_CLOSED` exactly when the handle's controller is in reset, and then changes nothing. Otherwise the byte is sent, the answer is stored at `*receive_byte` and the result is `SPI_NO_ERROR` |
| SpiBuffers.SpiSendByte | board_common/common/spi.h:43-48 | has the outcome and state change of `spi_transfer_byte`; the byte brought back is dropped |
| SpiBuffers.SpiReceiveByte | board_common/common/spi.h:59-64 | sends the placeholder byte and stores the answer at `*receive_byte`; on a closed channel it changes nothing |
| SpiBuffers.SpiTransferBytes | board_common/common/spi.h:85-94 | sends `length` bytes and saves the `length` answers index for index, leaving the rest of the receive buffer alone. On a closed channel it returns `SPI_CHANNEL_CLOSED` and changes nothing |
| SpiBuffers.SpiSendBytes | board_common/common/spi.h:50-57 | the `length` bytes of the buffer go out in order; on a closed channel it returns `SPI_CHANNEL_CLOSED` and changes nothing |
| SpiBuffers.SpiReceiveBytes | board_common/common/spi.h:66-73 | writes `length` answers into the buffer, sending the placeholder for each; on a closed channel it returns `SPI_CHANNEL_CLOSED` and changes nothing |
| Scenario.LoopbackSession | board_common/native/spi_eusci_native.c:106-183 | on a fresh controller, the first open succeeds and a second open is refused. 0xAA comes back over the loopback. After two closes a transfer reports `SPI_CHANNEL_CLOSED`, and the channel then opens again |
| Scenario.LoopbackBuffer | board_common/common/spi.h:85-94 | on an open loopback channel, `spi_transfer_bytes` of `[1, 2, 3]` returns `SPI_NO_ERROR` and brings back `[1, 2, 3]` |

## Left out

- The bodies of `spi_send_byte`, `spi_send_bytes`, `spi_receive_byte`, `spi_receive_bytes` and `spi_transfer_bytes` are not part of this model. Only their declarations in `spi.h` are. The model builds them as loops over `spi_transfer_byte` that stop at the first error.
- SpiReceiveByte: the placeholder byte 0xFF that the receive operations send is a choice of this model.
- SpiTransferBytes: a zero-length call returns `SPI_NO_ERROR` without looking at the channel. This is a choice of this model, and `SpiSendBytes` and `SpiReceiveBytes` make the same choice.
- `spi_error_string` is left out. It exists only in debug builds and its body is not part of this model.
- `CS_getACLK` is the constant `aclk` of the hardware. The clock-divider arithmetic inside `EUSCI_x_SPI_initMaster` is not modelled; the model keeps only the parameter block it is given.
- Register offsets (`OFS_UCxxCTLW0`) and bit values (`UCSWRST`) are not modelled. Each reads as the family-tagged access to the controller's reset bit (`ResetBit`).
- The concrete base addresses of the device header are not part of this model. A `Build` is any list of at most four A and four B addresses with no duplicates.
- Channel numbers outside the compiled-in table are not modelled. The source leaves them undefined, so each operation requires `eusci < EUSCI_count`.
- GetTransmitInterruptStatus: the transmit flag always becomes set after a finite number of polls (`busyPolls`). A flag that never sets, which hangs the source forever, is not modelled.
- TransmitData: the byte read back is whatever `reply` gives for the bus history up to and including the byte just sent. The model follows the promise of spi.h:75-83 that the call saves "the return byte". The source reads the receive buffer straight after writing the transmit buffer (spi_eusci_native.c:150-151) without waiting for the receive flag, and on real hardware that read can return the previous exchange's byte. `reply` can describe such a device (`Lagged`, see `LaggedRepliesTrail`). `Loopback`, `LoopbackEchoes` and both sessions assume the answer arrives within the same exchange. When the hardware actually latches the received byte is not modelled.
- Concurrency is not modelled. This covers the non-atomic check-then-enable in `spi_open` under preemption and interleaved transfers from two tasks on one handle.
- A C pointer to a receive byte is an array and an index. Pointers into arbitrary memory, and receive pointers that alias the controller state, are not modelled.
- `dev_board/native/main.c` is not part of this model: hardware setup, tasks, timers, the radio task and the register dump. Neither is the I2C stub `i2c_usci_native.c` or the header selection in `uart_native.h`.
