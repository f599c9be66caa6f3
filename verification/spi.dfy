/**
  The shared SPI bus as the drivers see it: a full-duplex exchange that sends
  a list of integers and receives one byte per clock.

  The exchange itself (spidev's `xfer`/`xfer2`, the chip-select lines, the bus
  lock) is outside the model and appears as a function parameter. A driver
  call is described by the frames it hands to that function and by what it
  returns, so "no transfer happened" is a statement about `sent`.
*/
module Spi {
  import opened Results

  type Byte = x: int | 0 <= x < 256

  /** One exchange on the bus: outbound values in, inbound bytes out. */
  type Transport = seq<int> -> seq<Byte>

  /** The exchange every SPI transfer performs: one inbound byte per outbound byte. */
  ghost predicate SameLength(xfer: Transport) {
    forall tx :: |xfer(tx)| == |tx|
  }

  predicate IsByteFrame(tx: seq<int>) {
    forall i :: 0 <= i < |tx| ==> 0 <= tx[i] < 256
  }

  /** A driver call: the frames handed to the transport, in order, and the call's outcome. */
  datatype Exchange<+T, +E> = Exchange(sent: seq<seq<int>>, result: Result<T, E>)
}
