/**
 * The outcome of an SPI transfer (`spi_error_t` in board_common/common/spi.h).
 * The header builds the enumeration from an X-macro list, so the constants are
 * numbered in list order and a trailing sentinel counts them.
 */
module SpiErrors {
  import opened Options

  datatype SpiError = NoError | ChannelClosed

  /** The sentinel `spi_count` that closes the enumeration: the number of outcomes. */
  const SpiCount: nat := 2

  /** The C value of each enumerator: its position in `SPI_ERROR_LIST`. */
  function Code(e: SpiError): (n: nat)
    ensures n < SpiCount
    ensures n == 0 <==> e == NoError
  {
    match e
    case NoError => 0
    case ChannelClosed => 1
  }

  /** Reads a C value back as an outcome; values at or past the sentinel are none. */
  function FromCode(n: nat): (r: Option<SpiError>)
    ensures r.Some? <==> n < SpiCount
    ensures r.Some? ==> Code(r.value) == n
  {
    if n == 0 then Some(NoError)
    else if n == 1 then Some(ChannelClosed)
    else None
  }

  /** Every outcome has its own code, and the code names it again. */
  lemma CodeRoundTrip(e: SpiError)
    ensures FromCode(Code(e)) == Some(e)
  {
  }

  /** The enumeration is closed: every outcome is one of the two listed, with distinct codes. */
  lemma CodesAreDistinct(e1: SpiError, e2: SpiError)
    ensures Code(e1) == Code(e2) <==> e1 == e2
  {
  }
}
