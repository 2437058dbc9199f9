/** Model of src/socket_io_packet_codec/number_util.rs. */
module CodecNumberUtil {
  import opened Wrappers
  import opened Decimal

  /**
   * `convert_char_to_number`: `c.to_digit(10)`, then a `> 9` guard, then a cast to `u8`.
   * The result is `Some(c - '0')` exactly for the ASCII digits.
   */
  function CharToNumber(c: char): (r: Option<nat>)
    ensures r.Some? <==> '0' <= c <= '9'
    ensures r.Some? ==> r.value <= 9 && r.value == c as int - '0' as int
  {
    match ToDigit(c)
    case None => None
    case Some(n) => if n > 9 then None else Some(n)
  }

  /** The `n > 9` guard never fires: `to_digit(10)` already yields a value below ten. */
  lemma GuardUnreachable(c: char)
    ensures ToDigit(c).Some? ==> !(ToDigit(c).value > 9)
    ensures CharToNumber(c) == ToDigit(c)
  {
  }
}
