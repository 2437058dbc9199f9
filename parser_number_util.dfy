/** Model of src/socket_io_parser/number_util.rs, the draft copy of `convert_char_to_number`. */
module ParserNumberUtil {
  import opened Wrappers
  import opened Decimal
  import CodecNumberUtil

  /** Same text as the codec's copy, and the same function on every char. */
  function CharToNumber(c: char): (r: Option<nat>)
    ensures r == CodecNumberUtil.CharToNumber(c)
  {
    match ToDigit(c)
    case None => None
    case Some(n) => if n > 9 then None else Some(n)
  }
}
