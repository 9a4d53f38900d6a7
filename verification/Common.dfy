/** Small types shared by the components. */
module Common {

  datatype Option<+T> = None | Some(value: T)

  const UINT64_SPAN: int := 0x1_0000_0000_0000_0000

  /** A reading of an unsigned 64-bit clock or counter. */
  type Word = x: int | 0 <= x < UINT64_SPAN

  type Long = x: int | -0x8000_0000_0000_0000 <= x < 0x8000_0000_0000_0000

  const LONG_MIN: Long := -0x8000_0000_0000_0000
  const LONG_MAX: Long := 0x7fff_ffff_ffff_ffff

  /** What a conditional request is made with. */
  datatype Validators = Validators(etag: string, lastModified: string)

  /** Unsigned 64-bit subtraction: a clock that steps back wraps to a huge interval. */
  function Elapsed(now: Word, since: Word): (interval: Word)
    ensures since <= now ==> interval == now - since
    ensures now < since ==> interval == now - since + UINT64_SPAN
  {
    if since <= now then now - since else now - since + UINT64_SPAN
  }
}
