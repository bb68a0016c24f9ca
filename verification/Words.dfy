/** 64-bit machine words: the casts the code makes between signed and unsigned. */
module Words {

  const TWO_TO_THE_63: int := 0x8000_0000_0000_0000
  const TWO_TO_THE_64: int := 0x1_0000_0000_0000_0000

  /** `as i64`: two's complement. */
  function AsI64(n: int): int {
    var m := n % TWO_TO_THE_64;
    if m < TWO_TO_THE_63 then m else m - TWO_TO_THE_64
  }

  /** `as usize` on a 64-bit target. */
  function AsUsize(n: int): int {
    n % TWO_TO_THE_64
  }
}
