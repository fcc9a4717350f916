/** A page of bytes (src/common/config.h, src/storage/page.h). */
module Page {
  const PAGE_SIZE: nat := 4096

  function Zeros(n: nat): (b: seq<bv8>)
    ensures |b| == n
  {
    seq(n, _ => 0)
  }

  type PageData = d: seq<bv8> | |d| == PAGE_SIZE witness Zeros(PAGE_SIZE)
}
