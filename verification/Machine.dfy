/** What the layers of the kernel's memory management have in common. */
module Machine {
  const PAGE_SIZE: int := 4096
  const TWO32: int := 0x1_0000_0000

  /** Where the heap's window of virtual memory begins. */
  const KHEAP: int := 0xC800_0000

  function Pow2(n: nat): (r: int)
    ensures r >= 1
  {
    if n == 0 then 1 else 2 * Pow2(n - 1)
  }

  /** The numbers of the first `max` frames. */
  function AllFrames(max: nat): (s: set<int>)
    ensures |s| == max
    ensures forall f :: f in s <==> 0 <= f < max
  {
    if max == 0 then {} else AllFrames(max - 1) + {max - 1}
  }
}
