/** The 32-bit machine the kernel runs on: word memory, the kernel's address window and
    the few bit tricks the C code plays on addresses. */
module Machine {
  import opened Basics

  const WORD_RANGE := 0x1_0000_0000
  const KERNEL_BASE := 0x8000_0000
  const PAGE := 0x1000

  /** Memory contents by byte address of a 32-bit word; a word never stored reads as zero. */
  type Words = map<int, int>

  function Rd(w: Words, a: int): int {
    if a in w then w[a] else 0
  }

  /** Bytes [x, x + n) and [y, y + m) do not meet. */
  predicate Apart(x: int, n: int, y: int, m: int) {
    x + n <= y || y + m <= x
  }

  function P2V(pa: int): (va: int)
    ensures 0 <= pa < KERNEL_BASE ==> va == pa + KERNEL_BASE
    ensures KERNEL_BASE <= pa < WORD_RANGE ==> va == pa - KERNEL_BASE
  {
    (pa + KERNEL_BASE) % WORD_RANGE
  }

  function V2P(va: int): (pa: int)
    ensures KERNEL_BASE <= va < WORD_RANGE ==> pa == va - KERNEL_BASE
  {
    (va - KERNEL_BASE) % WORD_RANGE
  }

  class Ram {
    var words: Words

    constructor (w: Words)
      ensures words == w
    {
      words := w;
    }

    function Load(a: int): int
      reads this
    {
      Rd(words, a)
    }

    method Store(a: int, v: int)
      modifies this
      ensures words == old(words)[a := v]
    {
      words := words[a := v];
    }
  }

  lemma Pow2Word()
    ensures Pow2(32) == WORD_RANGE
  {
    Pow2Byte(0);
    Pow2Byte(8);
    Pow2Byte(16);
    Pow2Byte(24);
  }

  lemma BigPow2()
    ensures IsPow2(0x8000_0000) && IsPow2(WORD_RANGE)
    ensures Pow2(32) == WORD_RANGE
  {
    Pow2Word();
    Pow2IsPow2(32);
    assert IsPow2(WORD_RANGE) == IsPow2(WORD_RANGE / 2);
  }
}
