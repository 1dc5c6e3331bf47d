/** lib/libc/string/memcpy.c on byte-addressed memory: leading bytes up to a word boundary, whole
    words, trailing bytes. */
module Memcpy {
  import opened Basics

  type Byte = x: int | 0 <= x < 256

  const WSIZE := 4                 // sizeof(long)

  // ---------- what a copy is ----------

  /** The bytes [dst, dst + n) hold what [src, src + n) held. */
  function Copied(s: seq<Byte>, dst: nat, src: nat, n: nat): seq<Byte>
    requires dst + n <= |s| && src + n <= |s|
  {
    seq(|s|, j requires 0 <= j < |s| => if dst <= j < dst + n then s[src + (j - dst)] else s[j])
  }

  /** The copy byte by byte, forward. */
  function ByteCopy(s: seq<Byte>, dst: nat, src: nat, n: nat): (r: seq<Byte>)
    requires dst + n <= |s| && src + n <= |s|
    ensures |r| == |s|
  {
    if n == 0 then s
    else
      var t := ByteCopy(s, dst, src, n - 1);
      t[dst + n - 1 := t[src + n - 1]]
  }

  /** No byte is written before it is read. */
  predicate Forward(dst: nat, src: nat, n: nat) {
    dst <= src || src + n <= dst
  }

  /** Without such an overlap the copy is the old source. */
  lemma {:induction false} ByteCopyCopies(s: seq<Byte>, dst: nat, src: nat, n: nat)
    requires dst + n <= |s| && src + n <= |s| && Forward(dst, src, n)
    ensures ByteCopy(s, dst, src, n) == Copied(s, dst, src, n)
  {
    if n > 0 {
      ByteCopyCopies(s, dst, src, n - 1);
      var t := Copied(s, dst, src, n - 1);
      assert t[src + n - 1] == s[src + n - 1];
      assert t[dst + n - 1 := s[src + n - 1]] == Copied(s, dst, src, n);
    } else {
      assert Copied(s, dst, src, 0) == s;
    }
  }

  /** No byte outside the destination changes, overlap or not. */
  lemma {:induction false} OutsideKept(s: seq<Byte>, dst: nat, src: nat, n: nat, j: nat)
    requires dst + n <= |s| && src + n <= |s| && j < |s| && !(dst <= j < dst + n)
    ensures ByteCopy(s, dst, src, n)[j] == s[j]
  {
    if n == 0 {
    } else {
      OutsideKept(s, dst, src, n - 1, j);
    }
  }

  /** Where a byte of the destination comes from: the old source up to the overlap, and past it the
      destination itself, one distance below. */
  lemma {:induction false} RepeatsAt(s: seq<Byte>, dst: nat, src: nat, n: nat, k: nat)
    requires src < dst && dst + n <= |s| && k < n
    ensures ByteCopy(s, dst, src, n)[dst + k] ==
      if k < dst - src then s[src + k] else ByteCopy(s, dst, src, n)[src + k]
  {
    var t := ByteCopy(s, dst, src, n - 1);
    if k < n - 1 {
      RepeatsAt(s, dst, src, n - 1, k);
    } else if k < dst - src {
      OutsideKept(s, dst, src, n - 1, src + k);
    }
  }

  /** Byte k of the source is the byte one distance above it. */
  predicate SameAt(s: seq<Byte>, dst: nat, src: nat, k: nat)
    requires src + k < |s| && dst + k < |s|
  {
    s[src + k] == s[dst + k]
  }

  /** The part of the source that is overwritten before it is read repeats the bytes below it. */
  predicate Periodic(s: seq<Byte>, dst: nat, src: nat, n: nat)
    requires src < dst && dst + n <= |s|
  {
    forall k {:trigger SameAt(s, dst, src, k)} :: 0 <= k < n - (dst - src) ==> SameAt(s, dst, src, k)
  }

  lemma {:induction false} PeriodicCopied(s: seq<Byte>, dst: nat, src: nat, n: nat, k: nat)
    requires src < dst && dst + n <= |s| && Periodic(s, dst, src, n) && k < n
    ensures ByteCopy(s, dst, src, n)[dst + k] == s[src + k]
  {
    RepeatsAt(s, dst, src, n, k);
    if k >= dst - src {
      PeriodicCopied(s, dst, src, n, k - (dst - src));
      assert SameAt(s, dst, src, k - (dst - src));
    }
  }

  /** With the destination inside the source and above it, the copy is the old source exactly if the
      source repeats itself at that distance. */
  lemma OverlapExact(s: seq<Byte>, src: nat, dst: nat, n: nat)
    requires src < dst < src + n && dst + n <= |s|
    ensures ByteCopy(s, dst, src, n) == Copied(s, dst, src, n) <==> Periodic(s, dst, src, n)
  {
    var r, c := ByteCopy(s, dst, src, n), Copied(s, dst, src, n);
    if r == c {
      forall k | 0 <= k < n - (dst - src) ensures SameAt(s, dst, src, k) {
        RepeatsAt(s, dst, src, n, k + (dst - src));
        assert r[dst + (k + (dst - src))] == s[src + (k + (dst - src))];
        assert r[dst + k] == s[src + k];
      }
    }
    if Periodic(s, dst, src, n) {
      forall j | 0 <= j < |s| ensures r[j] == c[j] {
        if dst <= j < dst + n {
          PeriodicCopied(s, dst, src, n, j - dst);
        } else {
          OutsideKept(s, dst, src, n, j);
        }
      }
    }
  }

  /** Copying m bytes and then the next n is copying m + n. */
  lemma {:induction false} ByteCopyTwice(s: seq<Byte>, dst: nat, src: nat, m: nat, n: nat)
    requires dst + m + n <= |s| && src + m + n <= |s|
    ensures ByteCopy(ByteCopy(s, dst, src, m), dst + m, src + m, n) == ByteCopy(s, dst, src, m + n)
  {
    if n == 0 {
    } else {
      ByteCopyTwice(s, dst, src, m, n - 1);
    }
  }

  lemma {:induction false} ByteCopySelf(s: seq<Byte>, a: nat, n: nat)
    requires a + n <= |s|
    ensures ByteCopy(s, a, a, n) == s
  {
    if n == 0 {
    } else {
      ByteCopySelf(s, a, n - 1);
    }
  }

  /** Four bytes at once are four bytes one after the other, if the addresses are four apart. */
  lemma FourBytes(s: seq<Byte>, dst: nat, src: nat)
    requires dst + WSIZE <= |s| && src + WSIZE <= |s| && (dst + WSIZE <= src || src + WSIZE <= dst)
    ensures ByteCopy(s, dst, src, WSIZE)
      == s[dst := s[src]][dst + 1 := s[src + 1]][dst + 2 := s[src + 2]][dst + 3 := s[src + 3]]
  {
    assert ByteCopy(s, dst, src, 0) == s;
    assert ByteCopy(s, dst, src, 1) == s[dst := s[src]];
    assert ByteCopy(s, dst, src, 2) == s[dst := s[src]][dst + 1 := s[src + 1]];
    assert ByteCopy(s, dst, src, 3) == s[dst := s[src]][dst + 1 := s[src + 1]][dst + 2 := s[src + 2]];
  }

  // ---------- bits ----------

  lemma LowBits(x: nat)
    ensures x % WSIZE == x % 2 + 2 * (x / 2 % 2)
  {
  }

  /** Masking with 3 is the remainder by 4. */
  lemma MaskIsMod(x: nat)
    ensures And(x, WSIZE - 1) == x % WSIZE
  {
    AndIsMod(x, WSIZE);
  }

  lemma OrBits(x: nat, y: nat)
    ensures Or(x, y) % 2 == (if x % 2 == 1 || y % 2 == 1 then 1 else 0) && Or(x, y) / 2 == Or(x / 2, y / 2)
  {
  }

  lemma XorBits(x: nat, y: nat)
    ensures Xor(x, y) % 2 == (if x % 2 != y % 2 then 1 else 0) && Xor(x, y) / 2 == Xor(x / 2, y / 2)
  {
  }

  lemma OrMod(x: nat, y: nat)
    ensures Or(x, y) % WSIZE == 0 <==> x % WSIZE == 0 && y % WSIZE == 0
  {
    OrBits(x, y);
    OrBits(x / 2, y / 2);
    LowBits(x);
    LowBits(y);
    LowBits(Or(x, y));
  }

  lemma XorMod(x: nat, y: nat)
    ensures Xor(x, y) % WSIZE == 0 <==> x % WSIZE == y % WSIZE
  {
    XorBits(x, y);
    XorBits(x / 2, y / 2);
    LowBits(x);
    LowBits(y);
    LowBits(Xor(x, y));
  }

  /** The tests of the low address bits: is either address off a word boundary, do they differ, and
      by how much is the first off. */
  method TestBits(t: nat, dst: nat) returns (either: bool, differ: bool, off: nat)
    ensures either == !(t % WSIZE == 0 && dst % WSIZE == 0)
    ensures differ == (t % WSIZE != dst % WSIZE) && off == t % WSIZE
  {
    either := And(Or(t, dst), WSIZE - 1) != 0;
    differ := And(Xor(t, dst), WSIZE - 1) != 0;
    off := And(t, WSIZE - 1);
    MaskIsMod(Or(t, dst));
    MaskIsMod(Xor(t, dst));
    MaskIsMod(t);
    OrMod(t, dst);
    XorMod(t, dst);
  }

  // ---------- word accesses ----------

  function WordOf(b: seq<Byte>): int
    requires |b| == WSIZE
  {
    b[0] as int + 256 * (b[1] as int) + 65536 * (b[2] as int) + 16777216 * (b[3] as int)
  }

  function ByteAt(w: int, k: nat): Byte
    decreases k
  {
    if k == 0 then w % 256 else ByteAt(w / 256, k - 1)
  }

  lemma WordBytes(b: seq<Byte>)
    requires |b| == WSIZE
    ensures ByteAt(WordOf(b), 0) == b[0] && ByteAt(WordOf(b), 1) == b[1]
    ensures ByteAt(WordOf(b), 2) == b[2] && ByteAt(WordOf(b), 3) == b[3]
  {
    var b0: int, b1: int, b2: int, b3: int := b[0], b[1], b[2], b[3];
    var w2 := b2 + 256 * b3;
    var w1 := b1 + 256 * w2;
    var w0 := b0 + 256 * w1;
    assert WordOf(b) == w0;
    assert w0 / 256 == w1 && w1 / 256 == w2 && w2 / 256 == b3;
    assert ByteAt(w0, 1) == ByteAt(w1, 0);
    assert ByteAt(w0, 2) == ByteAt(w1, 1) == ByteAt(w2, 0);
    assert ByteAt(w0, 3) == ByteAt(w1, 2) == ByteAt(w2, 1) == ByteAt(b3, 0);
  }

  method LoadWord(mem: array<Byte>, a: nat) returns (w: int)
    requires a + WSIZE <= mem.Length && a % WSIZE == 0
    ensures w == WordOf(mem[a..a + WSIZE])
  {
    w := mem[a] as int + 256 * (mem[a + 1] as int) + 65536 * (mem[a + 2] as int) + 16777216 * (mem[a + 3] as int);
  }

  method StoreWord(mem: array<Byte>, a: nat, w: int)
    requires a + WSIZE <= mem.Length && a % WSIZE == 0
    modifies mem
    ensures mem[..] ==
      old(mem[..])[a := ByteAt(w, 0)][a + 1 := ByteAt(w, 1)][a + 2 := ByteAt(w, 2)][a + 3 := ByteAt(w, 3)]
  {
    mem[a], mem[a + 1], mem[a + 2], mem[a + 3] := ByteAt(w, 0), ByteAt(w, 1), ByteAt(w, 2), ByteAt(w, 3);
  }

  /** One word from src to dst. */
  method CopyWord(mem: array<Byte>, dst: nat, src: nat)
    requires dst + WSIZE <= mem.Length && src + WSIZE <= mem.Length && dst % WSIZE == 0 && src % WSIZE == 0
      && dst != src
    modifies mem
    ensures mem[..] == ByteCopy(old(mem[..]), dst, src, WSIZE)
  {
    FourBytes(mem[..], dst, src);
    WordBytes(mem[src..src + WSIZE]);
    var w := LoadWord(mem, src);
    StoreWord(mem, dst, w);
  }

  // ---------- the loops ----------

  /** The byte loop, for t > 0. */
  method CopyBytes(mem: array<Byte>, dst0: nat, src0: nat, t0: nat)
    requires t0 > 0 && dst0 + t0 <= mem.Length && src0 + t0 <= mem.Length
    modifies mem
    ensures mem[..] == ByteCopy(old(mem[..]), dst0, src0, t0)
  {
    var dst, src, t := dst0, src0, t0;
    while true
      invariant 0 < t <= t0 && dst == dst0 + (t0 - t) && src == src0 + (t0 - t)
      invariant mem[..] == ByteCopy(old(mem[..]), dst0, src0, t0 - t)
      decreases t
    {
      mem[dst] := mem[src];
      dst, src := dst + 1, src + 1;
      t := t - 1;
      if t == 0 {
        break;
      }
    }
  }

  lemma NextWord(a: nat)
    requires a % WSIZE == 0
    ensures (a + WSIZE) % WSIZE == 0
  {
  }

  /** The word loop, for t > 0. */
  method CopyWords(mem: array<Byte>, dst0: nat, src0: nat, t0: nat)
    requires t0 > 0 && dst0 + WSIZE * t0 <= mem.Length && src0 + WSIZE * t0 <= mem.Length
    requires dst0 % WSIZE == 0 && src0 % WSIZE == 0 && dst0 != src0
    modifies mem
    ensures mem[..] == ByteCopy(old(mem[..]), dst0, src0, WSIZE * t0)
  {
    var dst, src, t := dst0, src0, t0;
    ghost var was := mem[..];
    ghost var done: nat := 0;
    while true
      invariant 0 < t && done + WSIZE * t == WSIZE * t0 && dst == dst0 + done && src == src0 + done
      invariant dst % WSIZE == 0 && src % WSIZE == 0
      invariant mem[..] == ByteCopy(was, dst0, src0, done)
      decreases t
    {
      ByteCopyTwice(was, dst0, src0, done, WSIZE);
      NextWord(dst);
      NextWord(src);
      CopyWord(mem, dst, src);
      src, dst := src + WSIZE, dst + WSIZE;
      done := done + WSIZE;
      t := t - 1;
      if t == 0 {
        break;
      }
    }
  }

  /** How many bytes the prologue copies: all of them if the low bits differ or no whole word fits,
      else those up to the next boundary. */
  function Prologue(dst: nat, src: nat, length: nat): nat {
    if dst % WSIZE == 0 && src % WSIZE == 0 then 0
    else if dst % WSIZE != src % WSIZE || length < WSIZE then length
    else WSIZE - src % WSIZE
  }

  lemma NextBoundary(a: nat)
    ensures (a + (WSIZE - a % WSIZE)) % WSIZE == 0
  {
    assert a == WSIZE * (a / WSIZE) + a % WSIZE;
    assert a + (WSIZE - a % WSIZE) == WSIZE * (a / WSIZE + 1);
  }

  /** If a whole word is left after the prologue, both addresses are on a word boundary. */
  lemma PrologueAligns(dst: nat, src: nat, length: nat)
    ensures var t := Prologue(dst, src, length);
      t <= length && (length - t >= WSIZE ==> (dst + t) % WSIZE == 0 && (src + t) % WSIZE == 0)
  {
    NextBoundary(src);
    NextBoundary(dst);
  }

  /** The aligning prologue. */
  method Align(mem: array<Byte>, dst: nat, src: nat, length: nat) returns (t: nat)
    requires dst + length <= mem.Length && src + length <= mem.Length && length > 0
    modifies mem
    ensures t == Prologue(dst, src, length) <= length && mem[..] == ByteCopy(old(mem[..]), dst, src, t)
  {
    var either, differ, off := TestBits(src, dst);
    if either {
      if differ || length < WSIZE {
        t := length;
      } else {
        t := WSIZE - off;
      }
      CopyBytes(mem, dst, src, t);
    } else {
      t := 0;
    }
  }

  /** Whole words, then what is left over. */
  method CopyAligned(mem: array<Byte>, dst0: nat, src0: nat, length: nat) returns (ghost words: nat)
    requires dst0 + length <= mem.Length && src0 + length <= mem.Length && dst0 != src0
    requires length >= WSIZE ==> dst0 % WSIZE == 0 && src0 % WSIZE == 0
    modifies mem
    ensures mem[..] == ByteCopy(old(mem[..]), dst0, src0, length) && words == length / WSIZE
  {
    var dst, src := dst0, src0;
    var t := length / WSIZE;
    words := t;
    if t != 0 {
      CopyWords(mem, dst, src, t);
      src, dst := src + WSIZE * t, dst + WSIZE * t;
    }
    ByteCopyTwice(old(mem[..]), dst0, src0, WSIZE * words, length % WSIZE);
    MaskIsMod(length);
    t := And(length, WSIZE - 1);
    if t != 0 {
      CopyBytes(mem, dst, src, t);
    }
  }

  lemma OnlyDestination(s: seq<Byte>, r: seq<Byte>, dst: nat, src: nat, n: nat)
    requires dst + n <= |s| && src + n <= |s| && r == ByteCopy(s, dst, src, n)
    ensures forall j :: 0 <= j < |s| && !(dst <= j < dst + n) ==> r[j] == s[j]
  {
    forall j | 0 <= j < |s| && !(dst <= j < dst + n) ensures r[j] == s[j] { OutsideKept(s, dst, src, n, j); }
  }

  /** memcpy is the byte copy, for every pair of alignments and every length; words is the number of
      word accesses, all of them with both addresses on a word boundary. */
  method Memcpy(mem: array<Byte>, dst0: nat, src0: nat, length0: nat) returns (r: nat, ghost words: nat)
    requires dst0 + length0 <= mem.Length && src0 + length0 <= mem.Length
    modifies mem
    ensures r == dst0 && mem[..] == ByteCopy(old(mem[..]), dst0, src0, length0)
    ensures forall j :: 0 <= j < mem.Length && !(dst0 <= j < dst0 + length0) ==> mem[j] == old(mem[j])
    ensures words == if length0 == 0 || dst0 == src0 then 0 else (length0 - Prologue(dst0, src0, length0)) / WSIZE
  {
    words := 0;
    if length0 == 0 || dst0 == src0 {
      if dst0 == src0 { ByteCopySelf(mem[..], dst0, length0); }
      return dst0, words;
    }
    PrologueAligns(dst0, src0, length0);
    var t := Align(mem, dst0, src0, length0);
    ByteCopyTwice(old(mem[..]), dst0, src0, t, length0 - t);
    words := CopyAligned(mem, dst0 + t, src0 + t, length0 - t);
    OnlyDestination(old(mem[..]), mem[..], dst0, src0, length0);
    return dst0, words;
  }
}
