/**
 strcmp (lib/libc/string/strcmp.c) and memset (kernel/libc/string.c), which work on whole
 32-bit words where the alignment allows it.  Memory is bytes by address; words are
 little-endian.
 */
module Strings {

  type Byte = bv8

  const WORD: int := 4

  predicate Unaligned(p: int) { p % WORD != 0 }

  function WordOf(b0: Byte, b1: Byte, b2: Byte, b3: Byte): bv32 {
    (b0 as bv32) | (b1 as bv32 << 8) | (b2 as bv32 << 16) | (b3 as bv32 << 24)
  }

  function Load(mem: seq<Byte>, p: int): bv32
    requires 0 <= p && p + WORD <= |mem|
  {
    WordOf(mem[p], mem[p + 1], mem[p + 2], mem[p + 3])
  }

  // ---------- strcmp ----------

  function DetectNull(x: bv32): bv32 {
    (x - 0x01010101) & !x & 0x80808080
  }

  /** DETECTNULL is non-zero exactly when a byte of the word is zero. */
  lemma DetectNullExactly(b0: Byte, b1: Byte, b2: Byte, b3: Byte)
    ensures DetectNull(WordOf(b0, b1, b2, b3)) != 0 <==> b0 == 0 || b1 == 0 || b2 == 0 || b3 == 0
  {
  }

  lemma WordsEqual(a0: Byte, a1: Byte, a2: Byte, a3: Byte, b0: Byte, b1: Byte, b2: Byte, b3: Byte)
    ensures WordOf(a0, a1, a2, a3) == WordOf(b0, b1, b2, b3) <==> a0 == b0 && a1 == b1 && a2 == b2 && a3 == b3
  {
  }

  lemma BytesAsInts(a: Byte, b: Byte)
    ensures a as int == b as int <==> a == b
    ensures 0 <= a as int < 256
  {
  }

  /** The string at p has its end in memory. */
  ghost predicate Terminated(mem: seq<Byte>, p: int) {
    0 <= p && exists e :: p <= e < |mem| && mem[e] == 0
  }

  /** The string at p, without its end. */
  function StringAt(mem: seq<Byte>, p: int): (s: seq<Byte>)
    requires 0 <= p <= |mem|
    decreases |mem| - p
  {
    if p == |mem| || mem[p] == 0 then [] else [mem[p]] + StringAt(mem, p + 1)
  }

  /** Comparison of two strings: the difference of the first bytes that differ, the end
      counting as 0. */
  function Order(s: seq<Byte>, t: seq<Byte>): int
    decreases |s|
  {
    if s == [] && t == [] then 0
    else if s == [] then -(t[0] as int)
    else if t == [] then s[0] as int
    else if s[0] != t[0] then s[0] as int - t[0] as int
    else Order(s[1..], t[1..])
  }

  predicate NulFree(s: seq<Byte>) { 0 !in s }

  /** The string goes from p to the first zero byte. */
  lemma {:induction false} StringIsUpToNul(mem: seq<Byte>, p: int, e: int)
    requires 0 <= p <= e < |mem| && mem[e] == 0 && NulFree(mem[p..e])
    ensures StringAt(mem, p) == mem[p..e]
    decreases e - p
  {
    if p < e {
      assert mem[p..e] == [mem[p]] + mem[p + 1..e];
      assert mem[p] == mem[p..e][0];
      forall b | b in mem[p + 1..e] ensures b in mem[p..e] {}
      StringIsUpToNul(mem, p + 1, e);
    }
  }

  lemma {:induction false} StringIsNulFree(mem: seq<Byte>, p: int)
    requires 0 <= p <= |mem|
    ensures NulFree(StringAt(mem, p))
    decreases |mem| - p
  {
    if p < |mem| && mem[p] != 0 {
      StringIsNulFree(mem, p + 1);
    }
  }

  /** The order is total on strings: zero exactly for equal ones, and the sign turns when the
      operands are swapped. */
  lemma {:induction false} OrderIsTotal(s: seq<Byte>, t: seq<Byte>)
    requires NulFree(s) && NulFree(t)
    ensures Order(s, t) == 0 <==> s == t
    ensures Order(s, t) == -Order(t, s)
    decreases |s|
  {
    if s != [] {
      BytesAsInts(s[0], 0);
    }
    if t != [] {
      BytesAsInts(t[0], 0);
    }
    if s != [] && t != [] {
      BytesAsInts(s[0], t[0]);
      assert s == [s[0]] + s[1..] && t == [t[0]] + t[1..];
      if s[0] == t[0] {
        OrderIsTotal(s[1..], t[1..]);
      }
    }
  }

  lemma {:induction false} OrderIsTransitive(s: seq<Byte>, t: seq<Byte>, u: seq<Byte>)
    requires NulFree(s) && NulFree(t) && NulFree(u)
    requires Order(s, t) <= 0 && Order(t, u) <= 0
    ensures Order(s, u) <= 0
    decreases |s|
  {
    if s != [] {
      BytesAsInts(s[0], 0);
      if t != [] {
        BytesAsInts(t[0], 0);
        BytesAsInts(s[0], t[0]);
        if u != [] {
          BytesAsInts(t[0], u[0]);
          BytesAsInts(s[0], u[0]);
          if s[0] == t[0] == u[0] {
            OrderIsTransitive(s[1..], t[1..], u[1..]);
          }
        }
      }
    } else if u != [] {
      BytesAsInts(u[0], 0);
    }
  }

  /** Which difference it is: that of the bytes behind the longest common start, an end
      counting as 0. */
  lemma {:induction false} OrderIsFirstDifference(start: seq<Byte>, s: seq<Byte>, t: seq<Byte>)
    requires NulFree(s) && NulFree(t) && (s != [] && t != [] ==> s[0] != t[0])
    ensures Order(start + s, start + t) == (if s == [] then 0 else s[0] as int) - (if t == [] then 0 else t[0] as int)
    decreases |start|
  {
    if start == [] {
      assert start + s == s && start + t == t;
      if s != [] && t != [] {
        BytesAsInts(s[0], t[0]);
      }
    } else {
      assert (start + s)[0] == (start + t)[0] == start[0];
      assert (start + s)[1..] == start[1..] + s && (start + t)[1..] == start[1..] + t;
      OrderIsFirstDifference(start[1..], s, t);
    }
  }

  /** Equal bytes that do not end the strings can be passed over. */
  lemma PassOver(mem: seq<Byte>, p: int, q: int)
    requires Terminated(mem, p) && Terminated(mem, q) && mem[p] == mem[q] != 0
    ensures Terminated(mem, p + 1) && Terminated(mem, q + 1)
    ensures Order(StringAt(mem, p), StringAt(mem, q)) == Order(StringAt(mem, p + 1), StringAt(mem, q + 1))
  {
    var s, t := StringAt(mem, p + 1), StringAt(mem, q + 1);
    assert StringAt(mem, p) == [mem[p]] + s && StringAt(mem, q) == [mem[q]] + t;
    assert ([mem[p]] + s)[1..] == s && ([mem[q]] + t)[1..] == t;
  }

  /** Where the bytes differ or the first string ends, the order is their difference. */
  lemma OrderHere(mem: seq<Byte>, p: int, q: int)
    requires Terminated(mem, p) && Terminated(mem, q) && (mem[p] == 0 || mem[p] != mem[q])
    ensures Order(StringAt(mem, p), StringAt(mem, q)) == mem[p] as int - mem[q] as int
  {
    BytesAsInts(mem[p], mem[q]);
    BytesAsInts(0, 0);
  }

  /** Equal words without a zero byte can be passed over; with one, the strings are equal. */
  lemma PassOverWord(mem: seq<Byte>, p: int, q: int)
    requires Terminated(mem, p) && Terminated(mem, q)
    requires p + WORD <= |mem| && q + WORD <= |mem| && Load(mem, p) == Load(mem, q)
    ensures if DetectNull(Load(mem, p)) != 0 then Order(StringAt(mem, p), StringAt(mem, q)) == 0
            else Terminated(mem, p + WORD) && Terminated(mem, q + WORD) &&
                 Order(StringAt(mem, p), StringAt(mem, q)) == Order(StringAt(mem, p + WORD), StringAt(mem, q + WORD))
  {
    hide WordOf;
    hide DetectNull;
    hide StringAt;
    hide Order;
    WordsEqual(mem[p], mem[p + 1], mem[p + 2], mem[p + 3], mem[q], mem[q + 1], mem[q + 2], mem[q + 3]);
    DetectNullExactly(mem[p], mem[p + 1], mem[p + 2], mem[p + 3]);
    PassOverUpTo(mem, p, q, WORD);
  }

  /** What is passed over one by one is passed over. */
  lemma {:induction false} PassOverUpTo(mem: seq<Byte>, p: int, q: int, n: nat)
    requires Terminated(mem, p) && Terminated(mem, q) && p + n <= |mem| && q + n <= |mem|
    requires forall i :: p <= i < p + n ==> mem[i] == mem[i - p + q]
    ensures if exists i :: p <= i < p + n && mem[i] == 0 then Order(StringAt(mem, p), StringAt(mem, q)) == 0
            else Terminated(mem, p + n) && Terminated(mem, q + n) &&
                 Order(StringAt(mem, p), StringAt(mem, q)) == Order(StringAt(mem, p + n), StringAt(mem, q + n))
    decreases n
  {
    hide StringAt;
    hide Order;
    if n > 0 {
      if mem[p] == 0 {
        OrderHere(mem, p, q);
      } else {
        PassOver(mem, p, q);
        PassOverUpTo(mem, p + 1, q + 1, n - 1);
      }
    }
  }

  /** The aligned word that holds a byte of a string is in memory. */
  lemma WordInMemory(mem: seq<Byte>, p: int)
    requires |mem| % WORD == 0 && Terminated(mem, p) && !Unaligned(p)
    ensures p + WORD <= |mem|
  {
  }

  lemma WordsApart(p: int)
    ensures Unaligned(p + WORD) == Unaligned(p + 2 * WORD) == Unaligned(p + 3 * WORD) == Unaligned(p + 4 * WORD) == Unaligned(p)
  {
  }

  /** strcmp.  Memory ends at a word boundary, so a word that holds a byte of a string can be read. */
  method Strcmp(mem: seq<Byte>, str1: int, str2: int) returns (r: int)
    requires |mem| % WORD == 0 && Terminated(mem, str1) && Terminated(mem, str2)
    ensures r == Order(StringAt(mem, str1), StringAt(mem, str2))
  {
    hide StringAt;
    hide Order;
    hide DetectNull;
    hide WordOf;
    hide Load;
    hide Unaligned;
    ghost var goal := Order(StringAt(mem, str1), StringAt(mem, str2));
    var p, q := str1, str2;
    if !(Unaligned(str1) || Unaligned(str2)) {
      WordInMemory(mem, p);
      WordInMemory(mem, q);
      while Load(mem, p) == Load(mem, q)
        invariant Terminated(mem, p) && Terminated(mem, q) && !Unaligned(p) && !Unaligned(q)
        invariant p + WORD <= |mem| && q + WORD <= |mem|
        invariant Order(StringAt(mem, p), StringAt(mem, q)) == goal
        decreases |mem| - p
      {
        PassOverWord(mem, p, q);
        if DetectNull(Load(mem, p)) != 0 {
          return 0;
        }
        WordsApart(p);
        WordsApart(q);
        p, q := p + WORD, q + WORD;
        WordInMemory(mem, p);
        WordInMemory(mem, q);
      }
    }
    while mem[p] != 0 && mem[p] == mem[q]
      invariant Terminated(mem, p) && Terminated(mem, q)
      invariant Order(StringAt(mem, p), StringAt(mem, q)) == goal
      decreases |mem| - p
    {
      PassOver(mem, p, q);
      p, q := p + 1, q + 1;
    }
    OrderHere(mem, p, q);
    r := mem[p] as int - mem[q] as int;
  }

  // ---------- memset ----------

  /** m with b in [lo, hi). */
  function Filled(m: seq<Byte>, lo: int, hi: int, b: Byte): seq<Byte>
    requires 0 <= lo <= hi <= |m|
  {
    m[..lo] + seq(hi - lo, _ => b) + m[hi..]
  }

  lemma FilledNothing(m: seq<Byte>, lo: int, b: Byte)
    requires 0 <= lo <= |m|
    ensures Filled(m, lo, lo, b) == m
  {
  }

  /** What is left of c under the mask 0xff, or as a char: its remainder, as an unsigned number. */
  function LowByte(c: bv32): (b: Byte)
    ensures b as bv32 == c % 256
  {
    (c & 0xFF) as Byte
  }

  function FirstByte(w: bv32): Byte {
    (w & 0xFF) as Byte
  }

  /** The word that memset writes. */
  function Pattern(b: Byte): bv32 {
    var d := b as bv32;
    var buffer := (d << 8) | d;
    buffer | (buffer << 16)
  }

  lemma PatternRepeats(b: Byte)
    ensures var w := Pattern(b);
      FirstByte(w) == b && FirstByte(w >> 8) == b && FirstByte(w >> 16) == b && FirstByte(w >> 24) == b
  {
  }

  method Store(mem: array<Byte>, p: int, w: bv32)
    requires 0 <= p && p + WORD <= mem.Length
    modifies mem
    ensures mem[..] == old(mem[..])[p := FirstByte(w)][p + 1 := FirstByte(w >> 8)][p + 2 := FirstByte(w >> 16)][p + 3 := FirstByte(w >> 24)]
  {
    mem[p] := FirstByte(w);
    mem[p + 1] := FirstByte(w >> 8);
    mem[p + 2] := FirstByte(w >> 16);
    mem[p + 3] := FirstByte(w >> 24);
  }

  /** A word of the pattern behind what is filled. */
  method StorePattern(mem: array<Byte>, ghost m: seq<Byte>, ghost dest: int, p: int, b: Byte)
    requires !Unaligned(p) && 0 <= dest <= p && p + WORD <= mem.Length == |m| && mem[..] == Filled(m, dest, p, b)
    modifies mem
    ensures mem[..] == Filled(m, dest, p + WORD, b)
  {
    PatternRepeats(b);
    hide Pattern;
    hide FirstByte;
    Store(mem, p, Pattern(b));
  }

  method StoreByte(mem: array<Byte>, ghost m: seq<Byte>, ghost dest: int, p: int, b: Byte)
    requires 0 <= dest <= p < mem.Length == |m| && mem[..] == Filled(m, dest, p, b)
    modifies mem
    ensures mem[..] == Filled(m, dest, p + 1, b)
  {
    mem[p] := b;
  }

  /** memset: c modulo 256 in exactly [dest, dest + count). */
  method Memset(mem: array<Byte>, dest: int, c: bv32, count: int)
    requires 0 <= dest && 0 <= count && dest + count <= mem.Length
    modifies mem
    ensures forall i :: dest <= i < dest + count ==> mem[i] as bv32 == c % 256
    ensures forall i :: 0 <= i < mem.Length && !(dest <= i < dest + count) ==> mem[i] == old(mem[i])
  {
    FillBytes(mem, dest, c, count);
    hide LowByte;
  }

  /** The loops of memset. */
  method FillBytes(mem: array<Byte>, dest: int, c: bv32, count: int)
    requires 0 <= dest && 0 <= count && dest + count <= mem.Length
    modifies mem
    ensures mem[..] == Filled(old(mem[..]), dest, dest + count, LowByte(c))
  {
    hide LowByte;
    hide Filled;
    hide Unaligned;
    ghost var m := mem[..];
    var b, s, left := LowByte(c), dest, count;
    FilledNothing(m, dest, b);
    while Unaligned(s)
      invariant dest <= s && 0 <= left && s + left == dest + count && mem[..] == Filled(m, dest, s, b)
      decreases left
    {
      if left == 0 {
        return;
      }
      StoreByte(mem, m, dest, s, b);
      s, left := s + 1, left - 1;
    }
    if left >= WORD {
      while left >= 4 * WORD
        invariant dest <= s && 0 <= left && s + left == dest + count && !Unaligned(s) && mem[..] == Filled(m, dest, s, b)
      {
        WordsApart(s);
        StorePattern(mem, m, dest, s, b);
        StorePattern(mem, m, dest, s + WORD, b);
        StorePattern(mem, m, dest, s + 2 * WORD, b);
        StorePattern(mem, m, dest, s + 3 * WORD, b);
        s, left := s + 4 * WORD, left - 4 * WORD;
      }
      while left >= WORD
        invariant dest <= s && 0 <= left && s + left == dest + count && !Unaligned(s) && mem[..] == Filled(m, dest, s, b)
      {
        WordsApart(s);
        StorePattern(mem, m, dest, s, b);
        s, left := s + WORD, left - WORD;
      }
    }
    while left > 0
      invariant dest <= s && 0 <= left && s + left == dest + count && mem[..] == Filled(m, dest, s, b)
    {
      StoreByte(mem, m, dest, s, b);
      s, left := s + 1, left - 1;
    }
  }
}
