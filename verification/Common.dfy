/** Datatypes and 32-bit constants shared by every module. */
module Common {

  datatype Option<+T> = None | Some(value: T)

  const PAGE_SIZE: int := 0x1000
  const WORD_LIMIT: int := 0x1_0000_0000

  /** A value of 32 bits without a sign. */
  predicate IsWord(x: int) { 0 <= x < WORD_LIMIT }

  predicate Injective<T(==)>(s: seq<T>) {
    forall i, j :: 0 <= i < j < |s| ==> s[i] != s[j]
  }

  function Reversed<T>(s: seq<T>): seq<T> {
    if s == [] then [] else Reversed(s[1..]) + [s[0]]
  }

  lemma {:induction false} ReversedAt<T>(s: seq<T>)
    ensures |Reversed(s)| == |s|
    ensures forall i :: 0 <= i < |s| ==> Reversed(s)[i] == s[|s| - 1 - i]
    decreases |s|
  {
    if s != [] {
      ReversedAt(s[1..]);
    }
  }

  lemma {:induction false} ReversedAppend<T>(s: seq<T>, x: T)
    ensures Reversed(s + [x]) == [x] + Reversed(s)
    decreases |s|
  {
    if s == [] {
      assert s + [x] == [x];
    } else {
      assert (s + [x])[1..] == s[1..] + [x];
      ReversedAppend(s[1..], x);
    }
  }
}
