/** Bytes, 32-bit words and concatenation: the vocabulary every other module uses. */
module Basics {

  type byte = x: int | 0 <= x < 256

  datatype Option<+T> = None | Some(value: T)

  const UINT_MAX := 0xFFFF_FFFF

  /** `unsigned int`: every length and offset of a chunk. */
  type uint32 = x: int | 0 <= x <= UINT_MAX

  /** Unsigned 32-bit arithmetic wraps. */
  function Wrap(x: int): (r: uint32)
    ensures 0 <= x <= UINT_MAX ==> r == x
  {
    if 0 <= x <= UINT_MAX then x else x % 0x1_0000_0000
  }

  function Min(a: int, b: int): int {
    if a < b then a else b
  }

  lemma SliceOfSlice<T>(s: seq<T>, a: nat, b: nat, c: nat, d: nat)
    requires a <= b <= |s| && c <= d <= b - a
    ensures s[a..b][c..d] == s[a + c..a + d]
  {
    forall i | 0 <= i < d - c
      ensures s[a..b][c..d][i] == s[a + c..a + d][i]
    {
      assert s[a..b][c + i] == s[a + c + i];
    }
  }

  function Concat(blocks: seq<seq<byte>>): seq<byte> {
    if blocks == [] then [] else blocks[0] + Concat(blocks[1..])
  }

  lemma {:induction false} ConcatAppend(a: seq<seq<byte>>, b: seq<seq<byte>>)
    ensures Concat(a + b) == Concat(a) + Concat(b)
  {
    if a == [] {
      assert a + b == b;
    } else {
      assert (a + b)[1..] == a[1..] + b;
      ConcatAppend(a[1..], b);
    }
  }

  ghost predicate NoneEmpty(blocks: seq<seq<byte>>) {
    forall i | 0 <= i < |blocks| :: blocks[i] != []
  }

  lemma ConcatSnoc(a: seq<seq<byte>>, b: seq<byte>)
    ensures Concat(a + [b]) == Concat(a) + b
  {
    ConcatAppend(a, [b]);
    assert Concat([b]) == b;
  }
}
