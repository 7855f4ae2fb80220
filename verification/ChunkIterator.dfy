/** The byte iterator: a cursor over the data blocks of a chunk that behaves like a saturating index. */
module ChunkIterators {
  import opened Basics
  import opened Chunks
  import opened UseTracking

  /** The number of bytes in the first `n` blocks. */
  function Before(exts: seq<seq<byte>>, n: nat): (r: nat)
    requires n <= |exts|
    ensures r == |Concat(exts[..n])|
  {
    if n == 0 then
      0
    else
      assert exts[..n] == exts[..n - 1] + [exts[n - 1]];
      ConcatSnoc(exts[..n - 1], exts[n - 1]);
      Before(exts, n - 1) + |exts[n - 1]|
  }

  /** The byte at offset `k` of block `n` is the byte of the whole at the sum of the earlier lengths plus `k`. */
  lemma ConcatAt(exts: seq<seq<byte>>, n: nat, k: nat)
    requires n < |exts| && k < |exts[n]|
    ensures Before(exts, n) + |exts[n]| <= |Concat(exts)|
    ensures Concat(exts)[Before(exts, n) + k] == exts[n][k]
  {
    assert exts == exts[..n] + [exts[n]] + exts[n + 1..];
    ConcatAppend(exts[..n] + [exts[n]], exts[n + 1..]);
    ConcatSnoc(exts[..n], exts[n]);
  }

  lemma {:induction false} NonEmptyBlocksTakeRoom(exts: seq<seq<byte>>, n: nat, m: nat)
    requires n <= m <= |exts| && NoneEmpty(exts)
    ensures Before(exts, n) + (m - n) <= Before(exts, m)
  {
    if n < m {
      NonEmptyBlocksTakeRoom(exts, n, m - 1);
    }
  }

  /** How a run of increments and decrements moves an index that cannot leave [0, size]. */
  datatype Move = Forward | Backward

  function Moved(pos: nat, size: nat, m: Move): nat {
    match m
    case Forward => if pos < size then pos + 1 else size
    case Backward => if pos > 0 then pos - 1 else 0
  }

  function MovedBy(pos: nat, size: nat, moves: seq<Move>): nat
    decreases |moves|
  {
    if moves == [] then pos
    else Moved(MovedBy(pos, size, moves[..|moves| - 1]), size, moves[|moves| - 1])
  }

  /** A step can be undone unless it was stopped by the end it ran into. */
  lemma StepBackUndoes(pos: nat, size: nat)
    requires pos <= size
    ensures Moved(Moved(pos, size, Forward), size, Backward) == pos <==> pos < size || size == 0
    ensures Moved(Moved(pos, size, Backward), size, Forward) == pos <==> pos > 0 || size == 0
  {
  }

  /** A difference of 32-bit unsigned numbers taken as a 32-bit signed one. */
  function Difference(a: uint32, b: uint32): int {
    var d := (a - b) % 0x1_0000_0000;
    if d < 0x8000_0000 then d else d - 0x1_0000_0000
  }

  /** As many steps as the number says, back if it is negative. */
  function StepsOf(d: int): seq<Move> {
    if d >= 0 then seq(d, _ => Forward) else seq(-d, _ => Backward)
  }

  lemma {:induction false} StepsMove(pos: nat, size: nat, d: int)
    requires pos <= size
    ensures MovedBy(pos, size, StepsOf(d)) == if pos + d < 0 then 0 else if pos + d > size then size else pos + d
    decreases if d < 0 then -d else d
  {
    if d > 0 {
      assert StepsOf(d)[..d - 1] == StepsOf(d - 1);
      StepsMove(pos, size, d - 1);
    } else if d < 0 {
      assert StepsOf(d)[..-d - 1] == StepsOf(d + 1);
      StepsMove(pos, size, d + 1);
    }
  }

  lemma DifferenceIsExact(a: uint32, b: uint32)
    ensures -0x8000_0000 <= Difference(a, b) <= 0x7fff_ffff
    ensures Difference(a, b) == a - b <==> -0x8000_0000 <= a - b <= 0x7fff_ffff
    ensures a - b > 0x7fff_ffff ==> Difference(a, b) < 0
    ensures a - b < -0x8000_0000 ==> Difference(a, b) > 0
    ensures Difference(a, b) == 0 <==> a == b
  {
  }

  lemma DifferenceLeads(pos: uint32, target: uint32, size: uint32)
    requires pos <= size && target <= size
    ensures MovedBy(pos, size, StepsOf(Difference(target, pos))) == target <==>
            -0x8000_0000 <= target - pos <= 0x7fff_ffff
  {
    StepsMove(pos, size, Difference(target, pos));
    DifferenceIsExact(target, pos);
  }

  /** The steps from `it` that the distance of `other` from it says lead to `other` if and only if their true distance
      fits an int. Wherever they lead, the distance is zero exactly between equal iterators. */
  lemma DistanceLeads(it: Iterator, other: Iterator)
    requires it.Valid() && other.Valid()
    ensures it.root == other.root ==>
            (MovedBy(it.abspos, it.total, StepsOf(other.Distance(it))) == other.abspos <==>
             -0x8000_0000 <= other.abspos - it.abspos <= 0x7fff_ffff)
    ensures it.IsEqual(other) <==> it.Distance(other) == 0
  {
    DifferenceIsExact(it.abspos, other.abspos);
    if it.root == other.root {
      DifferenceLeads(it.abspos, other.abspos, it.total);
    }
  }

  class Iterator {
    const root: Chunk
    const exts: seq<seq<byte>>
    const total: uint32
    var abspos: uint32
    var extpos: uint32
    var extlast: uint32
    var curext: nat

    /** The block list is right, and the cursor is either inside block `curext` or past the last one. */
    ghost predicate Valid()
      reads this
    {
      && WellFormed(root)
      && Concat(exts) == Bytes(root) && NoneEmpty(exts)
      && total == |Bytes(root)|
      && abspos <= total
      && curext <= |exts|
      && (abspos < total ==>
            && curext < |exts| && extpos < |exts[curext]|
            && extlast == |exts[curext]| - 1
            && abspos == Before(exts, curext) + extpos)
      && (abspos == total ==> curext == |exts| && extpos == 0 == extlast)
    }

    constructor (chunk: Chunk)
      requires WellFormed(chunk)
      ensures Valid() && root == chunk && abspos == 0
    {
      var visitor := new UseTrackingVisitor(true);
      visitor.StartVisit(chunk);
      LengthIsExact(chunk);
      root, exts, total := chunk, visitor.blocks, Length(chunk);
      abspos, extpos, extlast, curext := 0, 0, 0, 0;
      new;
      MoveToBegin();
    }

    method MoveToBegin()
      requires WellFormed(root) && Concat(exts) == Bytes(root) && NoneEmpty(exts) && total == |Bytes(root)|
      modifies this
      ensures Valid() && abspos == 0
    {
      abspos, curext, extpos := 0, 0, 0;
      if total > 0 {
        assert exts != [];
        ConcatAt(exts, 0, 0);
        extlast := |exts[0]| - 1;
      } else {
        NonEmptyBlocksTakeRoom(exts, 0, |exts|);
        assert exts[..|exts|] == exts;
        extlast := 0;
      }
    }

    method MoveToEnd()
      requires WellFormed(root) && Concat(exts) == Bytes(root) && NoneEmpty(exts) && total == |Bytes(root)|
      modifies this
      ensures Valid() && abspos == total
    {
      abspos := total;
      curext := |exts|;
      extpos := 0;
      extlast := 0;
    }

    /** The byte under the cursor, for every position but the end. */
    function Dereference(): (b: byte)
      requires Valid() && abspos < total
      reads this
      ensures b == Bytes(root)[abspos]
    {
      ConcatAt(exts, curext, extpos);
      exts[curext][extpos]
    }

    /** Equality of two iterators over the same chunk. */
    predicate IsEqual(other: Iterator)
      reads this, other
    {
      root == other.root && abspos == other.abspos
    }

    /** The number of bytes between two iterators over the same chunk, or else a value that means nothing. */
    function Distance(other: Iterator): int
      reads this, other
    {
      if root == other.root then Difference(abspos, other.abspos) else 0x1053_1053
    }

    method MoveForward()
      requires Valid()
      modifies this
      ensures Valid() && abspos == Moved(old(abspos), total, Forward)
    {
      if extpos < extlast {
        ConcatAt(exts, curext, extpos + 1);
        extpos := extpos + 1;
        abspos := abspos + 1;
      } else {
        MoveForwardComplex();
      }
    }

    method MoveForwardComplex()
      requires Valid() && extpos >= extlast
      modifies this
      ensures Valid() && abspos == Moved(old(abspos), total, Forward)
    {
      if total <= 0 || abspos >= total - 1 {
        MoveToEnd();
        return;
      }
      assert exts[..|exts|] == exts;
      NonEmptyBlocksTakeRoom(exts, curext + 1, |exts|);
      assert Before(exts, curext + 1) == abspos + 1;
      abspos := abspos + 1;
      curext := curext + 1;
      assert curext < |exts|;
      extpos := 0;
      ConcatAt(exts, curext, 0);
      extlast := |exts[curext]|;
      extlast := extlast - 1;
    }

    method MoveBackward()
      requires Valid()
      modifies this
      ensures Valid() && abspos == Moved(old(abspos), total, Backward)
    {
      if extpos > 0 {
        extpos := extpos - 1;
        abspos := abspos - 1;
      } else {
        MoveBackwardComplex();
      }
    }

    method MoveBackwardComplex()
      requires Valid() && extpos == 0
      modifies this
      ensures Valid() && abspos == Moved(old(abspos), total, Backward)
    {
      if abspos <= 1 {
        MoveToBegin();
      } else {
        assert exts[..|exts|] == exts;
        assert Before(exts, curext) == abspos;
        assert curext > 0;
        ConcatAt(exts, curext - 1, 0);
        abspos := abspos - 1;
        curext := curext - 1;
        extlast := |exts[curext]|;
        extlast := extlast - 1;
        extpos := extlast;
      }
    }

    /** Any run of increments and decrements is the same run on the index. */
    method Run(moves: seq<Move>)
      requires Valid()
      modifies this
      ensures Valid() && abspos == MovedBy(old(abspos), total, moves)
    {
      for k := 0 to |moves|
        invariant Valid() && abspos == MovedBy(old(abspos), total, moves[..k])
      {
        assert moves[..k + 1][..k] == moves[..k];
        if moves[k] == Forward {
          MoveForward();
        } else {
          MoveBackward();
        }
      }
      assert moves[..|moves|] == moves;
    }
  }
}
