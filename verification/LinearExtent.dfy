/** Extents: an offset and a length in 32-bit unsigned arithmetic, and what they select from a sequence. */
module LinearExtents {
  import opened Basics

  datatype Extent = Extent(offset: uint32, length: uint32) {

    /** The domain the class documents: the end of the extent is representable. */
    predicate Sound() {
      offset + length <= UINT_MAX
    }

    function EndOffset(): uint32 {
      Wrap(offset + length)
    }

    function Intersection(other: Extent): Extent {
      var start := if offset > other.offset then offset else other.offset;
      var end := Min(EndOffset(), other.EndOffset());
      Extent(start, if end <= start then 0 else end - start)
    }

    /** Translates `e`, given in the coordinates of this extent, to the coordinates of the underlying sequence. */
    function SubExtent(e: Extent): Extent {
      if e.offset > length then
        Extent(Wrap(offset + length), 0)
      else if Wrap(e.offset + e.length) > length then
        Extent(Wrap(offset + e.offset), length - e.offset)
      else
        Extent(Wrap(offset + e.offset), e.length)
    }

    function MovedLeft(amount: uint32): Extent {
      Extent(if amount < offset then offset - amount else 0, length)
    }

    /** The indices the extent covers. */
    predicate Covers(i: int) {
      offset <= i < offset + length
    }

    predicate Within(size: nat) {
      offset + length <= size
    }
  }

  const FULL_EXTENT := Extent(0, UINT_MAX)

  /** The part of `s` that `e` selects, clipped to `s`. */
  function Clip<T>(s: seq<T>, e: Extent): seq<T> {
    s[Min(e.offset, |s|)..Min(e.offset + e.length, |s|)]
  }

  /** `s` laid out from index `pos` on, restricted to the indices `e` covers. */
  function Window<T>(s: seq<T>, pos: nat, e: Extent): seq<T> {
    var lo := if e.offset <= pos then 0 else Min(e.offset - pos, |s|);
    var hi := if e.offset + e.length <= pos then 0 else Min(e.offset + e.length - pos, |s|);
    if lo <= hi then s[lo..hi] else []
  }

  lemma IntersectionCovers(a: Extent, b: Extent, i: int)
    requires a.Sound() && b.Sound()
    ensures a.Intersection(b).Covers(i) <==> a.Covers(i) && b.Covers(i)
    ensures a.Intersection(b) == b.Intersection(a)
  {
  }

  /** Taking a sub-extent is slicing a slice: this is what lets a slice of a slice collapse into one. */
  lemma SubExtentSlices<T>(s: seq<T>, outer: Extent, e: Extent)
    requires outer.Within(|s|) && |s| <= UINT_MAX && e.Sound()
    ensures outer.SubExtent(e).Within(|s|)
    ensures Clip(s, outer.SubExtent(e)) == Clip(Clip(s, outer), e)
  {
    var mid := Clip(s, outer);
    var r := outer.SubExtent(e);
    assert mid == s[outer.offset..outer.offset + outer.length];
    if e.offset <= outer.length {
      var hi := Min(e.offset + e.length, |mid|);
      SubExtentUnwrapped(outer, e);
      SliceOfSlice(s, outer.offset, outer.offset + outer.length, e.offset, hi);
    } else {
      assert |Clip(mid, e)| == 0 == |Clip(s, r)|;
    }
  }

  lemma SubExtentAssociates(a: Extent, b: Extent, c: Extent)
    requires a.Sound() && b.Sound() && c.Sound()
    ensures a.SubExtent(b).SubExtent(c) == a.SubExtent(b.SubExtent(c))
    ensures a.SubExtent(b).Sound()
  {
    SubExtentUnwrapped(a, b);
    SubExtentUnwrapped(b, c);
    SubExtentUnwrapped(a.SubExtent(b), c);
    SubExtentUnwrapped(a, b.SubExtent(c));
  }

  /** On sound extents no addition wraps: both ends are pulled back to the end of the outer extent. */
  lemma SubExtentUnwrapped(a: Extent, e: Extent)
    requires a.Sound() && e.Sound()
    ensures a.SubExtent(e).Sound()
    ensures a.SubExtent(e).offset == a.offset + Min(e.offset, a.length)
    ensures a.SubExtent(e).offset + a.SubExtent(e).length == a.offset + Min(e.offset + e.length, a.length)
  {
  }

  /** Outside the documented domain clipping can fail. It fails exactly when the end of the requested
      extent wraps round to an index that lies inside this one. */
  lemma SubExtentStaysInside(a: Extent, e: Extent)
    requires a.Sound()
    ensures (a.offset <= a.SubExtent(e).offset && a.SubExtent(e).offset + a.SubExtent(e).length <= a.offset + a.length)
        <==> e.offset > a.length || e.Sound() || e.EndOffset() > a.length
  {
  }

  lemma SubExtentCanEscape()
    ensures Extent(0, 10).SubExtent(Extent(5, UINT_MAX)) == Extent(5, UINT_MAX)
  {
  }

  /** A mutable extent, for the operations that update one in place. */
  class ExtentCell {
    var offset: uint32
    var length: uint32

    constructor (offset: uint32, length: uint32)
      ensures Value() == Extent(offset, length)
    {
      this.offset, this.length := offset, length;
    }

    function Value(): Extent
      reads this
    {
      Extent(offset, length)
    }

    /** The argument may be this very object. */
    method SubExtentEq(extent: ExtentCell)
      modifies this
      ensures Value() == old(Value()).SubExtent(old(extent.Value()))
    {
      if this == extent {
        var r := Value().SubExtent(extent.Value());
        offset, length := r.offset, r.length;
      } else if extent.offset > length {
        offset := Wrap(offset + length);
        length := 0;
      } else {
        offset := Wrap(offset + extent.offset);
        if Wrap(extent.offset + extent.length) > length {
          length := length - extent.offset;
        } else {
          length := extent.length;
        }
      }
    }

    /** Both ends are kept exactly: the left end moves by `amount` or stops at zero, the right end stays. */
    method LengthenLeft(amount: uint32)
      requires Value().Sound()
      modifies this
      ensures offset == if amount <= old(offset) then old(offset) - amount else 0
      ensures offset + length == old(offset + length)
    {
      var step := amount;
      if offset < step {
        step := offset;
      }
      length := Wrap(length + step);
      offset := offset - step;
    }

    method ShortenLeft(amount: uint32)
      requires Value().Sound()
      modifies this
      ensures length == if amount <= old(length) then old(length) - amount else 0
      ensures offset + length == old(offset + length)
    {
      var step := amount;
      if length < step {
        step := length;
      }
      length := length - step;
      offset := Wrap(offset + step);
    }
  }
}
