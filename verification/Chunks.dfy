/** Chunks: immutable data built from buffers, concatenations and slices. */
module Chunks {
  import opened Basics
  import opened LinearExtents

  const IAC: byte := 255
  const SB: byte := 250
  const SE: byte := 240
  const WILL: byte := 251
  const WONT: byte := 252
  const DO: byte := 253
  const DONT: byte := 254

  /** Every kind of chunk the library's visitors can meet. A shared node simply occurs more than once. */
  datatype Chunk =
    | Buffer(data: seq<byte>)
    | Group(kids: seq<Chunk>)
    | Slice(inner: Chunk, ext: Extent)
    | SingleChar(command: byte)
    | OptionNegotiation(request: byte, option: byte)
    | Suboption(subtype: byte, cooked: seq<byte>, raw: Chunk)
    | EndOfFile

  /** The bytes a chunk stands for: the meaning every operation below is measured against. */
  function Bytes(c: Chunk): seq<byte>
    decreases c, 1
  {
    match c
    case Buffer(data) => data
    case Group(kids) => BytesOfAll(kids)
    case Slice(inner, ext) => Clip(Bytes(inner), ext)
    case SingleChar(command) => [IAC, command]
    case OptionNegotiation(request, option) => [IAC, request, option]
    case Suboption(subtype, _, raw) => [IAC, SB, subtype] + Bytes(raw) + [IAC, SE]
    case EndOfFile => []
  }

  function BytesOfAll(kids: seq<Chunk>): seq<byte>
    decreases kids, 0
  {
    if kids == [] then [] else Bytes(kids[0]) + BytesOfAll(kids[1..])
  }

  /** What `Length()` answers: computed from the parts, in 32-bit arithmetic. */
  function Length(c: Chunk): uint32
    decreases c, 1
  {
    match c
    case Buffer(data) => Wrap(|data|)
    case Group(kids) => TotalSize(kids)
    case Slice(_, ext) => ext.length
    case SingleChar(_) => 2
    case OptionNegotiation(_, _) => 3
    case Suboption(_, _, raw) => Wrap(5 + Length(raw))
    case EndOfFile => 0
  }

  function TotalSize(kids: seq<Chunk>): uint32
    decreases kids, 0
  {
    if kids == [] then 0 else Wrap(Length(kids[0]) + TotalSize(kids[1..]))
  }

  /** Slices lie inside what they slice, and no node is longer than a 32-bit length can say. */
  ghost predicate WellFormed(c: Chunk) {
    && |Bytes(c)| <= UINT_MAX
    && match c
       case Group(kids) => forall i | 0 <= i < |kids| :: WellFormed(kids[i])
       case Slice(inner, ext) => WellFormed(inner) && ext.Within(|Bytes(inner)|)
       case Suboption(_, _, raw) => WellFormed(raw)
       case _ => true
  }

  lemma {:induction false} LengthIsExact(c: Chunk)
    requires WellFormed(c)
    ensures Length(c) == |Bytes(c)|
    decreases c, 1
  {
    match c
    case Group(kids) => TotalSizeIsExact(kids);
    case Suboption(_, _, raw) => LengthIsExact(raw);
    case _ =>
  }

  lemma {:induction false} TotalSizeIsExact(kids: seq<Chunk>)
    requires forall i | 0 <= i < |kids| :: WellFormed(kids[i])
    requires |BytesOfAll(kids)| <= UINT_MAX
    ensures TotalSize(kids) == |BytesOfAll(kids)|
    decreases kids, 0
  {
    if kids != [] {
      LengthIsExact(kids[0]);
      TotalSizeIsExact(kids[1..]);
    }
  }

  lemma {:induction false} BytesOfAllSnoc(kids: seq<Chunk>, c: Chunk)
    ensures BytesOfAll(kids + [c]) == BytesOfAll(kids) + Bytes(c)
  {
    if kids == [] {
      assert kids + [c] == [c];
      assert BytesOfAll([c]) == Bytes(c) + BytesOfAll([]);
    } else {
      assert (kids + [c])[1..] == kids[1..] + [c];
      BytesOfAllSnoc(kids[1..], c);
    }
  }

  lemma {:induction false} BytesOfAllAppend(a: seq<Chunk>, b: seq<Chunk>)
    ensures BytesOfAll(a + b) == BytesOfAll(a) + BytesOfAll(b)
  {
    if a == [] {
      assert a + b == b;
    } else {
      assert (a + b)[1..] == a[1..] + b;
      BytesOfAllAppend(a[1..], b);
    }
  }

  /** The slicing constructor: a slice of a slice becomes one slice of the inner chunk. */
  function MakeSlice(c: Chunk, ext: Extent): Chunk {
    if c.Slice? then
      Slice(c.inner, c.ext.SubExtent(ext))
    else if Wrap(ext.offset + ext.length) > Length(c) then
      Slice(c, Extent(0, Length(c)).SubExtent(ext))
    else
      Slice(c, ext)
  }

  /** Whatever is sliced, collapsing and clipping preserve the bytes and the length. */
  lemma MakeSliceSlices(c: Chunk, ext: Extent)
    requires WellFormed(c) && ext.Sound()
    ensures WellFormed(MakeSlice(c, ext))
    ensures Bytes(MakeSlice(c, ext)) == Clip(Bytes(c), ext)
    ensures Length(MakeSlice(c, ext)) == |Clip(Bytes(c), ext)|
    ensures c.Slice? ==> MakeSlice(c, ext).inner == c.inner
  {
    if c.Slice? {
      SliceOfSliceCollapses(c, ext);
    } else {
      SliceIsClipped(c, ext);
    }
    LengthIsExact(MakeSlice(c, ext));
  }

  /** A slice of a slice becomes one slice of what lies beneath. */
  lemma SliceOfSliceCollapses(c: Chunk, ext: Extent)
    requires WellFormed(c) && c.Slice? && ext.Sound()
    ensures WellFormed(MakeSlice(c, ext)) && Bytes(MakeSlice(c, ext)) == Clip(Bytes(c), ext)
  {
    LengthIsExact(c);
    SubExtentSlices(Bytes(c.inner), c.ext, ext);
  }

  /** Any other slice is clipped to what it slices. */
  lemma SliceIsClipped(c: Chunk, ext: Extent)
    requires WellFormed(c) && !c.Slice? && ext.Sound()
    ensures WellFormed(MakeSlice(c, ext)) && Bytes(MakeSlice(c, ext)) == Clip(Bytes(c), ext)
  {
    LengthIsExact(c);
    var all := Extent(0, Length(c));
    SubExtentSlices(Bytes(c), all, ext);
    assert Clip(Bytes(c), all) == Bytes(c);
  }

  /** A concatenation under construction: the running total is kept beside the list. */
  class GroupBuilder {
    var chnklist: seq<Chunk>
    var totalsize: uint32

    ghost predicate Valid()
      reads this
    {
      WellFormed(Group(chnklist)) && totalsize == |Bytes(Group(chnklist))|
    }

    constructor ()
      ensures Valid() && chnklist == []
    {
      chnklist, totalsize := [], 0;
    }

    method PushBack(c: Chunk)
      requires Valid() && WellFormed(c) && totalsize + |Bytes(c)| <= UINT_MAX
      modifies this
      ensures Valid() && chnklist == old(chnklist) + [c]
      ensures Bytes(Group(chnklist)) == Bytes(old(Group(chnklist))) + Bytes(c)
    {
      BytesOfAllSnoc(chnklist, c);
      LengthIsExact(c);
      chnklist := chnklist + [c];
      totalsize := Wrap(totalsize + Length(c));
    }

    method PushFront(c: Chunk)
      requires Valid() && WellFormed(c) && totalsize + |Bytes(c)| <= UINT_MAX
      modifies this
      ensures Valid() && chnklist == [c] + old(chnklist)
      ensures Bytes(Group(chnklist)) == Bytes(c) + Bytes(old(Group(chnklist)))
    {
      assert ([c] + chnklist)[1..] == chnklist;
      LengthIsExact(c);
      chnklist := [c] + chnklist;
      totalsize := Wrap(totalsize + Length(c));
    }
  }
}
