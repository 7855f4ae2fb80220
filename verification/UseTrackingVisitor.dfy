/** Traversal of a chunk with a dynamically scoped position and extent. */
module UseTracking {
  import opened Basics
  import opened LinearExtents
  import opened Chunks

  lemma SliceOfConcat<T>(a: seq<T>, b: seq<T>, lo: nat, hi: nat)
    requires lo <= hi <= |a + b|
    ensures hi <= |a| ==> (a + b)[lo..hi] == a[lo..hi]
    ensures |a| <= lo ==> (a + b)[lo..hi] == b[lo - |a|..hi - |a|]
    ensures lo <= |a| <= hi ==> (a + b)[lo..hi] == a[lo..] + b[..hi - |a|]
  {
  }

  lemma WindowConcat<T>(a: seq<T>, b: seq<T>, pos: nat, e: Extent)
    ensures Window(a + b, pos, e) == Window(a, pos, e) + Window(b, pos + |a|, e)
  {
    var all := a + b;
    var lo := if e.offset <= pos then 0 else Min(e.offset - pos, |all|);
    var hi := if e.offset + e.length <= pos then 0 else Min(e.offset + e.length - pos, |all|);
    SliceOfConcat(a, b, lo, hi);
    if hi <= |a| {
      assert Window(a, pos, e) == a[lo..hi] && Window(b, pos + |a|, e) == [];
    } else if |a| <= lo {
      assert Window(a, pos, e) == [] && Window(b, pos + |a|, e) == b[lo - |a|..hi - |a|];
    } else {
      assert Window(a, pos, e) == a[lo..] && Window(b, pos + |a|, e) == b[..hi - |a|];
    }
  }

  lemma WindowPast<T>(s: seq<T>, pos: nat, e: Extent)
    requires pos >= e.offset + e.length
    ensures Window(s, pos, e) == []
  {
  }

  /** Which part of `used` is visible when its first byte sits at `pos` and only `e` is wanted. */
  function ComputeUsed(used: Extent, pos: uint32, e: Extent): Extent {
    used.SubExtent(Extent(pos, used.length).Intersection(e).MovedLeft(pos))
  }

  /** The visible part, read in the coordinates of the whole, is the window on the part in use. */
  lemma ComputeUsedSelects<T>(s: seq<T>, used: Extent, pos: uint32, e: Extent)
    requires used.Within(|s|) && |s| <= UINT_MAX && e.Sound() && pos + used.length <= UINT_MAX
    ensures ComputeUsed(used, pos, e).Within(|s|)
    ensures Clip(s, ComputeUsed(used, pos, e)) == Window(Clip(s, used), pos, e)
  {
    var seen := Extent(pos, used.length).Intersection(e).MovedLeft(pos);
    VisibleIsWindow(Clip(s, used), pos, e);
    SubExtentSlices(s, used, seen);
  }

  lemma VisibleIsWindow<T>(part: seq<T>, pos: uint32, e: Extent)
    requires e.Sound() && pos + |part| <= UINT_MAX
    ensures var seen := Extent(pos, |part|).Intersection(e).MovedLeft(pos);
            seen.Sound() && Clip(part, seen) == Window(part, pos, e)
  {
    var end := Min(pos + |part|, e.offset + e.length);
    var seen := Extent(pos, |part|).Intersection(e).MovedLeft(pos);
    assert Extent(pos, |part|).EndOffset() == pos + |part| && e.EndOffset() == e.offset + e.length;
    if e.offset <= pos {
      assert seen == Extent(0, if end <= pos then 0 else end - pos);
    } else {
      assert seen == Extent(e.offset - pos, if end <= e.offset then 0 else end - e.offset);
    }
  }

  lemma WindowIsClip<T>(s: seq<T>, e: Extent)
    requires e.Within(|s|)
    ensures Window(s, 0, e) == Clip(s, e)
  {
  }

  /** A visitor that is to ignore chunks of which nothing is used announces a slice by what it selects, not by what is
      seen of that. Nothing is seen of a slice that selects something exactly if it ends before the extent begins, or
      the extent is empty. */
  lemma SeenOfSliceExactly(used: Extent, pos: uint32, e: Extent)
    requires used.Sound() && e.Sound() && pos + used.length <= UINT_MAX && pos < e.offset + e.length
    ensures ComputeUsed(used, pos, e).length == 0 <==>
            used.length == 0 || e.length == 0 || pos + used.length <= e.offset
  {
    var seen := Extent(pos, used.length).Intersection(e).MovedLeft(pos);
    var end := Min(pos + used.length, e.offset + e.length);
    assert Extent(pos, used.length).EndOffset() == pos + used.length && e.EndOffset() == e.offset + e.length;
    if e.offset <= pos {
      assert seen == Extent(0, end - pos);
    } else {
      assert seen == Extent(e.offset - pos, if end <= e.offset then 0 else end - e.offset);
    }
    SubExtentUnwrapped(used, seen);
  }

  /** So a slice of one byte is announced although the extent begins right after it. */
  lemma UnseenSliceIsWorthwhile()
    ensures var used, e := Extent(0, 1), Extent(1, 1);
            used.length > 0 && 0 < e.EndOffset() && ComputeUsed(used, 0, e).length == 0
  {
    SeenOfSliceExactly(Extent(0, 1), 0, Extent(1, 1));
  }

  /** `after` is `before` with blocks added that spell `emitted`, none of them empty if `strict`. */
  ghost predicate Grew(before: seq<seq<byte>>, after: seq<seq<byte>>, emitted: seq<byte>, strict: bool) {
    && before <= after
    && Concat(after) == Concat(before) + emitted
    && (strict ==> NoneEmpty(after[|before|..]))
  }

  lemma GrewTwice(a: seq<seq<byte>>, b: seq<seq<byte>>, c: seq<seq<byte>>, x: seq<byte>, y: seq<byte>, strict: bool)
    requires Grew(a, b, x, strict) && Grew(b, c, y, strict)
    ensures Grew(a, c, x + y, strict)
  {
    assert (Concat(a) + x) + y == Concat(a) + (x + y);
    assert c[|a|..] == b[|a|..] + c[|b|..];
  }

  lemma GrewByOne(a: seq<seq<byte>>, block: seq<byte>, strict: bool)
    requires strict ==> block != []
    ensures Grew(a, a + [block], block, strict)
  {
    ConcatSnoc(a, block);
  }

  /** A chunk announced through use_visitStrChunk, and the part of it that is said to be in use. */
  datatype Visit = Visit(chunk: Chunk, used: Extent)

  /** The visitor. `blocks` records, in order, every block handed to use_visitDataBlock, and `visits` every chunk
      handed to use_visitStrChunk. */
  class UseTrackingVisitor {
    const ignorezeros: bool
    var curext: Extent
    var curpos: uint32
    var curchnk: Chunk
    var blocks: seq<seq<byte>>
    var visits: seq<Visit>

    constructor (ignorezeros: bool)
      ensures this.ignorezeros == ignorezeros && blocks == [] && visits == []
    {
      this.ignorezeros := ignorezeros;
      curext, curpos, curchnk, blocks, visits := Extent(0, 0), 0, EndOfFile, [], [];
    }

    /** Visiting `s` here emits exactly what the current extent shows of it, and either moves past it
        or, when everything from here on is invisible anyway, does nothing at all. */
    twostate predicate Emitted(s: seq<byte>)
      reads this
    {
      && curext == old(curext) && curchnk == old(curchnk) && old(visits) <= visits
      && Grew(old(blocks), blocks, Window(s, old(curpos), curext), ignorezeros)
      && (curpos == old(curpos) + |s| || (Skipping() && curpos == old(curpos)))
    }

    predicate Skipping()
      reads this
    {
      ignorezeros && curpos >= curext.offset + curext.length
    }

    /** Nothing is announced if everything from here on is invisible; otherwise the chunk comes first. */
    twostate predicate Announced(chunk: Chunk, used: Extent, worthwhile: bool)
      reads this
    {
      if old(Skipping()) then visits == old(visits)
      else old(visits) + (if worthwhile || !ignorezeros then [Visit(chunk, used)] else []) <= visits
    }

    method VisitStrChunk(chunk: Chunk)
      requires WellFormed(chunk) && curext.Sound() && curpos + |Bytes(chunk)| <= UINT_MAX
      modifies this
      ensures Emitted(Bytes(chunk))
      ensures var used := ComputeUsed(Extent(0, Length(chunk)), old(curpos), curext);
              Announced(chunk, used, used.length != 0)
      decreases chunk, 2
    {
      if ignorezeros && curpos >= curext.EndOffset() {
        WindowPast(Bytes(chunk), curpos, curext);
        return;
      }
      LengthIsExact(chunk);
      var chunklen := Length(chunk);
      var used := ComputeUsed(Extent(0, chunklen), curpos, curext);
      ComputeUsedSelects(Bytes(chunk), Extent(0, chunklen), curpos, curext);
      assert Clip(Bytes(chunk), Extent(0, chunklen)) == Bytes(chunk);
      AnnounceAndAccept(chunk, used, used.length != 0);
      curpos := curpos + chunklen;
    }

    method VisitStrChunkUsed(chunk: Chunk, used: Extent)
      requires WellFormed(chunk) && used.Within(|Bytes(chunk)|)
      requires curext.Sound() && curpos + used.length <= UINT_MAX
      modifies this
      ensures Emitted(Clip(Bytes(chunk), used))
      ensures Announced(chunk, ComputeUsed(used, old(curpos), curext), used.length > 0)
      decreases chunk, 2
    {
      if ignorezeros && curpos >= curext.EndOffset() {
        WindowPast(Clip(Bytes(chunk), used), curpos, curext);
        return;
      }
      LengthIsExact(chunk);
      var chunklen := Length(chunk);
      assert Extent(0, chunklen).SubExtent(used) == used;
      var chnkused := ComputeUsed(Extent(0, chunklen).SubExtent(used), curpos, curext);
      ComputeUsedSelects(Bytes(chunk), used, curpos, curext);
      AnnounceAndAccept(chunk, chnkused, used.length > 0);
      curpos := curpos + used.length;
    }

    method VisitDataBlock(data: seq<byte>)
      requires curext.Sound() && curpos + |data| <= UINT_MAX
      modifies this
      ensures Emitted(data)
    {
      if ignorezeros && curpos >= curext.EndOffset() {
        WindowPast(data, curpos, curext);
        return;
      }
      var used := ComputeUsed(Extent(0, |data|), curpos, curext);
      ComputeUsedSelects(data, Extent(0, |data|), curpos, curext);
      assert Clip(data, Extent(0, |data|)) == data;
      if used.length > 0 || !ignorezeros {
        GrewByOne(blocks, Clip(data, used), ignorezeros);
        blocks := blocks + [data[used.offset..used.offset + used.length]];
      }
      curpos := curpos + |data|;
    }

    /** What the two kinds of visit have in common. */
    method AnnounceAndAccept(chunk: Chunk, used: Extent, worthwhile: bool)
      requires WellFormed(chunk) && used.Within(|Bytes(chunk)|)
      modifies this
      ensures curext == old(curext) && curpos == old(curpos) && curchnk == old(curchnk)
      ensures old(visits) + (if worthwhile || !ignorezeros then [Visit(chunk, used)] else []) <= visits
      ensures Grew(old(blocks), blocks, Clip(Bytes(chunk), used), ignorezeros)
      decreases chunk, 1, 1
    {
      if worthwhile || !ignorezeros {
        visits := visits + [Visit(chunk, used)];
      }
      DoAcceptVisitor(chunk, used);
    }

    /** Runs the chunk's own traversal in a fresh scope and restores the old scope afterwards. */
    method DoAcceptVisitor(chunk: Chunk, chunkext: Extent)
      requires WellFormed(chunk) && chunkext.Within(|Bytes(chunk)|)
      modifies this
      ensures curext == old(curext) && curpos == old(curpos) && curchnk == old(curchnk) && old(visits) <= visits
      ensures Grew(old(blocks), blocks, Clip(Bytes(chunk), chunkext), ignorezeros)
      decreases chunk, 1, 0
    {
      var oldchnk, oldpos, oldext := curchnk, curpos, curext;
      curchnk, curpos, curext := chunk, 0, chunkext;
      WindowIsClip(Bytes(chunk), chunkext);
      AcceptVisitor(chunk);
      curchnk, curpos, curext := oldchnk, oldpos, oldext;
    }

    method AcceptVisitor(chunk: Chunk)
      requires WellFormed(chunk) && curext.Within(|Bytes(chunk)|) && curpos == 0
      modifies this
      ensures curext == old(curext) && old(visits) <= visits
      ensures Grew(old(blocks), blocks, Window(Bytes(chunk), 0, curext), ignorezeros)
      decreases chunk, 0
    {
      match chunk
      case Buffer(data) =>
        VisitDataBlock(data);
      case Group(kids) =>
        AcceptGroup(chunk);
      case Slice(inner, ext) =>
        VisitStrChunkUsed(inner, ext);
      case SingleChar(command) =>
        VisitDataBlock([IAC, command]);
      case OptionNegotiation(request, option) =>
        VisitDataBlock([IAC, request, option]);
      case Suboption(subtype, _, raw) =>
        AcceptSuboption(chunk);
      case EndOfFile =>
    }

    method AcceptSuboption(chunk: Chunk)
      requires chunk.Suboption? && WellFormed(chunk) && curext.Within(|Bytes(chunk)|) && curpos == 0
      modifies this
      ensures curext == old(curext) && old(visits) <= visits
      ensures Grew(old(blocks), blocks, Window(Bytes(chunk), 0, curext), ignorezeros)
      decreases chunk, 0, 0
    {
      var head, body, tail := [IAC, SB, chunk.subtype], Bytes(chunk.raw), [IAC, SE];
      assert Bytes(chunk) == head + body + tail;
      VisitDataBlock(head);
      VisitAfter(chunk.raw, head, old(blocks));
      VisitDataAfter(tail, head + body, old(blocks));
    }

    static lemma KidsUpTo(kids: seq<Chunk>, i: nat)
      requires i < |kids|
      ensures BytesOfAll(kids[..i + 1]) == BytesOfAll(kids[..i]) + Bytes(kids[i])
      ensures |BytesOfAll(kids[..i + 1])| <= |BytesOfAll(kids)|
    {
      assert kids[..i + 1] == kids[..i] + [kids[i]];
      BytesOfAllSnoc(kids[..i], kids[i]);
      assert kids == kids[..i + 1] + kids[i + 1..];
      BytesOfAllAppend(kids[..i + 1], kids[i + 1..]);
    }

    /** Visits a chunk that comes after `past`. */
    method VisitAfter(chunk: Chunk, ghost past: seq<byte>, ghost start: seq<seq<byte>>)
      requires WellFormed(chunk) && curext.Sound() && |past| + |Bytes(chunk)| <= UINT_MAX
      requires Grew(start, blocks, Window(past, 0, curext), ignorezeros) && AtOrSkipping(past)
      modifies this
      ensures curext == old(curext) && old(visits) <= visits
      ensures Grew(start, blocks, Window(past + Bytes(chunk), 0, curext), ignorezeros)
      ensures AtOrSkipping(past + Bytes(chunk))
      decreases chunk, 3
    {
      ShownFrom(past, Bytes(chunk));
      ghost var before := blocks;
      VisitStrChunk(chunk);
      GrewTwice(start, before, blocks, Window(past, 0, curext), Window(Bytes(chunk), |past|, curext), ignorezeros);
    }

    method VisitDataAfter(data: seq<byte>, ghost past: seq<byte>, ghost start: seq<seq<byte>>)
      requires curext.Sound() && |past| + |data| <= UINT_MAX
      requires Grew(start, blocks, Window(past, 0, curext), ignorezeros) && AtOrSkipping(past)
      modifies this
      ensures curext == old(curext) && old(visits) <= visits
      ensures Grew(start, blocks, Window(past + data, 0, curext), ignorezeros)
    {
      ShownFrom(past, data);
      ghost var before := blocks;
      VisitDataBlock(data);
      GrewTwice(start, before, blocks, Window(past, 0, curext), Window(data, |past|, curext), ignorezeros);
    }

    /** Where the position stands makes no difference to what is shown of `s` after `past`. */
    lemma ShownFrom(past: seq<byte>, s: seq<byte>)
      requires AtOrSkipping(past)
      ensures Window(s, curpos, curext) == Window(s, |past|, curext)
      ensures Window(past + s, 0, curext) == Window(past, 0, curext) + Window(s, |past|, curext)
    {
      WindowConcat(past, s, 0, curext);
      if Skipping() {
        WindowPast(s, curpos, curext);
        WindowPast(s, |past|, curext);
      }
    }

    /** The position is right after `past`, or it does not matter any more. */
    predicate AtOrSkipping(past: seq<byte>)
      reads this
    {
      curpos == |past| || (Skipping() && curpos <= |past|)
    }

    method AcceptGroup(chunk: Chunk)
      requires chunk.Group? && WellFormed(chunk) && curext.Within(|Bytes(chunk)|) && curpos == 0
      modifies this
      ensures curext == old(curext) && old(visits) <= visits
      ensures Grew(old(blocks), blocks, Window(Bytes(chunk), 0, curext), ignorezeros)
      decreases chunk, 0, 1
    {
      var kids := chunk.kids;
      for i := 0 to |kids|
        invariant curext == old(curext) && old(visits) <= visits
        invariant Grew(old(blocks), blocks, Window(BytesOfAll(kids[..i]), 0, curext), ignorezeros)
        invariant AtOrSkipping(BytesOfAll(kids[..i]))
      {
        KidsUpTo(kids, i);
        VisitAfter(kids[i], BytesOfAll(kids[..i]), old(blocks));
      }
      assert kids[..|kids|] == kids;
    }

    /** The whole traversal: the blocks of any chunk, whatever its structure, spell its bytes. */
    method StartVisit(root: Chunk)
      requires WellFormed(root) && blocks == []
      modifies this
      ensures Concat(blocks) == Bytes(root)
      ensures ignorezeros ==> NoneEmpty(blocks)
    {
      curpos := 0;
      curext := FULL_EXTENT;
      VisitStrChunk(root);
      assert Window(Bytes(root), 0, FULL_EXTENT) == Bytes(root);
      assert blocks[0..] == blocks;
    }
  }
}
