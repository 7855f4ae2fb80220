/** Re-chunking: whatever the chunks that come in, what goes out are the pieces that end with the delimiter. */
module CharChopping {
  import opened Basics
  import opened LinearExtents
  import opened Chunks
  import opened ChunkIterators

  /** A `char`, which is signed here: bytes are compared with it as integers. */
  type schar = x: int | -128 <= x < 128

  predicate NoDelimiter(s: seq<byte>, d: int) {
    forall i | 0 <= i < |s| :: s[i] != d
  }

  /** One delimiter, and it is the last byte. */
  predicate IsPiece(s: seq<byte>, d: int) {
    s != [] && s[|s| - 1] == d && NoDelimiter(s[..|s| - 1], d)
  }

  ghost predicate ArePieces(ps: seq<seq<byte>>, d: int) {
    forall i | 0 <= i < |ps| :: IsPiece(ps[i], d)
  }

  /** Splitting after every delimiter, read off the whole string: the finished pieces and the rest. */
  function Split(s: seq<byte>, d: int): (seq<seq<byte>>, seq<byte>) {
    SplitFrom([], s, d)
  }

  function SplitFrom(begun: seq<byte>, s: seq<byte>, d: int): (seq<seq<byte>>, seq<byte>)
    decreases |s|
  {
    if s == [] then ([], begun)
    else if s[0] == d then
      var (ps, r) := SplitFrom([], s[1..], d);
      ([begun + [s[0]]] + ps, r)
    else SplitFrom(begun + [s[0]], s[1..], d)
  }

  lemma {:induction false} SplitPiece(begun: seq<byte>, p: seq<byte>, s: seq<byte>, d: int)
    requires IsPiece(p, d)
    ensures SplitFrom(begun, p + s, d) == ([begun + p] + Split(s, d).0, Split(s, d).1)
    decreases |p|
  {
    assert (p + s)[1..] == p[1..] + s;
    if |p| == 1 {
      assert p == [d] && (p + s)[1..] == s;
    } else {
      assert p[0] == p[..|p| - 1][0];
      assert p[1..][..|p| - 2] == p[..|p| - 1][1..];
      SplitPiece(begun + [p[0]], p[1..], s, d);
      assert begun + [p[0]] + p[1..] == begun + p;
    }
  }

  lemma {:induction false} SplitRest(begun: seq<byte>, r: seq<byte>, d: int)
    requires NoDelimiter(r, d)
    ensures SplitFrom(begun, r, d) == ([], begun + r)
    decreases |r|
  {
    if r == [] {
      assert begun + r == begun;
    } else {
      SplitRest(begun + [r[0]], r[1..], d);
      assert begun + [r[0]] + r[1..] == begun + r;
    }
  }

  /** There is only one way to write a string as pieces and a rest without delimiter. */
  lemma {:induction false} SplitUnique(ps: seq<seq<byte>>, r: seq<byte>, d: int)
    requires ArePieces(ps, d) && NoDelimiter(r, d)
    ensures Split(Concat(ps) + r, d) == (ps, r)
    decreases |ps|
  {
    if ps == [] {
      assert Concat(ps) + r == r;
      SplitRest([], r, d);
      assert [] + r == r;
    } else {
      SplitUnique(ps[1..], r, d);
      assert Concat(ps) + r == ps[0] + (Concat(ps[1..]) + r);
      SplitPiece([], ps[0], Concat(ps[1..]) + r, d);
      assert [] + ps[0] == ps[0];
      assert [ps[0]] + ps[1..] == ps;
    }
  }

  /** The `char` that a caller gets who asks for byte `c`. */
  function AsChar(c: byte): schar {
    if c < 128 then c else c - 256
  }

  /** Splitting by any byte is promised. It works for the bytes below 128 and for no other. */
  lemma SplitsAsPromisedExactly(c: byte)
    ensures (forall s: seq<byte> :: Split(s, AsChar(c)) == Split(s, c)) <==> c < 128
  {
    if c >= 128 {
      var s := [c];
      SplitRest([], s, AsChar(c));
      SplitUnique([s], [], c);
      assert Concat([s]) + [] == s;
    }
  }

  /** With another one every piece is waited for in vain. */
  lemma NeverFound(s: seq<byte>, c: byte)
    requires c >= 128
    ensures Split(s, AsChar(c)) == ([], s)
  {
    SplitRest([], s, AsChar(c));
    assert [] + s == s;
  }

  /** How far a scan goes: to the end of the first delimiter, or of the string. */
  function FirstStop(s: seq<byte>, d: int): nat {
    if s == [] then 0 else if s[0] == d then 1 else 1 + FirstStop(s[1..], d)
  }

  lemma {:induction false} FirstStopIs(s: seq<byte>, count: nat, d: int)
    requires count <= |s| && (s != [] ==> count > 0)
    requires (forall i | 0 <= i < count - 1 :: s[i] != d) && (count < |s| ==> s[count - 1] == d)
    ensures FirstStop(s, d) == count
  {
    if s != [] && s[0] != d && count > 1 {
      FirstStopIs(s[1..], count - 1, d);
    }
  }

  lemma ScanStopsFirst(s: seq<byte>, count: nat, d: int)
    requires count <= |s| && (IsPiece(s[..count], d) || (count == |s| && NoDelimiter(s, d)))
    ensures FirstStop(s, d) == count
  {
    if IsPiece(s[..count], d) {
      assert s[..count][..count - 1] == s[..count - 1];
      assert s[..count][count - 1] == s[count - 1];
    }
    FirstStopIs(s, count, d);
  }

  lemma {:induction false} FirstStopInside(s: seq<byte>, d: int)
    ensures FirstStop(s, d) <= |s| && (s != [] ==> FirstStop(s, d) > 0)
  {
    if s != [] {
      FirstStopInside(s[1..], d);
    }
  }

  /** Wherever a scan stops short of the end, the end of the extent that selects the remainder is representable. */
  ghost predicate NeverWraps(s: seq<byte>, d: int)
    decreases |s|
  {
    FirstStopInside(s, d);
    var n := FirstStop(s, d);
    n >= |s| || (n + |s| <= UINT_MAX && NeverWraps(s[n..], d))
  }

  /** The remainder of a chunk is sliced off with the length of the whole as its length. Clipping puts that right
      if and only if the end of this extent does not wrap. */
  lemma RemainderFitsExactly(c: Chunk, count: uint32)
    requires WellFormed(c) && count < |Bytes(c)|
    ensures WellFormed(MakeSlice(c, Extent(count, |Bytes(c)|))) <==> count + |Bytes(c)| <= UINT_MAX
    ensures count + |Bytes(c)| <= UINT_MAX ==> Bytes(MakeSlice(c, Extent(count, |Bytes(c)|))) == Bytes(c)[count..]
  {
    if count + |Bytes(c)| <= UINT_MAX {
      RemainderFits(c, count, |Bytes(c)|, MakeSlice(c, Extent(count, |Bytes(c)|)));
    } else {
      RemainderOverruns(c, count, |Bytes(c)|, MakeSlice(c, Extent(count, |Bytes(c)|)));
    }
  }

  lemma RemainderFits(c: Chunk, count: uint32, size: uint32, rest: Chunk)
    requires WellFormed(c) && size == |Bytes(c)| && count < size && count + size <= UINT_MAX
    requires rest == MakeSlice(c, Extent(count, size))
    ensures WellFormed(rest) && Bytes(rest) == Bytes(c)[count..]
  {
    MakeSliceSlices(c, Extent(count, size));
  }

  lemma RemainderOverruns(c: Chunk, count: uint32, size: uint32, rest: Chunk)
    requires WellFormed(c) && size == |Bytes(c)| && count < size && count + size > UINT_MAX
    requires rest == MakeSlice(c, Extent(count, size))
    ensures !WellFormed(rest)
  {
    LengthIsExact(c);
    assert Wrap(count + size) == count + size - UINT_MAX - 1;
    if c.Slice? {
      assert c.ext.SubExtent(Extent(count, size)) == Extent(c.ext.offset + count, size);
      assert !rest.ext.Within(|Bytes(c.inner)|);
    } else {
      assert rest == Slice(c, Extent(count, size)) && !rest.ext.Within(|Bytes(c)|);
    }
  }

  /** All remainders of the chunk that the chopper makes, one after another, are well formed. */
  ghost predicate RemaindersFit(c: Chunk, d: int)
    requires WellFormed(c)
    decreases |Bytes(c)|
  {
    FirstStopInside(Bytes(c), d);
    var n := FirstStop(Bytes(c), d);
    if n >= |Bytes(c)| then true
    else
      RemainderFitsExactly(c, n);
      var rest := MakeSlice(c, Extent(n, |Bytes(c)|));
      WellFormed(rest) && RemaindersFit(rest, d)
  }

  /** They are exactly if no delimiter is so far into a remainder that the end of the extent wraps. */
  lemma {:induction false} RemaindersFitExactly(c: Chunk, d: int)
    requires WellFormed(c)
    ensures RemaindersFit(c, d) <==> NeverWraps(Bytes(c), d)
    decreases |Bytes(c)|
  {
    FirstStopInside(Bytes(c), d);
    var n := FirstStop(Bytes(c), d);
    if n < |Bytes(c)| {
      RemainderFitsExactly(c, n);
      var rest := MakeSlice(c, Extent(n, |Bytes(c)|));
      if WellFormed(rest) {
        RemaindersFitExactly(rest, d);
      }
    }
  }

  /** Up to half of the representable length nothing can go wrong. */
  lemma {:induction false} ShortNeverWraps(s: seq<byte>, d: int)
    requires |s| <= 0x7FFF_FFFF
    ensures NeverWraps(s, d)
    decreases |s|
  {
    FirstStopInside(s, d);
    if FirstStop(s, d) < |s| {
      ShortNeverWraps(s[FirstStop(s, d)..], d);
    }
  }

  /** One byte after 0x80000000 bytes that end with the delimiter: the remainder claims 0x80000001 bytes. */
  lemma RemainderCanWrap(d: byte, other: byte)
    requires other != d
    ensures var c := Buffer(seq(0x8000_0001, i => if i == 0x7FFF_FFFF then d else other));
            && WellFormed(c) && FirstStop(Bytes(c), d) == 0x8000_0000 && !NeverWraps(Bytes(c), d)
            && MakeSlice(c, Extent(0x8000_0000, 0x8000_0001)) == Slice(c, Extent(0x8000_0000, 0x8000_0001))
  {
    var s: seq<byte> := seq(0x8000_0001, i => if i == 0x7FFF_FFFF then d else other);
    FirstStopIs(s, 0x8000_0000, d);
  }

  datatype IncomingIsBuffer = INYes | INNo | INMaybe

  class CharChopper {
    const chopchar: schar
    var incoming: Option<Chunk>
    var outgoing: Option<Chunk>
    var outgoingReady: bool
    /** Whether there is a group under construction; if there is an outgoing chunk too, it is that group. */
    var groupdata: bool
    var curdata: array?<byte>
    var usedsize: nat
    var incomingIsBuffer: IncomingIsBuffer

    /** Everything ever written, and the bytes of every chunk read out. */
    ghost var written: seq<byte>
    ghost var read: seq<seq<byte>>

    ghost function InBytes(): seq<byte>
      reads this
    {
      if incoming.Some? then Bytes(incoming.value) else []
    }

    ghost function OutBytes(): seq<byte>
      reads this
    {
      if outgoing.Some? then Bytes(outgoing.value) else []
    }

    ghost function CurBytes(): seq<byte>
      reads this, curdata
    {
      if curdata != null && usedsize <= curdata.Length then curdata[..usedsize] else []
    }

    /** The outgoing chunk and the small buffer are well formed. */
    ghost predicate Building()
      reads this, curdata
    {
      && (outgoing.Some? ==> WellFormed(outgoing.value))
      && (groupdata && outgoing.Some? ==> outgoing.value.Group?)
      && (curdata != null ==> usedsize <= curdata.Length)
    }

    /** Nothing written is lost, repeated or moved, and what has been read are pieces. */
    ghost predicate Conserved()
      reads this, curdata
    {
      && written == Concat(read) + (OutBytes() + CurBytes()) + InBytes()
      && ArePieces(read, chopchar)
    }

    ghost predicate Valid()
      reads this, curdata
    {
      && Building() && Conserved()
      && (incoming.Some? ==> Fits(incoming.value) && outgoingReady)
      && (outgoingReady ==> outgoing.Some? && curdata == null && IsPiece(OutBytes(), chopchar))
      && (!outgoingReady ==> NoDelimiter(OutBytes() + CurBytes(), chopchar))
    }

    ghost predicate Fits(c: Chunk)
      reads this
    {
      WellFormed(c) && NeverWraps(Bytes(c), chopchar)
    }

    constructor (chopchar: schar)
      ensures Valid() && this.chopchar == chopchar && written == [] && read == [] && !outgoingReady && incoming == None
    {
      this.chopchar := chopchar;
      incoming, outgoing, outgoingReady, groupdata := None, None, false, false;
      curdata, usedsize, incomingIsBuffer := null, 0, INMaybe;
      written, read := [], [];
      new;
      assert Concat(read) == [];
    }

    /** Appends a chunk to the outgoing chunk, turning that into a group if need be. */
    method Append(c: Chunk)
      requires Building() && WellFormed(c) && |OutBytes()| + |Bytes(c)| <= UINT_MAX
      modifies this`outgoing, this`groupdata
      ensures Building() && outgoing.Some? && OutBytes() == old(OutBytes()) + Bytes(c)
    {
      if outgoing.Some? {
        var kids := [outgoing.value];
        if outgoing.value.Group? {
          kids := outgoing.value.kids;
        }
        assert BytesOfAll([outgoing.value]) == Bytes(outgoing.value) + BytesOfAll([]);
        BytesOfAllSnoc(kids, c);
        groupdata := true;
        outgoing := Some(Group(kids + [c]));
      } else {
        groupdata := false;
        outgoing := Some(c);
      }
    }

    /** Appends the used part of the small buffer, which is given up. */
    method AddCurrentData()
      requires Building() && curdata != null && |OutBytes()| + |CurBytes()| <= UINT_MAX
      modifies this`outgoing, this`groupdata, this`curdata
      ensures Building() && curdata == null && outgoing.Some?
      ensures OutBytes() == old(OutBytes()) + old(CurBytes())
    {
      var c := Buffer(curdata[..usedsize]);
      Append(c);
      curdata := null;
    }

    /** Appends a chunk after everything that came before it. */
    method AddChunk(c: Chunk)
      requires Building() && WellFormed(c) && |OutBytes()| + |CurBytes()| + |Bytes(c)| <= UINT_MAX
      modifies this`outgoing, this`groupdata, this`curdata
      ensures Building() && curdata == null && outgoing.Some?
      ensures OutBytes() == old(OutBytes()) + old(CurBytes()) + Bytes(c)
    {
      if curdata != null {
        AddCurrentData();
      } else {
        assert old(OutBytes()) + [] == old(OutBytes());
      }
      Append(c);
    }

    /** Looks for the delimiter, keeping a copy of the first sixteen bytes. */
    method Scan(c: Chunk) returns (buf: array<byte>, count: nat, foundchar: bool)
      requires WellFormed(c)
      ensures fresh(buf) && buf.Length == 16
      ensures count <= |Bytes(c)| && buf[..Min(count, 16)] == Bytes(c)[..Min(count, 16)]
      ensures foundchar ==> IsPiece(Bytes(c)[..count], chopchar)
      ensures !foundchar ==> count == |Bytes(c)| && NoDelimiter(Bytes(c), chopchar)
    {
      buf := new byte[16];
      count, foundchar := 0, false;
      ghost var bytes := Bytes(c);
      var end := new Iterator(c);
      end.MoveToEnd();
      var it := new Iterator(c);
      while !foundchar && !it.IsEqual(end)
        invariant it.Valid() && it.root == c && end.Valid() && end.root == c && end.abspos == |bytes| && it != end
        invariant fresh(it) && fresh(end)
        invariant it.abspos == count <= |bytes|
        invariant buf[..Min(count, 16)] == bytes[..Min(count, 16)]
        invariant !foundchar ==> NoDelimiter(bytes[..count], chopchar)
        invariant foundchar ==> IsPiece(bytes[..count], chopchar)
        decreases |bytes| - count, !foundchar
      {
        var b := ScanOne(it, buf, count, bytes);
        PieceGrows(bytes, count, chopchar);
        count := count + 1;
        if b == chopchar {
          foundchar := true;
        }
      }
      if !foundchar {
        assert bytes[..count] == bytes;
      }
    }

    static lemma PieceGrows(bytes: seq<byte>, count: nat, d: int)
      requires count < |bytes| && NoDelimiter(bytes[..count], d)
      ensures if bytes[count] == d then IsPiece(bytes[..count + 1], d) else NoDelimiter(bytes[..count + 1], d)
    {
      assert bytes[..count + 1] == bytes[..count] + [bytes[count]];
      assert bytes[..count + 1][..count] == bytes[..count];
    }

    /** The body of the scanning loop: one byte is looked at, and kept if it is among the first sixteen. */
    method ScanOne(it: Iterator, buf: array<byte>, count: nat, ghost bytes: seq<byte>) returns (b: byte)
      requires it.Valid() && bytes == Bytes(it.root) && it.abspos == count < |bytes|
      requires buf.Length == 16 && buf[..Min(count, 16)] == bytes[..Min(count, 16)]
      modifies it, buf
      ensures it.Valid() && it.abspos == count + 1 && b == bytes[count]
      ensures buf[..Min(count + 1, 16)] == bytes[..Min(count + 1, 16)]
    {
      b := it.Dereference();
      if count < 16 {
        buf[count] := b;
        assert bytes[..count + 1] == bytes[..count] + [b];
      }
      it.MoveForward();
    }

    /** Copies a short stretch into the small buffer, which grows as needed. */
    method CopyToCurrent(buf: array<byte>, count: nat, foundchar: bool)
      requires Building() && buf.Length == 16 && count <= 16 && buf != curdata
      modifies this`curdata, this`usedsize, curdata
      ensures Building() && curdata != null && (curdata == old(curdata) || fresh(curdata))
      ensures CurBytes() == old(CurBytes()) + old(buf[..count])
    {
      if curdata == null {
        curdata := new byte[if foundchar then count else 32];
        usedsize := 0;
      } else {
        var curlen := curdata.Length;
        if curlen < usedsize + count {
          if foundchar {
            curlen := usedsize + count;
          } else {
            curlen := if usedsize + usedsize / 2 > usedsize + count then usedsize + usedsize / 2 else usedsize + count;
          }
          ResizeCurrent(curlen);
        }
      }
      ghost var before := CurBytes();
      MemCopy(curdata, usedsize, buf, count);
      usedsize := usedsize + count;
    }

    method ResizeCurrent(newsize: nat)
      requires curdata != null && usedsize <= curdata.Length && usedsize <= newsize
      modifies this`curdata
      ensures curdata != null && fresh(curdata) && curdata.Length == newsize
      ensures curdata[..usedsize] == old(curdata[..usedsize])
    {
      var bigger := new byte[newsize];
      MemCopy(bigger, 0, curdata, usedsize);
      curdata := bigger;
    }

    /** Takes the scanned stretch over into what is being built: copied if it is short, sliced off if not. */
    method TakeOver(buf: array<byte>, count: nat, foundchar: bool)
      requires Building() && incoming.Some? && Fits(incoming.value) && buf.Length == 16 && buf != curdata
      requires 0 < count <= |Bytes(incoming.value)|
      requires buf[..Min(count, 16)] == Bytes(incoming.value)[..Min(count, 16)]
      requires |OutBytes()| + |CurBytes()| + count <= UINT_MAX
      modifies this`outgoing, this`groupdata, this`curdata, this`usedsize, curdata
      ensures Building() && (curdata == old(curdata) || curdata == null || fresh(curdata))
      ensures OutBytes() + CurBytes() == old(OutBytes() + CurBytes()) + Bytes(incoming.value)[..count]
      ensures outgoing.Some? || curdata != null
    {
      ghost var bytes := Bytes(incoming.value);
      if incomingIsBuffer == INYes && count <= 16 {
        CopyToCurrent(buf, count, foundchar);
      } else {
        var piece := CutOff(incoming.value, count);
        AddChunk(piece);
        assert OutBytes() + [] == OutBytes();
      }
    }

    static method CutOff(c: Chunk, count: nat) returns (piece: Chunk)
      requires WellFormed(c) && count <= |Bytes(c)|
      ensures WellFormed(piece) && Bytes(piece) == Bytes(c)[..count]
    {
      LengthIsExact(c);
      piece := c;
      if count < Length(c) {
        MakeSliceSlices(c, Extent(0, count));
        piece := MakeSlice(c, Extent(0, count));
      }
      assert Bytes(piece) == Bytes(c)[..count];
    }

    /** Leaves what has not been scanned as the incoming chunk. */
    method DropScanned(count: nat)
      requires incoming.Some? && Fits(incoming.value) && 0 < count <= |Bytes(incoming.value)|
      requires count == FirstStop(Bytes(incoming.value), chopchar)
      modifies this`incoming, this`incomingIsBuffer
      ensures InBytes() == old(InBytes())[count..]
      ensures incoming.Some? <==> count < |old(InBytes())|
      ensures incoming.Some? ==> Fits(incoming.value)
    {
      LengthIsExact(incoming.value);
      var inlen := Length(incoming.value);
      if count >= inlen {
        incoming := None;
        incomingIsBuffer := INMaybe;
      } else {
        RemainderFitsExactly(incoming.value, count);
        incoming := Some(MakeSlice(incoming.value, Extent(count, inlen)));
      }
    }

    /** Works on the incoming chunk up to the first delimiter in it, or to its end. */
    method ProcessIncoming()
      requires Building() && Conserved()
      requires incoming.Some? && Fits(incoming.value) && !outgoingReady
      requires NoDelimiter(OutBytes() + CurBytes(), chopchar)
      requires |OutBytes()| + |CurBytes()| + FirstStop(InBytes(), chopchar) <= UINT_MAX
      modifies this, curdata
      ensures Valid() && written == old(written) && read == old(read)
      ensures curdata == old(curdata) || curdata == null || fresh(curdata)
      ensures outgoingReady || incoming.None?
    {
      if incomingIsBuffer == INMaybe {
        incomingIsBuffer := if incoming.value.Buffer? then INYes else INNo;
      }
      LengthIsExact(incoming.value);
      if Length(incoming.value) <= 0 {
        AddEmpty();
      } else {
        ProcessBytes();
      }
    }

    /** A chunk without bytes is passed on, and completes nothing. */
    method AddEmpty()
      requires Building() && Conserved()
      requires incoming.Some? && Fits(incoming.value) && !outgoingReady && InBytes() == []
      requires NoDelimiter(OutBytes() + CurBytes(), chopchar)
      requires |OutBytes()| + |CurBytes()| <= UINT_MAX
      modifies this`outgoing, this`groupdata, this`curdata, this`incoming, this`incomingIsBuffer
      ensures Valid() && incoming.None? && curdata == null && OutBytes() == old(OutBytes() + CurBytes())
    {
      ghost var built := OutBytes() + CurBytes();
      AddChunk(incoming.value);
      assert OutBytes() + [] == OutBytes() == built;
      incoming := None;
      incomingIsBuffer := INMaybe;
    }

    /** The part of processIncoming for a chunk that holds something. */
    method ProcessBytes()
      requires Building() && Conserved()
      requires incoming.Some? && Fits(incoming.value) && !outgoingReady && InBytes() != []
      requires NoDelimiter(OutBytes() + CurBytes(), chopchar)
      requires |OutBytes()| + |CurBytes()| + FirstStop(InBytes(), chopchar) <= UINT_MAX
      modifies this, curdata
      ensures Valid() && written == old(written) && read == old(read)
      ensures curdata == old(curdata) || curdata == null || fresh(curdata)
      ensures outgoingReady || incoming.None?
    {
      var buf, count, foundchar := Scan(incoming.value);
      ScanStopsFirst(InBytes(), count, chopchar);
      PieceOrRest(OutBytes() + CurBytes(), InBytes(), count, foundchar, chopchar);
      Advance(buf, count, foundchar);
      Finish(foundchar);
    }

    /** If the delimiter was found, the piece is made ready. */
    method Finish(foundchar: bool)
      requires Building() && Conserved() && !outgoingReady && (outgoing.Some? || curdata != null)
      requires incoming.Some? ==> Fits(incoming.value) && foundchar
      requires |OutBytes()| + |CurBytes()| <= UINT_MAX
      requires if foundchar then IsPiece(OutBytes() + CurBytes(), chopchar)
               else NoDelimiter(OutBytes() + CurBytes(), chopchar)
      modifies this`outgoing, this`groupdata, this`curdata, this`outgoingReady
      ensures Valid() && outgoingReady == foundchar && (curdata == old(curdata) || curdata == null)
      ensures outgoingReady || incoming.None?
    {
      if foundchar {
        FinishPiece(OutBytes() + CurBytes());
      }
      outgoingReady := foundchar;
    }

    /** Moves the scanned stretch from the incoming chunk to what is being built. */
    method Advance(buf: array<byte>, count: nat, foundchar: bool)
      requires Building() && Conserved() && incoming.Some? && Fits(incoming.value)
      requires 0 < count == FirstStop(InBytes(), chopchar) <= |InBytes()| && buf.Length == 16 && buf != curdata
      requires buf[..Min(count, 16)] == InBytes()[..Min(count, 16)]
      requires |OutBytes()| + |CurBytes()| + count <= UINT_MAX
      modifies this`outgoing, this`groupdata, this`curdata, this`usedsize, this`incoming, this`incomingIsBuffer, curdata
      ensures Building() && Conserved() && (curdata == old(curdata) || curdata == null || fresh(curdata))
      ensures OutBytes() + CurBytes() == old(OutBytes() + CurBytes()) + old(InBytes())[..count]
      ensures InBytes() == old(InBytes())[count..]
      ensures incoming.Some? ==> Fits(incoming.value)
      ensures incoming.Some? <==> count < |old(InBytes())|
      ensures outgoing.Some? || curdata != null
    {
      ghost var built, bytes := OutBytes() + CurBytes(), InBytes();
      TakeOver(buf, count, foundchar);
      DropScanned(count);
      Regrouped(Concat(read), built, bytes, count);
    }

    /** Flushes the small buffer into the finished piece. */
    method FinishPiece(ghost piece: seq<byte>)
      requires Building() && (outgoing.Some? || curdata != null)
      requires OutBytes() + CurBytes() == piece && |piece| <= UINT_MAX
      modifies this`outgoing, this`groupdata, this`curdata
      ensures Building() && outgoing.Some? && curdata == null && OutBytes() == piece == OutBytes() + CurBytes()
    {
      if curdata != null {
        AddCurrentData();
      }
      assert OutBytes() + [] == OutBytes();
    }

    static lemma PieceOrRest(built: seq<byte>, bytes: seq<byte>, count: nat, foundchar: bool, d: int)
      requires NoDelimiter(built, d) && count <= |bytes| && bytes != []
      requires foundchar ==> IsPiece(bytes[..count], d)
      requires !foundchar ==> count == |bytes| && NoDelimiter(bytes, d)
      ensures 0 < count
      ensures if foundchar then IsPiece(built + bytes[..count], d) else NoDelimiter(built + bytes[..count], d)
    {
      if foundchar {
        PieceCompleted(built, bytes[..count], d);
      } else {
        assert bytes[..count] == bytes;
      }
    }

    static lemma Regrouped(before: seq<byte>, built: seq<byte>, bytes: seq<byte>, count: nat)
      requires count <= |bytes|
      ensures before + built + bytes == before + (built + bytes[..count]) + bytes[count..]
    {
      assert bytes == bytes[..count] + bytes[count..];
    }

    static lemma PieceCompleted(built: seq<byte>, piece: seq<byte>, d: int)
      requires NoDelimiter(built, d) && IsPiece(piece, d)
      ensures IsPiece(built + piece, d)
    {
      var all := built + piece;
      assert all[..|all| - 1] == built + piece[..|piece| - 1];
    }

    predicate CanWriteTo()
      reads this
    {
      incoming.None?
    }

    predicate CanReadFrom()
      reads this
    {
      outgoingReady
    }

    /** Hands in a chunk. If no piece is waiting to be read it is worked on at once. */
    method WriteTo(c: Chunk)
      requires Valid() && CanWriteTo() && Fits(c)
      requires outgoingReady || |OutBytes()| + |CurBytes()| + FirstStop(Bytes(c), chopchar) <= UINT_MAX
      modifies this, curdata
      ensures Valid() && written == old(written) + Bytes(c) && read == old(read)
      ensures curdata == old(curdata) || curdata == null || fresh(curdata)
    {
      incoming := Some(c);
      written := written + Bytes(c);
      if !outgoingReady {
        ProcessIncoming();
      }
    }

    /** Takes out one piece, and works on until the next one is ready or the incoming chunk is used up. */
    method ReadFrom() returns (c: Chunk)
      requires Valid() && CanReadFrom()
      modifies this, curdata
      ensures Valid() && written == old(written)
      ensures WellFormed(c) && read == old(read) + [Bytes(c)] && IsPiece(Bytes(c), chopchar)
      ensures curdata == old(curdata) || curdata == null || fresh(curdata)
    {
      c := outgoing.value;
      ConcatSnoc(read, Bytes(c));
      read := read + [Bytes(c)];
      outgoing := None;
      outgoingReady := false;
      if incoming.Some? {
        FirstStopInside(InBytes(), chopchar);
        ProcessIncoming();
      }
    }

    static method MemCopy(dest: array<byte>, at: nat, src: array<byte>, n: nat)
      requires dest != src && at + n <= dest.Length && n <= src.Length
      modifies dest
      ensures dest[..at] == old(dest[..at]) && dest[at..at + n] == src[..n]
      ensures dest[..at + n] == old(dest[..at]) + src[..n]
    {
      for k := 0 to n
        invariant dest[..at] == old(dest[..at])
        invariant dest[at..at + k] == src[..k]
      {
        dest[at + k] := src[k];
      }
    }
  }

  /** When nothing is left to read, exactly the finished pieces of everything written have been read, and the
      chopper holds the rest. */
  lemma NothingToReadMeansAllPiecesRead(ch: CharChopper)
    requires ch.Valid() && !ch.CanReadFrom()
    ensures Split(ch.written, ch.chopchar) == (ch.read, ch.OutBytes() + ch.CurBytes())
  {
    assert ch.InBytes() == [];
    assert Concat(ch.read) + (ch.OutBytes() + ch.CurBytes()) + [] == Concat(ch.read) + (ch.OutBytes() + ch.CurBytes());
    SplitUnique(ch.read, ch.OutBytes() + ch.CurBytes(), ch.chopchar);
  }

  /** While a piece waits to be read, it is the next one: nothing is ever read early, late or out of order. */
  lemma NextPieceIsReady(ch: CharChopper)
    requires ch.Valid() && ch.CanReadFrom()
    ensures ch.read + [ch.OutBytes()] <= Split(ch.written, ch.chopchar).0
  {
    var ps, d := ch.read + [ch.OutBytes()], ch.chopchar;
    var (qs, r) := Split(ch.InBytes(), d);
    ConcatSnoc(ch.read, ch.OutBytes());
    assert ch.OutBytes() + ch.CurBytes() == ch.OutBytes();
    SplitPieces(ps, ch.InBytes(), d);
  }

  lemma {:induction false} SplitPieces(ps: seq<seq<byte>>, s: seq<byte>, d: int)
    requires ArePieces(ps, d)
    ensures Split(Concat(ps) + s, d) == (ps + Split(s, d).0, Split(s, d).1)
    decreases |ps|
  {
    if ps == [] {
      assert Concat(ps) + s == s;
      assert [] + Split(s, d).0 == Split(s, d).0;
    } else {
      SplitPieces(ps[1..], s, d);
      assert Concat(ps) + s == ps[0] + (Concat(ps[1..]) + s);
      SplitPiece([], ps[0], Concat(ps[1..]) + s, d);
      assert [] + ps[0] == ps[0];
      assert [ps[0]] + (ps[1..] + Split(s, d).0) == ps + Split(s, d).0;
    }
  }
}
