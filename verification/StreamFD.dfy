/** Writing chunks to a file descriptor that takes as much as it likes, when it likes. */
module StreamFDs {
  import opened Basics
  import opened Chunks
  import opened UseTracking

  /** How much may be written before the dispatcher has had a turn. */
  const MAX_BYTES_WITHOUT_DISPATCH: int := 256 * 1024

  lemma ConcatFirst(blocks: seq<seq<byte>>)
    requires blocks != []
    ensures Concat(blocks) == blocks[0] + Concat(blocks[1..])
  {
  }

  /** A prefix of the first blocks is a prefix of all of them. */
  lemma PrefixOfPrefix(blocks: seq<seq<byte>>, m: nat, n: nat)
    requires m <= |blocks| && n <= |Concat(blocks[..m])|
    ensures |Concat(blocks[..m])| <= |Concat(blocks)| && Concat(blocks[..m])[..n] == Concat(blocks)[..n]
  {
    ConcatAppend(blocks[..m], blocks[m..]);
    assert blocks == blocks[..m] + blocks[m..];
  }

  lemma NonEmptyConcat(blocks: seq<seq<byte>>)
    requires NoneEmpty(blocks) && blocks != []
    ensures Concat(blocks) != []
  {
    ConcatFirst(blocks);
  }

  /** The data of one chunk as a list of blocks for writev, and how much of it has been written. */
  class BufferList {
    var curchunk: Option<Chunk>
    var totalbytes: nat
    var curbyte: nat
    var curvecidx: nat
    var iovecs: seq<seq<byte>>

    /** What is still to be written. */
    ghost function Remaining(): seq<byte>
      reads this
    {
      if curvecidx <= |iovecs| then Concat(iovecs[curvecidx..]) else []
    }

    ghost predicate Valid()
      reads this
    {
      && curvecidx <= |iovecs| && NoneEmpty(iovecs)
      && curbyte <= totalbytes && |Remaining()| == totalbytes - curbyte
      && (totalbytes == curbyte ==> totalbytes == 0)
      && (curchunk.Some? <==> curbyte < totalbytes)
    }

    constructor ()
      ensures Valid() && Remaining() == [] && BytesLeft() == 0
    {
      curchunk, totalbytes, curbyte, curvecidx, iovecs := None, 0, 0, 0, [];
    }

    function BytesLeft(): nat
      requires curbyte <= totalbytes
      reads this
    {
      totalbytes - curbyte
    }

    /** Collects the blocks of a chunk, whatever its structure. */
    method StartChunk(chunk: Chunk)
      requires WellFormed(chunk)
      modifies this
      ensures Valid() && Remaining() == Bytes(chunk)
    {
      iovecs := [];
      totalbytes, curbyte, curvecidx := 0, 0, 0;
      curchunk := Some(chunk);
      var visitor := new UseTrackingVisitor(true);
      visitor.StartVisit(chunk);
      var blocks := visitor.blocks;
      for i := 0 to |blocks|
        invariant iovecs == blocks[..i] && totalbytes == |Concat(iovecs)|
        invariant curbyte == 0 == curvecidx && curchunk.Some?
      {
        ConcatSnoc(iovecs, blocks[i]);
        UseVisitDataBlock(blocks[i]);
        assert blocks[..i + 1] == blocks[..i] + [blocks[i]];
      }
      assert blocks[..|blocks|] == blocks && iovecs[0..] == iovecs;
      if |iovecs| <= 0 {
        curchunk := None;
      } else {
        NonEmptyConcat(iovecs);
        curvecidx := 0;
      }
    }

    method UseVisitDataBlock(block: seq<byte>)
      modifies this`iovecs, this`totalbytes
      ensures iovecs == if block == [] then old(iovecs) else old(iovecs) + [block]
      ensures totalbytes == old(totalbytes) + |block|
    {
      if |block| <= 0 {
        return;
      }
      iovecs := iovecs + [block];
      totalbytes := totalbytes + |block|;
    }

    /** Moves past the first `numbytes` bytes of what remains. */
    method AdvanceBy(numbytes: nat)
      requires Valid()
      modifies this
      ensures Valid() && Remaining() == if numbytes >= |old(Remaining())| then [] else old(Remaining())[numbytes..]
    {
      if totalbytes <= 0 {
        return;
      }
      if curbyte + numbytes >= totalbytes {
        totalbytes, curbyte := 0, 0;
        curchunk := None;
        curvecidx := 0;
        iovecs := [];
        return;
      }
      ghost var remaining := Remaining();
      var bytestomove: nat := numbytes;
      assert remaining[0..] == remaining;
      while bytestomove > 0
        invariant curvecidx <= |iovecs| && NoneEmpty(iovecs)
        invariant bytestomove <= numbytes < |remaining|
        invariant remaining[numbytes - bytestomove..] == Remaining()
        invariant curchunk == old(curchunk) && totalbytes == old(totalbytes) && curbyte == old(curbyte)
      {
        ghost var done := numbytes - bytestomove;
        bytestomove := MoveInBlock(bytestomove);
        DropTwice(remaining, done, numbytes - bytestomove - done);
      }
      curbyte := curbyte + numbytes;
      assert curvecidx < |iovecs|;
    }

    /** The body of the loop: skips the current block, or the part of it that is to be skipped. */
    method MoveInBlock(bytestomove: nat) returns (left: nat)
      requires curvecidx <= |iovecs| && NoneEmpty(iovecs) && 0 < bytestomove < |Remaining()|
      modifies this`curvecidx, this`iovecs
      ensures curvecidx <= |iovecs| && NoneEmpty(iovecs)
      ensures left < bytestomove && Remaining() == old(Remaining())[bytestomove - left..]
    {
      assert curvecidx < |iovecs|;
      var curvec := iovecs[curvecidx];
      assert iovecs[curvecidx..][1..] == iovecs[curvecidx + 1..];
      ConcatFirst(iovecs[curvecidx..]);
      if |curvec| <= bytestomove {
        left := bytestomove - |curvec|;
        curvecidx := curvecidx + 1;
      } else {
        iovecs := iovecs[curvecidx := curvec[bytestomove..]];
        left := 0;
        assert iovecs[curvecidx..][1..] == old(iovecs)[curvecidx..][1..];
        ConcatFirst(iovecs[curvecidx..]);
        DropFromFirst(curvec, Concat(iovecs[curvecidx..][1..]), bytestomove);
      }
    }

    static lemma DropTwice(s: seq<byte>, a: nat, b: nat)
      requires a + b <= |s|
      ensures s[a..][b..] == s[a + b..]
    {
    }

    static lemma DropFromFirst(block: seq<byte>, rest: seq<byte>, n: nat)
      requires n <= |block|
      ensures (block + rest)[n..] == block[n..] + rest
    {
    }
  }

  datatype ErrorType = ErrRead | ErrWrite | ErrGeneral | ErrFatal

  /** What one call of writev does: it takes at most `n` bytes of what it is offered, or it would block, or
      it fails. */
  datatype WriteResult = Wrote(n: nat) | Again | Failed

  /** The writing side of a module. What the descriptor does is a script that each operation is given; a
      script that runs out means that the descriptor would block from then on. */
  class StreamFDModule {
    const maxiovcnt: nat
    const curbuflist: BufferList
    var open: bool
    var checkingwr: bool
    var eofwritten: bool
    var curWrite: Option<Chunk>
    var writtenSinceWritePosted: uint32
    var errors: set<ErrorType>
    /** The plug's writeable flag. */
    var writeable: bool
    /** How many resume events wait in the dispatcher. */
    var resumes: nat

    /** Everything given to plugWrite, and everything the descriptor has accepted. */
    ghost var given: seq<byte>
    ghost var accepted: seq<byte>

    /** Nothing is lost or repeated: what is left to write is what the remaining blocks hold. */
    ghost predicate Conserved()
      reads this, curbuflist
    {
      given == accepted + curbuflist.Remaining()
    }

    predicate Blocked()
      reads this
    {
      ErrWrite in errors || ErrGeneral in errors || ErrFatal in errors
    }

    /** While the descriptor is open and no error stands in the way, something will wake the module up: the
        registration for a writeable descriptor if there is something to write; if there is not, the plug
        is writeable or a resume event that makes it so is on its way. */
    ghost predicate WakesUp()
      reads this
    {
      open && !Blocked() ==> if curWrite.Some? then checkingwr else writeable || resumes > 0
    }

    ghost predicate Valid()
      reads this, curbuflist
    {
      && maxiovcnt > 0 && curbuflist.Valid() && Conserved() && WakesUp()
      && (curWrite.Some? ==> WellFormed(curWrite.value) && !writeable)
      && (curWrite.None? ==> open && !checkingwr && curbuflist.Remaining() == [])
      && (curWrite.Some? ==> (curWrite.value.EndOfFile? <==> curbuflist.Remaining() == []))
      && (!open <==> curWrite == Some(EndOfFile)) && (eofwritten ==> !open)
    }

    constructor (maxiovcnt: nat)
      requires maxiovcnt > 0
      ensures Valid() && given == [] == accepted && open && writeable && curWrite.None?
      ensures fresh(curbuflist)
    {
      this.maxiovcnt := maxiovcnt;
      curbuflist := new BufferList();
      open, checkingwr, eofwritten := true, false, false;
      curWrite, writtenSinceWritePosted, errors, writeable, resumes := None, 0, {}, true, 0;
      given, accepted := [], [];
    }

    /** One call of writev with the first `numvecs` of the remaining blocks; none stands for a failure. */
    method Writev(result: WriteResult, numvecs: nat) returns (written: Option<nat>)
      requires curbuflist.Valid() && 0 < numvecs && curbuflist.curvecidx + numvecs <= |curbuflist.iovecs|
      modifies this`accepted
      ensures written.Some? <==> result.Wrote?
      ensures written.None? ==> accepted == old(accepted)
      ensures written.Some? ==> written.value <= result.n && written.value <= |curbuflist.Remaining()|
      ensures written.Some? ==> accepted == old(accepted) + curbuflist.Remaining()[..written.value]
      ensures written.Some? && result.n > 0 ==> written.value > 0
    {
      if !result.Wrote? {
        return None;
      }
      var rest := curbuflist.iovecs[curbuflist.curvecidx..];
      var offered := Concat(rest[..numvecs]);
      var n := Min(result.n, |offered|);
      PrefixOfPrefix(rest, numvecs, n);
      assert rest[..numvecs][0] == rest[0] != [];
      ConcatFirst(rest[..numvecs]);
      accepted := accepted + offered[..n];
      written := Some(n);
    }

    /** One turn of the writing loop. */
    method WriteOnce(result: WriteResult) returns (written: Option<nat>)
      requires open && maxiovcnt > 0 && curbuflist.Valid() && Conserved() && curbuflist.Remaining() != []
      modifies this`accepted, this`checkingwr, this`errors, curbuflist
      ensures curbuflist.Valid() && Conserved() && old(accepted) <= accepted
      ensures written.Some? <==> result.Wrote?
      ensures written.Some? ==> |curbuflist.Remaining()| == |old(curbuflist.Remaining())| - written.value
      ensures written.Some? && result.n > 0 ==> written.value > 0
      ensures written.None? ==> curbuflist.Remaining() == old(curbuflist.Remaining())
      ensures checkingwr == (old(checkingwr) || result.Again?)
      ensures errors == if result.Failed? then old(errors) + {ErrWrite} else old(errors)
    {
      var numvecs := |curbuflist.iovecs| - curbuflist.curvecidx;
      if numvecs > maxiovcnt {
        numvecs := maxiovcnt;
      }
      written := Writev(result, numvecs);
      if written.None? {
        if result.Again? {
          if !checkingwr && open {
            checkingwr := true;
          }
        } else {
          SetErrorIn(ErrWrite);
        }
      } else {
        ghost var before, remaining, n := old(accepted), curbuflist.Remaining(), written.value;
        curbuflist.AdvanceBy(written.value);
        assert curbuflist.Remaining() == remaining[n..];
        Taken(before, remaining, n);
      }
    }

    static lemma Taken(before: seq<byte>, remaining: seq<byte>, n: nat)
      requires n <= |remaining|
      ensures before + remaining[..n] + remaining[n..] == before + remaining
    {
      assert remaining == remaining[..n] + remaining[n..];
    }

    method SetErrorIn(err: ErrorType)
      modifies this`errors
      ensures errors == old(errors) + {err}
    {
      errors := errors + {err};
    }

    /** The first result that is not an amount written is a failure. */
    static predicate Fails(script: seq<WriteResult>) {
      script != [] && (script[0].Failed? || (script[0].Wrote? && Fails(script[1..])))
    }

    static lemma {:induction false} GenerousDoesNotFail(script: seq<WriteResult>)
      requires Generous(script)
      ensures !Fails(script)
    {
      if script != [] {
        GenerousDoesNotFail(script[1..]);
      }
    }

    static predicate Generous(script: seq<WriteResult>) {
      forall i | 0 <= i < |script| :: script[i].Wrote? && script[i].n > 0
    }

    /** Writes until everything is written, or the descriptor would block, or it fails. */
    method WriteAll(script: seq<WriteResult>)
      requires open && maxiovcnt > 0 && curbuflist.Valid() && Conserved()
      modifies this`accepted, this`checkingwr, this`errors, curbuflist
      ensures curbuflist.Valid() && Conserved() && old(accepted) <= accepted
      ensures errors == old(errors) + if curbuflist.Remaining() != [] && Fails(script) then {ErrWrite} else {}
      ensures checkingwr == (old(checkingwr) || (curbuflist.Remaining() != [] && !Fails(script)))
      ensures Generous(script) && |script| >= |old(curbuflist.Remaining())| ==> curbuflist.Remaining() == []
    {
      var length, k := curbuflist.BytesLeft(), 0;
      assert script[0..] == script;
      while length > 0
        invariant 0 <= k <= |script| && curbuflist.Valid() && Conserved() && old(accepted) <= accepted
        invariant length == |curbuflist.Remaining()|
        invariant errors == old(errors) && checkingwr == old(checkingwr)
        invariant Fails(script) == Fails(script[k..])
        invariant Generous(script) && |script| >= |old(curbuflist.Remaining())| ==> |script| - k >= length
        decreases |script| - k
      {
        assert k < |script| ==> script[k..][0] == script[k] && script[k..][1..] == script[k + 1..];
        var written := WriteOnce(if k < |script| then script[k] else Again);
        if written.None? {
          break;
        }
        length := length - written.value;
        k := k + 1;
      }
    }

    /** What is left to write, also before the current chunk has been looked into. */
    ghost function Left(): seq<byte>
      reads this, curbuflist
    {
      if curbuflist.Remaining() == [] && curWrite.Some? then Bytes(curWrite.value) else curbuflist.Remaining()
    }

    method WriteEOF()
      modifies this`open, this`errors
      ensures !open && errors == if old(open) then old(errors) + {ErrWrite, ErrFatal, ErrRead} else old(errors)
    {
      if open {
        open := false;
        SetErrorIn(ErrWrite);
        SetErrorIn(ErrFatal);
        SetErrorIn(ErrRead);
      }
    }

    /** An open descriptor has not taken all of the current chunk. */
    predicate Unfinished()
      reads this
    {
      open && curWrite.Some?
    }

    /** The errors that an end of file adds. */
    function Added(chunk: Chunk): set<ErrorType>
      reads this
    {
      if chunk.EndOfFile? && open then {ErrWrite, ErrFatal, ErrRead} else {}
    }

    /** Writes as much of the current chunk as the descriptor takes. An end of file closes the descriptor. `ok` says
        that the assertion that there is something to write has held; it goes on as a build without assertions does. */
    method DoWriteFD(script: seq<WriteResult>) returns (ok: bool)
      requires maxiovcnt > 0 && curbuflist.Valid() && curWrite.Some? && WellFormed(curWrite.value)
      requires given == accepted + Left()
      requires curWrite.value.EndOfFile? ==> curbuflist.Remaining() == []
      requires (!open ==> curWrite.value.EndOfFile?) && (eofwritten ==> !open)
      modifies this`accepted, this`checkingwr, this`errors, this`open, this`eofwritten, this`curWrite, curbuflist
      ensures ok <==> !old(open) || old(curWrite).value.EndOfFile? || old(Left()) != []
      ensures curbuflist.Valid() && Conserved() && old(accepted) <= accepted
      ensures curWrite ==
        if curbuflist.Remaining() == [] && !old(curWrite).value.EndOfFile? then None else old(curWrite)
      ensures open == (old(open) && !old(curWrite).value.EndOfFile?) && (eofwritten ==> !open)
      ensures old(curWrite).value.EndOfFile? ==> curbuflist.Remaining() == []
      ensures errors ==
              old(errors) + old(Added(curWrite.value)) + if Unfinished() && Fails(script) then {ErrWrite} else {}
      ensures checkingwr == (old(checkingwr) || (Unfinished() && !Fails(script)))
      ensures Generous(script) && |script| >= |old(Left())| && open && !old(curWrite).value.EndOfFile? ==>
        curWrite.None?
    {
      ok := true;
      if !open {
        return;
      }
      if curbuflist.BytesLeft() <= 0 {
        if curWrite.value.EndOfFile? {
          if !eofwritten {
            WriteEOF();
            eofwritten := true;
          }
          return;
        } else {
          curbuflist.StartChunk(curWrite.value);
        }
      }
      ok := curbuflist.BytesLeft() > 0;
      WriteAll(script);
      if curbuflist.BytesLeft() <= 0 {
        curWrite := None;
      }
    }

    /** The chunk has bytes or is an end of file. */
    static ghost predicate Writable(chunk: Chunk) {
      chunk.EndOfFile? || Bytes(chunk) != []
    }

    /** The other side writes a chunk, which it may when there is none; the plug is writeable only then. */
    method PlugWrite(chunk: Chunk, script: seq<WriteResult>) returns (ok: bool)
      requires Valid() && curWrite.None? && WellFormed(chunk)
      modifies this, curbuflist
      ensures ok <==> Writable(chunk)
      ensures Valid() && given == old(given) + Bytes(chunk) && old(accepted) <= accepted
      ensures writtenSinceWritePosted == Wrap(old(writtenSinceWritePosted) + |Bytes(chunk)|)
      ensures writeable <==>
        old(writeable) && curWrite.None? && writtenSinceWritePosted <= 262144
      ensures resumes == old(resumes) + if writtenSinceWritePosted > 262144 then 1 else 0
      ensures open <==> !chunk.EndOfFile?
      ensures errors == old(errors) + old(Added(chunk)) + if Unfinished() && Fails(script) then {ErrWrite} else {}
      ensures checkingwr == (Unfinished() && !Fails(script))
      ensures curWrite.None? <==> open && accepted == given
      ensures Generous(script) && |script| >= |Bytes(chunk)| && !chunk.EndOfFile? ==> accepted == given
    {
      curWrite := Some(chunk);
      given := given + Bytes(chunk);
      assert accepted + [] == accepted;
      ok := DoWriteFD(script);
      LengthIsExact(chunk);
      writtenSinceWritePosted := Wrap(writtenSinceWritePosted + Length(chunk));
      if curWrite.Some? || writtenSinceWritePosted > MAX_BYTES_WITHOUT_DISPATCH {
        writeable := false;
        if writtenSinceWritePosted > MAX_BYTES_WITHOUT_DISPATCH {
          resumes := resumes + 1;
        }
      }
      assert accepted + [] == accepted;
    }

    /** The descriptor has become writeable after the module had registered for that. */
    method EventWrite(script: seq<WriteResult>) returns (ok: bool)
      requires Valid() && checkingwr
      modifies this, curbuflist
      ensures ok
      ensures Valid() && given == old(given) && old(accepted) <= accepted && open == old(open)
      ensures errors == old(errors) + if Unfinished() && Fails(script) then {ErrWrite} else {}
      ensures checkingwr == (Unfinished() && !Fails(script))
      ensures writtenSinceWritePosted == 0 && resumes == old(resumes)
      ensures writeable <==> curWrite.None? && !Blocked()
      ensures Generous(script) && |script| >= |old(curbuflist.Remaining())| && old(curWrite) != Some(EndOfFile) ==>
        accepted == given && curWrite.None?
    {
      checkingwr := false;
      writtenSinceWritePosted := 0;
      ok := true;
      if curWrite.Some? {
        ok := DoWriteFD(script);
      }
      if !Blocked() {
        if open && curWrite.None? {
          writeable := true;
        }
      }
      assert accepted + [] == accepted;
    }

    /** A resume event that was posted because too much had been written in one go. */
    method EventResumeWrite()
      requires Valid() && resumes > 0
      modifies this`resumes, this`writtenSinceWritePosted, this`writeable
      ensures Valid()
      ensures writtenSinceWritePosted == 0 && resumes == old(resumes) - 1
      ensures writeable <==> curWrite.None?
    {
      resumes := resumes - 1;
      writtenSinceWritePosted := 0;
      if curWrite.None? {
        writeable := true;
      }
    }

    /** An error from elsewhere: from reading, or from the descriptor itself. */
    method EventError(err: ErrorType)
      requires Valid()
      modifies this`errors
      ensures Valid() && errors == old(errors) + {err}
    {
      SetErrorIn(err);
    }

    /** Clears an error, and restarts the writing that it had stopped. */
    method ResetErrorIn(err: ErrorType)
      requires Valid()
      modifies this`errors, this`checkingwr, this`resumes
      ensures Valid() && errors == if err == ErrFatal then old(errors) else old(errors) - {err}
      ensures var restarts := err in old(errors) && (err == ErrGeneral || err == ErrWrite) && !Blocked()
                                && open && !old(checkingwr);
              && checkingwr == (old(checkingwr) || (restarts && curWrite.Some?))
              && resumes == old(resumes) + if restarts && curWrite.None? then 1 else 0
    {
      if err != ErrFatal && err in errors {
        errors := errors - {err};
        if err == ErrGeneral || err == ErrWrite {
          if !(ErrGeneral in errors || ErrWrite in errors || ErrFatal in errors) {
            if open && !checkingwr {
              if curWrite.Some? {
                checkingwr := true;
              } else {
                resumes := resumes + 1;
              }
            }
          }
        }
      }
    }

    static ghost predicate AllWritable(chunks: seq<Chunk>) {
      forall i | 0 <= i < |chunks| :: Writable(chunks[i])
    }

    static lemma AllWritableAppend(a: seq<Chunk>, b: seq<Chunk>)
      ensures AllWritable(a + b) <==> AllWritable(a) && AllWritable(b)
    {
      assert forall i | 0 <= i < |a| :: a[i] == (a + b)[i];
      assert forall i | 0 <= i < |b| :: b[i] == (a + b)[|a| + i];
    }

    /** No failure of the descriptor, no error from elsewhere, and no end of file. */
    static predicate Harmless(op: Operation) {
      match op
      case Write(chunk, script) => !chunk.EndOfFile? && !Fails(script)
      case Ready(script) => !Fails(script)
      case Error(_) => false
      case _ => true
    }

    /** Does one operation if it is possible, and returns the chunk that it took, if any. */
    method Perform(op: Operation) returns (ok: bool, ghost chunks: seq<Chunk>)
      requires Valid() && (op.Write? ==> WellFormed(op.chunk))
      modifies this, curbuflist
      ensures Valid() && given == old(given) + BytesOfAll(chunks) && old(accepted) <= accepted
      ensures ok <==> AllWritable(chunks)
      ensures Harmless(op) ==> errors <= old(errors) && open == old(open)
    {
      ok, chunks := true, [];
      assert given + [] == given;
      match op
      case Write(chunk, script) =>
        if curWrite.None? {
          ok := PlugWrite(chunk, script);
          chunks := [chunk];
          assert BytesOfAll(chunks) == Bytes(chunk) + [] == Bytes(chunk);
        }
      case Ready(script) =>
        if checkingwr {
          ok := EventWrite(script);
        }
      case Resume =>
        if resumes > 0 {
          EventResumeWrite();
        }
      case Error(err) =>
        EventError(err);
      case Reset(err) =>
        ResetErrorIn(err);
    }

    static predicate AllHarmless(ops: seq<Operation>) {
      forall i | 0 <= i < |ops| :: Harmless(ops[i])
    }

    /** Any sequence of operations: those that are not possible when their turn comes are skipped. The assertion in
        DoWriteFD holds throughout if and only if every chunk taken has bytes or is an end of file. */
    method Run(ops: seq<Operation>) returns (ok: bool, ghost chunks: seq<Chunk>)
      requires Valid() && forall i | 0 <= i < |ops| && ops[i].Write? :: WellFormed(ops[i].chunk)
      modifies this, curbuflist
      ensures Valid() && given == old(given) + BytesOfAll(chunks) && old(accepted) <= accepted
      ensures ok <==> AllWritable(chunks)
      ensures AllHarmless(ops) ==> errors <= old(errors) && open == old(open)
    {
      ok, chunks := true, [];
      assert given + [] == given;
      for i := 0 to |ops|
        invariant Valid() && given == old(given) + BytesOfAll(chunks) && old(accepted) <= accepted
        invariant ok <==> AllWritable(chunks)
        invariant AllHarmless(ops) ==> errors <= old(errors) && open == old(open)
      {
        var fine, taken := Perform(ops[i]);
        ok := ok && fine;
        AllWritableAppend(chunks, taken);
        BytesOfAllAppend(chunks, taken);
        Grouped(old(given), BytesOfAll(chunks), BytesOfAll(taken));
        chunks := chunks + taken;
      }
    }

    /** After any harmless operations on a module without errors, one readiness event at which the descriptor takes
        everything, and a resume event if one is waiting, leave nothing to write and a plug that is writeable. */
    method RunAndDrain(ops: seq<Operation>, script: seq<WriteResult>) returns (ghost chunks: seq<Chunk>)
      requires Valid() && open && errors == {} && AllHarmless(ops) && Generous(script)
      requires forall i | 0 <= i < |ops| && ops[i].Write? :: WellFormed(ops[i].chunk)
      modifies this, curbuflist
      ensures Valid() && given == old(given) + BytesOfAll(chunks)
      ensures |script| >= |given| ==> accepted == given && errors == {} && writeable
    {
      var _, taken := Run(ops);
      chunks := taken;
      if checkingwr {
        var _ := EventWrite(script);
      }
      if !writeable && resumes > 0 {
        EventResumeWrite();
      }
      GenerousDoesNotFail(script);
      assert curWrite.None? ==> accepted + [] == accepted;
    }

    static lemma Grouped(a: seq<byte>, b: seq<byte>, c: seq<byte>)
      ensures a + b + c == a + (b + c)
    {
    }
  }

  datatype Operation =
    Write(chunk: Chunk, script: seq<WriteResult>)
  | Ready(script: seq<WriteResult>)
  | Resume
  | Error(err: ErrorType)
  | Reset(err: ErrorType)

  /** At every moment the descriptor has got a prefix of what the module was given, the rest is in the blocks
      that remain, and a plug that is writeable, or a module with no chunk, has nothing left to write. */
  lemma DescriptorGotAPrefix(m: StreamFDModule)
    requires m.Valid()
    ensures m.accepted <= m.given && m.given[|m.accepted|..] == m.curbuflist.Remaining()
    ensures m.writeable ==> m.curWrite.None?
    ensures m.curWrite.None? ==> m.accepted == m.given
  {
    assert m.curWrite.None? ==> m.accepted + [] == m.accepted;
  }
}
