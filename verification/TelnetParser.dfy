/** The telnet parser and the builder it drives: regions of a growing buffer, not copies, become tokens. */
module TelnetParsing {
  import opened Basics
  import opened LinearExtents
  import opened Chunks
  import opened TelnetStream
  import opened TelnetRuns
  import opened TelnetWire

  /** A chunk carries what a token says. */
  ghost predicate Represents(c: Chunk, t: Token) {
    match t
    case Data(bytes) => Bytes(c) == bytes
    case Command(command) => c == SingleChar(command)
    case Negotiation(request, option) => c == OptionNegotiation(request, option)
    case Sub(subtype, raw, cooked) =>
      c.Suboption? && c.subtype == subtype && c.cooked == cooked && Bytes(c.raw) == raw
    case Flush => Bytes(c) == []
  }

  lemma RepresentsSpells(c: Chunk, t: Token)
    requires Represents(c, t)
    ensures Bytes(c) == Spelled(t)
  {
  }

  ghost predicate AllRepresent(cs: seq<Chunk>, ts: seq<Token>) {
    |cs| == |ts| && forall i | 0 <= i < |cs| :: Represents(cs[i], ts[i])
  }

  /** Chunks that carry tokens, one each, hold the bytes that the tokens spell. */
  lemma {:induction false} AllRepresentSpells(cs: seq<Chunk>, ts: seq<Token>)
    requires AllRepresent(cs, ts)
    ensures BytesOfAll(cs) == SpelledAll(ts)
    decreases |cs|
  {
    if cs != [] {
      RepresentsSpells(cs[0], ts[0]);
      AllRepresentSpells(cs[1..], ts[1..]);
    }
  }

  /** Owns the unparsed buffer and the queue of finished chunks. */
  class Builder {
    var chunks: seq<Chunk>
    var curchunk: Option<Chunk>
    var curlen: nat
    ghost var queued: seq<Token>

    ghost function Text(): seq<byte>
      reads this
    {
      if curchunk.Some? then Bytes(curchunk.value) else []
    }

    ghost predicate Valid()
      reads this
    {
      && curlen == |Text()| && curlen + 5 <= UINT_MAX
      && (curchunk.Some? ==> curlen > 0 && WellFormed(curchunk.value))
      && AllRepresent(chunks, queued)
      && forall i | 0 <= i < |chunks| :: WellFormed(chunks[i])
    }

    constructor ()
      ensures Valid() && curchunk == None && chunks == [] && queued == []
    {
      chunks, curchunk, curlen, queued := [], None, 0, [];
    }

    method MakeDataPtr(regionbegin: nat, regionend: nat) returns (c: Chunk)
      requires Valid() && curchunk.Some? && regionbegin <= regionend <= curlen
      ensures WellFormed(c) && Bytes(c) == Text()[regionbegin..regionend]
    {
      if regionbegin == 0 && regionend == curlen {
        c := curchunk.value;
      } else {
        var ext := Extent(regionbegin, regionend - regionbegin);
        MakeSliceSlices(curchunk.value, ext);
        c := MakeSlice(curchunk.value, ext);
      }
    }

    method AddDataBlock(regionbegin: nat, regionend: nat)
      requires Valid() && curchunk.Some? && regionbegin <= regionend <= curlen
      modifies this`chunks, this`queued
      ensures Valid() && queued == old(queued) + DataToken(Text()[regionbegin..regionend])
    {
      if regionend == regionbegin {
        return;
      }
      var c := MakeDataPtr(regionbegin, regionend);
      chunks := chunks + [c];
      queued := queued + [Data(Text()[regionbegin..regionend])];
    }

    method AddCharCommand(command: byte)
      requires Valid()
      modifies this`chunks, this`queued
      ensures Valid() && queued == old(queued) + [Command(command)]
    {
      chunks := chunks + [SingleChar(command)];
      queued := queued + [Command(command)];
    }

    method AddNegotiationCommand(request: byte, option: byte)
      requires Valid()
      modifies this`chunks, this`queued
      ensures Valid() && queued == old(queued) + [Negotiation(request, option)]
    {
      chunks := chunks + [OptionNegotiation(request, option)];
      queued := queued + [Negotiation(request, option)];
    }

    /** Aborts if there is no data. */
    method AddSuboption(subtype: byte, regionbegin: nat, regionend: nat, cooked: seq<byte>) returns (ok: bool)
      requires Valid() && curchunk.Some? && regionbegin <= regionend <= curlen
      modifies this`chunks, this`queued
      ensures ok <==> regionbegin < regionend
      ensures Valid() && queued == old(queued) +
        if ok then [Sub(subtype, Text()[regionbegin..regionend], cooked)] else []
    {
      if regionend <= regionbegin {
        return false;
      }
      ok := true;
      var data := MakeDataPtr(regionbegin, regionend);
      chunks := chunks + [Suboption(subtype, cooked, data)];
      queued := queued + [Sub(subtype, Text()[regionbegin..regionend], cooked)];
    }

    method AddOutgoing(c: Chunk)
      requires Valid() && WellFormed(c) && Bytes(c) == []
      modifies this`chunks, this`queued
      ensures Valid() && queued == old(queued) + [Flush]
    {
      chunks := chunks + [c];
      queued := queued + [Flush];
    }

    /** `unique` tells whether nobody else holds on to the unparsed buffer. */
    method AddIncoming(c: Chunk, unique: bool)
      requires Valid() && WellFormed(c) && Bytes(c) != [] && curlen + |Bytes(c)| + 5 <= UINT_MAX
      modifies this`curchunk, this`curlen
      ensures Valid() && curchunk.Some? && Text() == old(Text()) + Bytes(c)
    {
      LengthIsExact(c);
      var inlen := Length(c);
      if curchunk.None? {
        SetIncoming(c, inlen);
      } else {
        var kids := if unique && curchunk.value.Group? then curchunk.value.kids else [curchunk.value];
        BytesOfAllSnoc(kids, c);
        assert BytesOfAll([curchunk.value]) == Bytes(curchunk.value) + BytesOfAll([]);
        curchunk := Some(Group(kids + [c]));
        curlen := curlen + inlen;
      }
    }

    method SetIncoming(c: Chunk, inlen: uint32)
      requires Valid() && WellFormed(c) && inlen == |Bytes(c)| > 0 && inlen + 5 <= UINT_MAX
      modifies this`curchunk, this`curlen
      ensures Valid() && curchunk.Some? && Text() == Bytes(c)
    {
      curchunk := Some(c);
      curlen := inlen;
    }

    method ClearIncoming()
      requires Valid()
      modifies this`curchunk, this`curlen
      ensures Valid() && curchunk.None?
    {
      curchunk := None;
      curlen := 0;
    }

    method GetFromQueue() returns (c: Chunk)
      requires Valid() && chunks != []
      modifies this`chunks, this`queued
      ensures Valid() && queued == old(queued)[1..]
      ensures WellFormed(c) && Represents(c, old(queued)[0])
    {
      c := chunks[0];
      chunks := chunks[1..];
      queued := queued[1..];
    }
  }

  /** The bytes of the current region in a state of the machine. */
  function RegionOf(p: State): seq<byte> {
    match p.mode
    case Normal => p.data
    case Escape => p.data + [IAC]
    case SubNeg(request) => p.data + [IAC, request]
    case SuboptNum => p.data + [IAC, SB]
    case InSubopt(_, raw) => raw
    case SuboptEscape(_, raw) => raw + [IAC]
  }

  datatype ParserState = PSNormal | PSEscape | PSSubNeg | PSSuboptNum | PSSubopt | PSSuboptEscape

  /** The parser proper. It knows positions; the bytes are the builder's.
      `abs` is the state of the machine that the fields stand for. */
  class TelnetParser {
    var negtype: byte
    var suboptType: byte
    var curpos: nat
    var state: ParserState
    var regionbegin: nat
    var regionend: nat
    var cookedbuf: array<byte>
    var cookedUsed: nat
    ghost var abs: State

    constructor ()
      ensures curpos == 0 == regionbegin && abs == START && Tagged() && fresh(cookedbuf)
    {
      negtype, suboptType, curpos, state, regionbegin, regionend := WILL, 0, 0, PSNormal, 0, 0;
      cookedbuf, cookedUsed := new byte[0], 0;
      abs := START;
    }

    /** The fields say what the abstract state says, and the cooked bytes so far are right. */
    ghost predicate Tagged()
      reads this, cookedbuf
    {
      && Proper(abs)
      && match abs.mode
         case Normal => state == PSNormal
         case Escape => state == PSEscape
         case SubNeg(request) => state == PSSubNeg && negtype == request
         case SuboptNum => state == PSSuboptNum
         case InSubopt(subtype, raw) => state == PSSubopt && suboptType == subtype && CookedIs(Cook(raw))
         case SuboptEscape(subtype, raw) =>
           state == PSSuboptEscape && suboptType == subtype && CookedIs(Cook(raw))
    }

    ghost predicate CookedIs(cooked: seq<byte>)
      reads this, cookedbuf
    {
      48 <= cookedbuf.Length && cookedUsed <= cookedbuf.Length && cookedbuf[..cookedUsed] == cooked
    }

    /** At position `i` the region from regionbegin_ on holds what the abstract state says. */
    ghost predicate Agrees(builder: Builder, i: nat)
      reads this, cookedbuf, builder
    {
      && builder.Valid() && Tagged()
      && regionbegin <= i <= |builder.Text()|
      && builder.Text()[regionbegin..i] == RegionOf(abs)
    }

    ghost predicate Facing(builder: Builder, i: nat, ch: byte)
      reads this, cookedbuf, builder
    {
      Agrees(builder, i) && i < builder.curlen && builder.Text()[i] == ch
    }

    /** One byte moves the parser as it moves the machine, and adds to the queue what the machine emits. */
    twostate predicate Moved(builder: Builder, i: nat, ch: byte)
      reads this, cookedbuf, builder
    {
      && Agrees(builder, i + 1)
      && abs == Feed(old(abs), ch).0
      && builder.queued == old(builder.queued) + Feed(old(abs), ch).1
      && builder.curchunk == old(builder.curchunk) && curpos == old(curpos)
      && (cookedbuf == old(cookedbuf) || fresh(cookedbuf))
    }

    method Resize(newsize: nat)
      requires cookedUsed <= newsize && cookedUsed <= cookedbuf.Length
      modifies this`cookedbuf
      ensures fresh(cookedbuf) && cookedbuf.Length == newsize
      ensures cookedbuf[..cookedUsed] == old(cookedbuf[..cookedUsed])
    {
      var bigger := new byte[newsize];
      for k := 0 to cookedUsed
        invariant cookedbuf == old(cookedbuf) && bigger[..k] == cookedbuf[..k]
      {
        bigger[k] := cookedbuf[k];
      }
      cookedbuf := bigger;
    }

    /** Makes room for `room` more cooked bytes; growing by half is always enough. */
    method EnsureRoom(room: nat, ghost cooked: seq<byte>)
      requires CookedIs(cooked) && 1 <= room <= 2
      modifies this`cookedbuf
      ensures cookedbuf == old(cookedbuf) || fresh(cookedbuf)
      ensures CookedIs(cooked) && cookedUsed + room <= cookedbuf.Length
    {
      if cookedUsed + (room - 1) >= cookedbuf.Length {
        Resize(cookedUsed + cookedUsed / 2);
        assert cookedbuf.Length > cookedUsed + (room - 1);
      }
    }

    method PutCooked(ch: byte, ghost cooked: seq<byte>)
      requires CookedIs(cooked) && cookedUsed < cookedbuf.Length
      modifies this`cookedUsed, cookedbuf
      ensures cookedUsed == old(cookedUsed) + 1 && CookedIs(cooked + [ch])
    {
      cookedbuf[cookedUsed] := ch;
      cookedUsed := cookedUsed + 1;
    }

    /** Passes on the data before position `end`, if there is any. */
    method PassOnData(end: nat, builder: Builder)
      requires builder.Valid() && builder.curchunk.Some? && regionbegin <= end <= builder.curlen
      modifies this`regionend, builder`chunks, builder`queued
      ensures builder.Valid() && regionend == end
      ensures builder.queued == old(builder.queued) + DataToken(builder.Text()[regionbegin..end])
    {
      regionend := end;
      if regionend > regionbegin {
        builder.AddDataBlock(regionbegin, regionend);
      }
    }

    method StateNormal(ch: byte, ghost i: nat, ghost builder: Builder)
      requires Facing(builder, i, ch) && state == PSNormal
      modifies this`state, this`abs
      ensures Moved(builder, i, ch)
    {
      RegionGrows(builder.Text(), regionbegin, i);
      abs := Feed(abs, ch).0;
      if ch == IAC {
        state := PSEscape;
      }
    }

    method StateEscape(ch: byte, i: nat, builder: Builder)
      requires Facing(builder, i, ch) && state == PSEscape
      modifies this, builder`chunks, builder`queued
      ensures Moved(builder, i, ch)
    {
      RegionGrows(builder.Text(), regionbegin, i);
      ghost var data := abs.data;
      if ch == IAC {
        regionend := i;
        builder.AddDataBlock(regionbegin, regionend);
        regionbegin := i + 1;
        state := PSNormal;
        abs := START;
      }
      if ch == SB {
        state := PSSuboptNum;
        abs := State(data, SuboptNum);
      } else if IsNegotiation(ch) {
        negtype := ch;
        state := PSSubNeg;
        abs := State(data, SubNeg(ch));
      } else if IsCommand(ch) {
        EscapeCommand(ch, i, builder);
      } else {
        state := PSNormal;
        if ch != IAC {
          abs := State(data + [IAC, ch], Normal);
        }
      }
    }

    /** The part of StateEscape for a single-character command. */
    method EscapeCommand(ch: byte, i: nat, builder: Builder)
      requires Facing(builder, i, ch) && state == PSEscape && IsCommand(ch)
      modifies this`regionbegin, this`regionend, this`state, this`abs, builder`chunks, builder`queued
      ensures Moved(builder, i, ch)
    {
      RegionFront(builder.Text(), regionbegin, i, abs.data, [IAC]);
      PassOnData(i - 1, builder);
      builder.AddCharCommand(ch);
      regionbegin := i + 1;
      state := PSNormal;
      abs := START;
    }

    method StateSubNeg(ch: byte, i: nat, builder: Builder)
      requires Facing(builder, i, ch) && state == PSSubNeg
      modifies this, builder`chunks, builder`queued
      ensures Moved(builder, i, ch)
    {
      RegionFront(builder.Text(), regionbegin, i, abs.data, [IAC, negtype]);
      abs := Feed(abs, ch).0;
      PassOnData(i - 2, builder);
      builder.AddNegotiationCommand(negtype, ch);
      regionbegin := i + 1;
      state := PSNormal;
    }

    method StateSuboptNum(ch: byte, i: nat, builder: Builder)
      requires Facing(builder, i, ch) && state == PSSuboptNum
      modifies this, builder`chunks, builder`queued
      ensures Moved(builder, i, ch)
    {
      RegionFront(builder.Text(), regionbegin, i, abs.data, [IAC, SB]);
      abs := Feed(abs, ch).0;
      PassOnData(i - 2, builder);
      if ch != 255 {
        suboptType := ch;
        cookedbuf := new byte[48];
        cookedUsed := 0;
        state := PSSubopt;
      } else {
        state := PSNormal;
      }
      regionbegin := i + 1;
    }

    /** The write for a plain byte of suboption data. */
    method CookPlain(ch: byte, ghost cooked: seq<byte>)
      requires CookedIs(cooked)
      modifies this`cookedbuf, this`cookedUsed, cookedbuf
      ensures cookedbuf == old(cookedbuf) || fresh(cookedbuf)
      ensures CookedIs(cooked + [ch])
    {
      EnsureRoom(1, cooked);
      PutCooked(ch, cooked);
    }

    method StateSubopt(ch: byte, ghost i: nat, ghost builder: Builder)
      requires Facing(builder, i, ch) && state == PSSubopt
      modifies this`state, this`cookedbuf, this`cookedUsed, this`abs, cookedbuf
      ensures Moved(builder, i, ch)
    {
      if ch == IAC {
        RegionGrows(builder.Text(), regionbegin, i);
        abs := State([], SuboptEscape(suboptType, abs.mode.raw));
        state := PSSuboptEscape;
      } else {
        SuboptPlain(ch, i, builder);
      }
    }

    /** The part of StateSubopt for a byte that stands for itself. */
    method SuboptPlain(ch: byte, ghost i: nat, ghost builder: Builder)
      requires Facing(builder, i, ch) && state == PSSubopt && ch != IAC
      modifies this`cookedbuf, this`cookedUsed, this`abs, cookedbuf
      ensures Moved(builder, i, ch)
    {
      ghost var raw := abs.mode.raw;
      RegionGrows(builder.Text(), regionbegin, i);
      PlainRegion(abs, ch);
      CookPlainAppended(raw, ch);
      CookPlain(ch, Cook(raw));
      abs := State([], InSubopt(suboptType, raw + [ch]));
    }

    static lemma PlainRegion(p: State, ch: byte)
      requires p.mode.InSubopt? && ch != IAC && p.data == []
      ensures Feed(p, ch) == (State([], InSubopt(p.mode.subtype, p.mode.raw + [ch])), [])
      ensures RegionOf(Feed(p, ch).0) == RegionOf(p) + [ch]
    {
    }

    static lemma CookPlainAppended(raw: seq<byte>, ch: byte)
      requires Closed(raw) && ch != IAC
      ensures Closed(raw + [ch]) && Cook(raw + [ch]) == Cook(raw) + [ch]
    {
      ClosedSnoc(raw, [ch]);
      CookAppend(raw, [ch]);
    }

    method StateSuboptEscape(ch: byte, i: nat, builder: Builder) returns (ok: bool)
      requires Facing(builder, i, ch) && state == PSSuboptEscape
      modifies this, cookedbuf, builder`chunks, builder`queued
      ensures ok <==> NoEmptySub(Feed(old(abs), ch).1)
      ensures ok ==> Moved(builder, i, ch)
    {
      if ch == SE {
        ok := SuboptEnded(i, builder);
      } else {
        SuboptContinued(ch, i, builder);
        ok := true;
      }
    }

    /** The part of StateSuboptEscape for any other byte. */
    method SuboptContinued(ch: byte, ghost i: nat, ghost builder: Builder)
      requires Facing(builder, i, ch) && state == PSSuboptEscape && ch != SE
      modifies this`state, this`cookedbuf, this`cookedUsed, this`abs, cookedbuf
      ensures Moved(builder, i, ch)
    {
      ghost var raw := abs.mode.raw;
      RegionGrows(builder.Text(), regionbegin, i);
      ContinuedRegion(abs, ch);
      CookPairAppended(raw, ch);
      CookEscaped(ch, Cook(raw));
      abs := State([], InSubopt(suboptType, raw + [IAC, ch]));
      state := PSSubopt;
    }

    static lemma ContinuedRegion(p: State, ch: byte)
      requires p.mode.SuboptEscape? && ch != SE && p.data == []
      ensures Feed(p, ch) == (State([], InSubopt(p.mode.subtype, p.mode.raw + [IAC, ch])), [])
      ensures RegionOf(Feed(p, ch).0) == RegionOf(p) + [ch]
    {
      assert p.mode.raw + [IAC] + [ch] == p.mode.raw + [IAC, ch];
    }

    /** The part of StateSuboptEscape for the end of the suboption. */
    method SuboptEnded(i: nat, builder: Builder) returns (ok: bool)
      requires Facing(builder, i, SE) && state == PSSuboptEscape
      modifies this`regionbegin, this`regionend, this`state, this`abs, builder`chunks, builder`queued
      ensures ok <==> NoEmptySub(Feed(old(abs), SE).1)
      ensures ok ==> Moved(builder, i, SE)
    {
      ghost var raw := abs.mode.raw;
      RegionFront(builder.Text(), regionbegin, i, raw, [IAC]);
      assert Feed(abs, SE).1[0].raw == raw;
      regionend := i - 1;
      ok := builder.AddSuboption(suboptType, regionbegin, regionend, cookedbuf[..cookedUsed]);
      if !ok {
        return;
      }
      regionbegin := i + 1;
      state := PSNormal;
      abs := START;
    }

    /** The writes StateSuboptEscape makes for a byte that does not end the suboption. */
    method CookEscaped(ch: byte, ghost cooked: seq<byte>)
      requires CookedIs(cooked)
      modifies this`cookedbuf, this`cookedUsed, cookedbuf
      ensures cookedbuf == old(cookedbuf) || fresh(cookedbuf)
      ensures CookedIs(cooked + CookPair(ch))
    {
      EnsureRoom(2, cooked);
      if ch != IAC {
        PutCooked(IAC, cooked);
        PutCooked(ch, cooked + [IAC]);
        assert cooked + [IAC] + [ch] == cooked + [IAC, ch];
      } else {
        PutCooked(ch, cooked);
      }
    }

    static lemma CookPairAppended(raw: seq<byte>, ch: byte)
      requires Closed(raw) && ch != SE
      ensures Closed(raw + [IAC, ch]) && Cook(raw + [IAC, ch]) == Cook(raw) + CookPair(ch)
    {
      ClosedSnoc(raw, [IAC, ch]);
      CookAppend(raw, [IAC, ch]);
      assert Cook([IAC, ch]) == CookPair(ch) + Cook([IAC, ch][2..]);
    }

    /** Aborts if the byte ends a suboption without data. */
    method ProcessByte(ch: byte, i: nat, builder: Builder) returns (ok: bool)
      requires Facing(builder, i, ch)
      modifies this, cookedbuf, builder`chunks, builder`queued
      ensures ok <==> NoEmptySub(Feed(old(abs), ch).1)
      ensures ok ==> Moved(builder, i, ch)
    {
      ok := true;
      match state {
        case PSNormal => StateNormal(ch, i, builder);
        case PSEscape => StateEscape(ch, i, builder);
        case PSSubNeg => StateSubNeg(ch, i, builder);
        case PSSuboptNum => StateSuboptNum(ch, i, builder);
        case PSSubopt => StateSubopt(ch, i, builder);
        case PSSuboptEscape => ok := StateSuboptEscape(ch, i, builder);
      }
    }

    /** Reads one block of data that lies in the builder's buffer at the current position. `ok` says that the
        assertion of the builder has held. */
    method ProcessData(data: seq<byte>, builder: Builder) returns (ok: bool)
      requires Agrees(builder, curpos) && curpos + |data| <= builder.curlen
      requires builder.Text()[curpos..curpos + |data|] == data
      modifies this, cookedbuf, builder`chunks, builder`queued
      ensures ok <==> NoEmptySub(Run(old(abs), data).1)
      ensures ok ==> Agrees(builder, curpos) && curpos == old(curpos) + |data|
      ensures ok ==> abs == Run(old(abs), data).0 && builder.queued == old(builder.queued) + Run(old(abs), data).1
      ensures ok ==> builder.curchunk == old(builder.curchunk) && (cookedbuf == old(cookedbuf) || fresh(cookedbuf))
    {
      ghost var all, before := Run(abs, data), builder.queued;
      assert data[0..] == data;
      for k := 0 to |data|
        invariant curpos == old(curpos) && builder.curchunk == old(builder.curchunk)
        invariant Reading(builder, data, k, all, before)
        invariant cookedbuf == old(cookedbuf) || fresh(cookedbuf)
      {
        ok := ReadOne(data, k, builder, all, before);
        if !ok {
          return;
        }
      }
      ok := true;
      curpos := curpos + |data|;
    }

    /** In the middle of a block: what is done and what is left make up the whole. */
    ghost predicate Reading(builder: Builder, data: seq<byte>, k: nat, all: (State, seq<Token>), before: seq<Token>)
      reads this, cookedbuf, builder
    {
      && k <= |data|
      && Agrees(builder, curpos + k)
      && curpos + |data| <= builder.curlen && builder.Text()[curpos..curpos + |data|] == data
      && Remains(abs, data[k..], builder.queued, before, all)
    }

    /** From state `p`, with `queued` in the queue, what is left to read completes `all`. */
    static ghost predicate Remains(
      p: State, s: seq<byte>, queued: seq<Token>, before: seq<Token>, all: (State, seq<Token>))
    {
      && all.0 == Run(p, s).0
      && before <= queued && before + all.1 == queued + Run(p, s).1
      && (NoEmptySub(all.1) <==> NoEmptySub(Run(p, s).1))
    }

    method ReadOne(data: seq<byte>, k: nat, builder: Builder, ghost all: (State, seq<Token>), ghost before: seq<Token>)
      returns (ok: bool)
      requires k < |data| && Reading(builder, data, k, all, before)
      modifies this, cookedbuf, builder`chunks, builder`queued
      ensures !ok ==> !NoEmptySub(all.1)
      ensures ok ==> Reading(builder, data, k + 1, all, before)
      ensures ok ==> builder.curchunk == old(builder.curchunk) && curpos == old(curpos)
      ensures ok ==> cookedbuf == old(cookedbuf) || fresh(cookedbuf)
    {
      ByteOfBlock(builder.Text(), curpos, data, k);
      OneByte(abs, data[k..], builder.queued, before, all);
      ok := ProcessByte(data[k], curpos + k, builder);
    }

    static lemma ByteOfBlock(text: seq<byte>, at: nat, data: seq<byte>, k: nat)
      requires k < |data| && at + |data| <= |text| && text[at..at + |data|] == data
      ensures text[at + k] == data[k] && data[k..][0] == data[k] && data[k..][1..] == data[k + 1..]
    {
      assert text[at..at + |data|][k] == text[at + k];
    }

    static lemma OneByte(
      p: State, s: seq<byte>, queued: seq<Token>, before: seq<Token>, all: (State, seq<Token>))
      requires s != [] && Remains(p, s, queued, before, all)
      ensures var (q, ts) := Feed(p, s[0]);
              if NoEmptySub(ts) then Remains(q, s[1..], queued + ts, before, all) else !NoEmptySub(all.1)
    {
      var (q, ts) := Feed(p, s[0]);
      var us := Run(q, s[1..]).1;
      Chain(queued, ts, us);
      NoEmptySubAppend(ts, us);
    }

    /** Passes on what can be passed on without knowing how the unfinished element goes on. */
    method EndOfChunk(builder: Builder)
      requires Agrees(builder, curpos) && builder.curchunk.Some?
      modifies this`regionbegin, this`regionend, this`abs, builder`chunks, builder`queued
      ensures Agrees(builder, curpos)
      ensures abs == TelnetRuns.EndOfChunk(old(abs)).0
      ensures builder.queued == old(builder.queued) + TelnetRuns.EndOfChunk(old(abs)).1
    {
      match state {
        case PSNormal =>
          regionend := curpos;
          builder.AddDataBlock(regionbegin, regionend);
          regionbegin := regionend;
          abs := State([], Normal);
        case PSEscape =>
          KeepHeld(1, builder);
        case PSSuboptNum =>
          KeepHeld(2, builder);
        case PSSubNeg =>
          KeepHeld(2, builder);
        case PSSubopt =>
        case PSSuboptEscape =>
      }
    }

    /** Passes on the data before the last `n` bytes, which belong to an unfinished command. */
    method KeepHeld(n: nat, builder: Builder)
      requires Agrees(builder, curpos) && builder.curchunk.Some?
      requires !Inside(abs.mode) && n == |Held(abs.mode)|
      modifies this`regionbegin, this`regionend, this`abs, builder`chunks, builder`queued
      ensures Agrees(builder, curpos)
      ensures abs == State([], old(abs).mode)
      ensures builder.queued == old(builder.queued) + DataToken(old(abs).data)
    {
      assert RegionOf(abs) == abs.data + Held(abs.mode);
      RegionFront(builder.Text(), regionbegin, curpos, abs.data, Held(abs.mode));
      RegionBack(builder.Text(), regionbegin, curpos, abs.data, Held(abs.mode));
      PassOnData(curpos - n, builder);
      regionbegin := regionend;
      abs := State([], abs.mode);
    }

    /** Gives up on an unfinished element. */
    method Reset(builder: Builder)
      requires Agrees(builder, curpos) && builder.curchunk.Some? && regionbegin < curpos
      modifies this`regionbegin, this`regionend, this`state, this`abs, builder`chunks, builder`queued
      ensures Agrees(builder, curpos) && regionbegin == curpos
      ensures abs == TelnetRuns.Reset(old(abs)).0
      ensures builder.queued == old(builder.queued) + TelnetRuns.Reset(old(abs)).1
    {
      if state == PSSubopt || state == PSSuboptEscape {
        regionend := curpos;
        var _ := builder.AddSuboption(suboptType, regionbegin, regionend, cookedbuf[..cookedUsed]);
      }
      regionbegin := curpos;
      state := PSNormal;
      abs := START;
    }

    /** Moves the positions as if the first `bytes` bytes of the buffer had been cut off. */
    method DropBytes(bytes: nat)
      requires regionbegin <= curpos
      modifies this`regionbegin, this`curpos
      ensures bytes <= old(regionbegin) ==> regionbegin == old(regionbegin) - bytes && curpos == old(curpos) - bytes
      ensures bytes > old(regionbegin) ==> regionbegin == old(regionbegin) && curpos == old(curpos)
    {
      if bytes <= regionbegin {
        regionbegin := regionbegin - bytes;
        curpos := curpos - bytes;
      }
    }

    static lemma RegionFront(text: seq<byte>, begin: nat, i: nat, front: seq<byte>, back: seq<byte>)
      requires begin <= i <= |text| && text[begin..i] == front + back
      ensures begin + |front| == i - |back|
      ensures text[begin..i - |back|] == front
    {
      assert text[begin..i - |back|] == text[begin..i][..|front|];
    }

    static lemma RegionBack(text: seq<byte>, begin: nat, i: nat, front: seq<byte>, back: seq<byte>)
      requires begin <= i <= |text| && text[begin..i] == front + back
      ensures begin <= i - |back| && text[i - |back|..i] == back
    {
      assert text[i - |back|..i] == text[begin..i][|front|..];
    }

    static lemma RegionGrows(text: seq<byte>, begin: nat, i: nat)
      requires begin <= i < |text|
      ensures text[begin..i + 1] == text[begin..i] + [text[i]]
    {
    }
  }
}
