/** The telnet chunker: a stream processor that turns incoming chunks into telnet tokens. */
module TelnetChunking {
  import opened Basics
  import opened Chunks
  import opened UseTracking
  import opened TelnetStream
  import opened TelnetRuns
  import opened TelnetWire
  import opened TelnetParsing

  class TelnetChunker {
    var incoming: Option<Chunk>
    var outgoing: Option<Chunk>
    var outgoingReady: bool
    const parser: TelnetParser
    const builder: Builder

    /** Every chunk that has been parsed, and every chunk that has been made the outgoing one, with its token. */
    ghost var fed: seq<seq<byte>>
    ghost var handed: seq<Chunk>
    ghost var delivered: seq<Token>

    /** Between chunks parser and builder agree on every position, and the unparsed tail is bounded. */
    ghost predicate Linked()
      reads this, parser, parser.cookedbuf, builder
    {
      && parser.Agrees(builder, parser.curpos) && parser.curpos == builder.curlen
      && Settled(parser.abs)
      && builder.curlen - parser.regionbegin == TailOf(parser.abs.mode) <= MAX_SUBOPTSIZE
    }

    /** What may be written: the sizes stay representable. */
    ghost predicate Acceptable(c: Chunk)
      reads this, builder
    {
      WellFormed(c) && builder.curlen + |Bytes(c)| + 5 <= UINT_MAX
    }

    /** The grammar reads no suboption without data in what is held and the chunk. */
    ghost predicate HasNoEmptySub(c: Chunk)
      reads this, parser
    {
      AllHaveData(Scan(Held(parser.abs.mode) + Bytes(c)))
    }

    ghost predicate Valid()
      reads this, parser, parser.cookedbuf, builder
    {
      && Linked()
      && ChunkRun(START, fed) == (parser.abs, delivered + builder.queued)
      && (outgoingReady ==>
            outgoing.Some? && WellFormed(outgoing.value) && handed != [] && outgoing.value == handed[|handed| - 1])
      && AllRepresent(handed, delivered)
      && (incoming.None? ==> builder.queued == [])
      && (incoming.Some? ==> outgoingReady)
      && (incoming.Some? && builder.queued == [] ==> Acceptable(incoming.value))
    }

    constructor ()
      ensures Valid() && incoming == None && !outgoingReady && fed == [] && delivered == []
      ensures fresh(parser) && fresh(builder) && fresh(parser.cookedbuf)
    {
      incoming, outgoing, outgoingReady := None, None, false;
      parser := new TelnetParser();
      builder := new Builder();
      fed, handed, delivered := [], [], [];
      new;
      assert delivered + builder.queued == [];
      assert builder.Text()[0..0] == RegionOf(START);
      assert parser.Agrees(builder, 0);
    }

    predicate CanWriteTo()
      reads this
    {
      incoming.None?
    }

    predicate CanReadFrom()
      reads this
    {
      outgoingReady
    }

    /** A chunk without bytes: whatever is unfinished is given up, and the chunk passes through. */
    method FlushIncoming()
      requires Linked() && builder.queued == []
      requires incoming.Some? && WellFormed(incoming.value) && Bytes(incoming.value) == []
      modifies parser, builder
      ensures Linked() && parser.cookedbuf == old(parser.cookedbuf)
      ensures parser.abs == ChunkStep(old(parser.abs), []).0
      ensures builder.queued == ChunkStep(old(parser.abs), []).1
    {
      TailIsRegion(parser.abs);
      if parser.regionbegin != builder.curlen {
        parser.Reset(builder);
      }
      DropBuffer();
      builder.AddOutgoing(incoming.value);
    }

    /** Drops the buffer once nothing in it is unparsed. */
    method DropBuffer()
      requires parser.Agrees(builder, parser.curpos) && parser.regionbegin == parser.curpos == builder.curlen
      modifies parser`regionbegin, parser`curpos, builder`curchunk, builder`curlen
      ensures parser.Agrees(builder, parser.curpos) && parser.regionbegin == parser.curpos == builder.curlen == 0
      ensures RegionOf(parser.abs) == []
    {
      parser.DropBytes(parser.regionbegin);
      builder.ClearIncoming();
    }

    static lemma TailIsRegion(p: State)
      requires Settled(p)
      ensures |RegionOf(p)| == TailOf(p.mode)
    {
    }

    /** Feeds every data block of the incoming chunk to the parser. */
    method ForEachBlock(blocks: seq<seq<byte>>) returns (ok: bool)
      requires parser.Agrees(builder, parser.curpos) && parser.curpos + |Concat(blocks)| == builder.curlen
      requires builder.Text()[parser.curpos..] == Concat(blocks)
      modifies parser, parser.cookedbuf, builder`chunks, builder`queued
      ensures ok <==> NoEmptySub(Run(old(parser.abs), Concat(blocks)).1)
      ensures ok ==> parser.Agrees(builder, parser.curpos) && parser.curpos == builder.curlen
      ensures ok ==> parser.abs == Run(old(parser.abs), Concat(blocks)).0
      ensures ok ==> builder.queued == old(builder.queued) + Run(old(parser.abs), Concat(blocks)).1
      ensures ok ==> builder.curchunk == old(builder.curchunk)
      ensures ok ==> parser.cookedbuf == old(parser.cookedbuf) || fresh(parser.cookedbuf)
      decreases |blocks|
    {
      ok := true;
      if blocks != [] {
        ghost var p, rest := parser.abs, Concat(blocks[1..]);
        var block := blocks[0];
        BlockFirst(builder.Text(), parser.curpos, block, rest);
        RunAppend(p, block, rest);
        NoEmptySubAppend(Run(p, block).1, Run(Run(p, block).0, rest).1);
        ok := parser.ProcessData(block, builder);
        if !ok {
          return;
        }
        ok := ForEachBlock(blocks[1..]);
        Chain(old(builder.queued), Run(p, block).1, Run(Run(p, block).0, rest).1);
      } else {
        assert builder.queued + [] == builder.queued;
      }
    }

    static lemma BlockFirst(text: seq<byte>, pos: nat, block: seq<byte>, rest: seq<byte>)
      requires pos <= |text| && text[pos..] == block + rest
      ensures pos + |block| <= |text|
      ensures text[pos..pos + |block|] == block && text[pos + |block|..] == rest
    {
      assert text[pos..pos + |block|] == text[pos..][..|block|];
      assert text[pos + |block|..] == text[pos..][|block|..];
    }

    /** A chunk with bytes: parse it, pass on what is complete, and keep no more of the buffer than is needed. */
    method ParseIncoming(unique: bool) returns (ok: bool)
      requires Linked() && builder.queued == []
      requires incoming.Some? && Acceptable(incoming.value) && Bytes(incoming.value) != []
      modifies parser, parser.cookedbuf, builder
      ensures ok <==> NoEmptySub(Run(old(parser.abs), Bytes(incoming.value)).1)
      ensures ok ==> Linked() && (parser.cookedbuf == old(parser.cookedbuf) || fresh(parser.cookedbuf))
      ensures ok ==> parser.abs == ChunkStep(old(parser.abs), Bytes(incoming.value)).0
      ensures ok ==> builder.queued == ChunkStep(old(parser.abs), Bytes(incoming.value)).1
    {
      ghost var p, bytes := parser.abs, Bytes(incoming.value);
      ghost var text := builder.Text();
      ok := ReadIncoming(unique);
      if !ok {
        return;
      }
      assert (text + bytes)[|text|..] == bytes;
      TrimBuffer();
    }

    /** Gives up an overlong suboption, or drops the part of the buffer that is completely parsed. */
    method TrimBuffer()
      requires parser.Agrees(builder, parser.curpos) && parser.curpos == builder.curlen && builder.curchunk.Some?
      requires Settled(parser.abs)
      requires incoming.Some? && WellFormed(incoming.value) && Bytes(incoming.value) != []
      requires |Bytes(incoming.value)| <= builder.curlen
      requires builder.Text()[builder.curlen - |Bytes(incoming.value)|..] == Bytes(incoming.value)
      modifies parser`regionbegin, parser`regionend, parser`curpos, parser`state, parser`abs, builder
      ensures Linked()
      ensures old(TailOf(parser.abs.mode)) <= MAX_SUBOPTSIZE ==>
                parser.abs == old(parser.abs) && builder.queued == old(builder.queued)
      ensures old(TailOf(parser.abs.mode)) > MAX_SUBOPTSIZE ==>
                parser.abs == TelnetRuns.Reset(old(parser.abs)).0
                && builder.queued == old(builder.queued) + TelnetRuns.Reset(old(parser.abs)).1
    {
      LengthIsExact(incoming.value);
      var inlen := Length(incoming.value);
      var regionbegin := parser.regionbegin;
      var totallen := builder.curlen;
      TailIsRegion(parser.abs);
      if totallen - regionbegin > MAX_SUBOPTSIZE {
        parser.Reset(builder);
        DropBuffer();
        // A suboption has just been queued, so there is something to hand out.
        assert builder.chunks != [];
      } else if regionbegin == totallen {
        DropBuffer();
      } else if regionbegin != 0 && totallen - regionbegin <= inlen {
        KeepLast(inlen);
      }
    }

    /** Keeps only the incoming chunk as the buffer, because the unparsed region lies in it. */
    method KeepLast(inlen: uint32)
      requires parser.Agrees(builder, parser.curpos) && parser.curpos == builder.curlen
      requires incoming.Some? && WellFormed(incoming.value) && inlen == |Bytes(incoming.value)| > 0
      requires inlen <= builder.curlen && builder.curlen - parser.regionbegin <= inlen
      requires builder.Text()[builder.curlen - inlen..] == Bytes(incoming.value)
      modifies parser`regionbegin, parser`curpos, builder`curchunk, builder`curlen
      ensures parser.Agrees(builder, parser.curpos) && parser.curpos == builder.curlen == inlen
      ensures builder.curlen - parser.regionbegin == old(builder.curlen - parser.regionbegin)
    {
      RegionInLast(builder.Text(), parser.regionbegin, builder.curlen - inlen);
      parser.DropBytes(builder.curlen - inlen);
      builder.SetIncoming(incoming.value, inlen);
    }

    static lemma RegionInLast(text: seq<byte>, begin: nat, cut: nat)
      requires cut <= begin <= |text|
      ensures text[cut..][begin - cut..] == text[begin..]
    {
    }

    /** One step of the stream processor: parse if nothing is queued, then make the first queued token outgoing. */
    method ProcessIncoming(unique: bool) returns (ok: bool)
      requires AllRepresent(handed, delivered)
      requires Linked() && incoming.Some? && !outgoingReady
      requires ChunkRun(START, fed) == (parser.abs, delivered + builder.queued)
      requires builder.queued == [] ==> Acceptable(incoming.value)
      modifies this, parser, parser.cookedbuf, builder
      ensures ok <==> old(builder.queued) != [] || old(HasNoEmptySub(incoming.value))
      ensures ok ==> Valid() && (parser.cookedbuf == old(parser.cookedbuf) || fresh(parser.cookedbuf))
      ensures ok ==> old(handed) <= handed
      ensures ok ==> fed == old(fed) + if old(builder.queued) == [] then [old(Bytes(incoming.value))] else []
      ensures ok ==> delivered + builder.queued == ChunkRun(START, fed).1
      ensures ok && incoming.Some? ==> outgoingReady && incoming == old(incoming)
      ensures ok && outgoingReady ==> |delivered| == |old(delivered)| + 1 && old(delivered) <= delivered
      ensures ok && !outgoingReady ==> delivered == old(delivered) && outgoing == old(outgoing)
    {
      ok := true;
      if builder.chunks == [] {
        ok := TakeChunk(unique);
        if !ok {
          return;
        }
      }
      HandOut();
    }

    /** Flushes or parses the incoming chunk. */
    method TakeChunk(unique: bool) returns (ok: bool)
      requires Linked() && incoming.Some? && builder.queued == [] && Acceptable(incoming.value)
      requires ChunkRun(START, fed) == (parser.abs, delivered + builder.queued)
      modifies this`fed, parser, parser.cookedbuf, builder
      ensures ok <==> old(HasNoEmptySub(incoming.value))
      ensures ok ==> Linked() && (parser.cookedbuf == old(parser.cookedbuf) || fresh(parser.cookedbuf))
      ensures ok ==> fed == old(fed) + [Bytes(incoming.value)]
      ensures ok ==> ChunkRun(START, fed) == (parser.abs, delivered + builder.queued)
    {
      ghost var bytes := Bytes(incoming.value);
      ParsesExactly(parser.abs, bytes);
      LengthIsExact(incoming.value);
      ChunkRunSnoc(START, fed, bytes);
      assert delivered + [] == delivered;
      if Length(incoming.value) <= 0 {
        FlushIncoming();
        ok := true;
      } else {
        ok := ParseIncoming(unique);
        if !ok {
          return;
        }
      }
      fed := fed + [bytes];
    }

    method HandOut()
      requires AllRepresent(handed, delivered)
      requires Linked() && incoming.Some? && !outgoingReady
      requires ChunkRun(START, fed) == (parser.abs, delivered + builder.queued)
      modifies this, builder`chunks, builder`queued
      ensures Valid() && fed == old(fed) && old(handed) <= handed
      ensures delivered + builder.queued == old(delivered + builder.queued)
      ensures incoming.Some? ==> outgoingReady && incoming == old(incoming)
      ensures outgoingReady ==> |delivered| == |old(delivered)| + 1 && old(delivered) <= delivered
      ensures !outgoingReady ==> delivered == old(delivered) && outgoing == old(outgoing)
    {
      if builder.chunks != [] {
        HandOutFirst();
      }
      if builder.chunks == [] {
        incoming := None;
      }
    }

    method HandOutFirst()
      requires AllRepresent(handed, delivered) && Linked() && builder.chunks != []
      modifies this`outgoing, this`outgoingReady, this`handed, this`delivered, builder`chunks, builder`queued
      ensures Linked() && AllRepresent(handed, delivered)
      ensures delivered == old(delivered) + [old(builder.queued)[0]]
      ensures delivered + builder.queued == old(delivered + builder.queued)
      ensures outgoingReady && outgoing.Some? && handed == old(handed) + [outgoing.value] && WellFormed(outgoing.value)
    {
      ghost var first, rest := builder.queued[0], builder.queued[1..];
      assert builder.queued == [first] + rest;
      Chain(delivered, [first], rest);
      var c := builder.GetFromQueue();
      outgoing := Some(c);
      outgoingReady := true;
      handed, delivered := handed + [c], delivered + [first];
    }

    /** Hands in a chunk. If nothing is waiting to be read it is processed at once. `ok` says that the builder has
        not aborted. */
    method WriteTo(chnk: Chunk, unique: bool) returns (ok: bool)
      requires Valid() && CanWriteTo() && Acceptable(chnk)
      modifies this, parser, parser.cookedbuf, builder
      ensures ok <==> old(outgoingReady || HasNoEmptySub(chnk))
      ensures ok ==> Valid() && (parser.cookedbuf == old(parser.cookedbuf) || fresh(parser.cookedbuf))
      ensures ok ==> fed == old(fed) + if old(outgoingReady) then [] else [Bytes(chnk)]
      ensures old(outgoingReady) ==> incoming == Some(chnk) && outgoing == old(outgoing) && delivered == old(delivered)
      ensures ok ==> delivered + builder.queued == ChunkRun(START, fed).1 && old(delivered) <= delivered
      ensures ok ==> old(handed) <= handed
    {
      incoming := Some(chnk);
      ok := true;
      if !outgoingReady {
        ok := ProcessIncoming(unique);
      }
    }

    /** The chunk is the last one made the outgoing one, and it represents its token. */
    static ghost predicate IsLast(c: Chunk, cs: seq<Chunk>, ts: seq<Token>) {
      cs != [] && |cs| == |ts| && c == cs[|cs| - 1] && Represents(c, ts[|ts| - 1]) && WellFormed(c)
    }

    /** Takes out a token, and works on until the next one is ready or the incoming chunk is used up. */
    method ReadFrom(unique: bool) returns (c: Chunk, ok: bool)
      requires Valid() && CanReadFrom()
      modifies this, parser, parser.cookedbuf, builder
      ensures IsLast(c, old(handed), old(delivered))
      ensures ok <==> old(incoming.None? || builder.queued != [] || HasNoEmptySub(incoming.value))
      ensures ok ==> Valid() && (parser.cookedbuf == old(parser.cookedbuf) || fresh(parser.cookedbuf))
      ensures ok ==> old(handed) <= handed
      ensures ok ==> old(delivered) <= delivered && |delivered| <= |old(delivered)| + 1
      ensures ok ==> (outgoingReady <==> |delivered| == |old(delivered)| + 1)
      ensures ok ==> fed == old(fed) + old(Pending())
      ensures ok ==> delivered + builder.queued == ChunkRun(START, fed).1
    {
      c := TakeOut();
      ok := WorkOn(unique);
    }

    /** The incoming chunk, if it is the next thing to be parsed. */
    ghost function Pending(): seq<seq<byte>>
      reads this, builder
    {
      if incoming.Some? && builder.queued == [] then [Bytes(incoming.value)] else []
    }

    method TakeOut() returns (c: Chunk)
      requires Valid() && CanReadFrom()
      modifies this`outgoing, this`outgoingReady
      ensures !outgoingReady && Linked() && AllRepresent(handed, delivered)
      ensures ChunkRun(START, fed) == (parser.abs, delivered + builder.queued)
      ensures incoming.None? ==> builder.queued == []
      ensures IsLast(c, handed, delivered)
      ensures builder.queued == [] ==> incoming.None? || Acceptable(incoming.value)
    {
      c := outgoing.value;
      outgoing := None;
      outgoingReady := false;
    }

    /** Goes on with the incoming chunk, if there is one. */
    method WorkOn(unique: bool) returns (ok: bool)
      requires AllRepresent(handed, delivered)
      requires Linked() && !outgoingReady && ChunkRun(START, fed) == (parser.abs, delivered + builder.queued)
      requires builder.queued == [] ==> incoming.None? || Acceptable(incoming.value)
      requires incoming.None? ==> builder.queued == []
      modifies this, parser, parser.cookedbuf, builder
      ensures ok <==> old(incoming.None? || builder.queued != [] || HasNoEmptySub(incoming.value))
      ensures ok ==> Valid() && (parser.cookedbuf == old(parser.cookedbuf) || fresh(parser.cookedbuf))
      ensures ok ==> old(handed) <= handed
      ensures ok ==> fed == old(fed) + old(Pending())
      ensures ok ==> delivered + builder.queued == ChunkRun(START, fed).1
      ensures ok && outgoingReady ==> |delivered| == |old(delivered)| + 1 && old(delivered) <= delivered
      ensures ok && !outgoingReady ==> delivered == old(delivered)
    {
      ok := true;
      if incoming.Some? {
        ok := ProcessIncoming(unique);
      }
    }

    method ReadIncoming(unique: bool) returns (ok: bool)
      requires Linked() && builder.queued == []
      requires incoming.Some? && Acceptable(incoming.value) && Bytes(incoming.value) != []
      modifies parser, parser.cookedbuf, builder
      ensures ok <==> NoEmptySub(Run(old(parser.abs), Bytes(incoming.value)).1)
      ensures ok ==> parser.cookedbuf == old(parser.cookedbuf) || fresh(parser.cookedbuf)
      ensures ok ==> parser.Agrees(builder, parser.curpos) && parser.curpos == builder.curlen && builder.curchunk.Some?
      ensures ok ==> builder.Text() == old(builder.Text()) + Bytes(incoming.value)
      ensures ok ==> parser.abs == TelnetRuns.EndOfChunk(Run(old(parser.abs), Bytes(incoming.value)).0).0
      ensures ok ==> builder.queued == Run(old(parser.abs), Bytes(incoming.value)).1
                                       + TelnetRuns.EndOfChunk(Run(old(parser.abs), Bytes(incoming.value)).0).1
    {
      TakeIn(unique);
      ok := VisitIncoming(incoming.value);
      if ok {
        parser.EndOfChunk(builder);
      }
    }

    /** Has the blocks of the incoming chunk parsed, which lie at the end of the buffer. */
    method VisitIncoming(chunk: Chunk) returns (ok: bool)
      requires parser.Agrees(builder, parser.curpos) && builder.queued == [] && WellFormed(chunk)
      requires parser.curpos + |Bytes(chunk)| == builder.curlen
      requires builder.Text()[parser.curpos..] == Bytes(chunk)
      modifies parser, parser.cookedbuf, builder`chunks, builder`queued
      ensures ok <==> NoEmptySub(Run(old(parser.abs), Bytes(chunk)).1)
      ensures ok ==> parser.cookedbuf == old(parser.cookedbuf) || fresh(parser.cookedbuf)
      ensures ok ==> parser.Agrees(builder, parser.curpos) && parser.curpos == builder.curlen
      ensures ok ==> (parser.abs, builder.queued) == Run(old(parser.abs), Bytes(chunk))
      ensures ok ==> builder.curchunk == old(builder.curchunk)
    {
      var blocks := BlocksOf(chunk);
      ok := ForEachBlock(blocks);
      EmptyFirst(Run(old(parser.abs), Bytes(chunk)).1);
    }

    /** The blocks the visitor of the chunker is given. */
    static method BlocksOf(chunk: Chunk) returns (blocks: seq<seq<byte>>)
      requires WellFormed(chunk)
      ensures Concat(blocks) == Bytes(chunk) && NoneEmpty(blocks)
    {
      var visitor := new UseTrackingVisitor(true);
      visitor.StartVisit(chunk);
      blocks := visitor.blocks;
    }

    static lemma EmptyFirst(ts: seq<Token>)
      ensures [] + ts == ts
    {
    }

    /** Appends the incoming chunk to the unparsed buffer. */
    method TakeIn(unique: bool)
      requires Linked()
      requires incoming.Some? && Acceptable(incoming.value) && Bytes(incoming.value) != []
      modifies builder`curchunk, builder`curlen
      ensures parser.Agrees(builder, parser.curpos) && builder.curchunk.Some?
      ensures parser.curpos + |Bytes(incoming.value)| == builder.curlen
      ensures builder.Text() == old(builder.Text()) + Bytes(incoming.value)
      ensures builder.Text()[parser.curpos..] == Bytes(incoming.value)
    {
      ghost var text, bytes := builder.Text(), Bytes(incoming.value);
      builder.AddIncoming(incoming.value, unique);
      assert (text + bytes)[parser.regionbegin..|text|] == text[parser.regionbegin..|text|];
      assert (text + bytes)[|text|..] == bytes;
    }

    static lemma ParsesExactly(p: State, bytes: seq<byte>)
      requires Settled(p)
      ensures NoEmptySub(Run(p, bytes).1) <==> AllHaveData(Scan(Held(p.mode) + bytes))
    {
      if bytes == [] {
        HeldIsIncomplete(p.mode);
        assert Held(p.mode) + [] == Held(p.mode);
      } else {
        ParsesWithoutEmptySubExactly(p, bytes);
        OnlyTheRunMatters(p, bytes);
      }
    }

    static lemma OnlyTheRunMatters(p: State, bytes: seq<byte>)
      requires bytes != []
      ensures NoEmptySub(ChunkStep(p, bytes).1) <==> NoEmptySub(Run(p, bytes).1)
    {
      var (q, ts) := Run(p, bytes);
      var (r, us) := TelnetRuns.EndOfChunk(q);
      NoEmptySubAppend(ts, us);
      if TailOf(r.mode) > MAX_SUBOPTSIZE {
        NoEmptySubAppend(ts + us, TelnetRuns.Reset(r).1);
      }
    }
  }

  /** At every moment, under every interleaving of writes and reads, with flushes and with suboptions given up: the
      bytes of the chunks handed out, of the chunks still queued, of the header of an open suboption and of the
      unparsed part of the buffer are, in this order, what the run keeps of the bytes parsed so far. */
  lemma NothingIsLost(t: TelnetChunker)
    requires t.Valid()
    ensures BytesOfAll(t.handed) + BytesOfAll(t.builder.chunks) + Header(t.parser.abs.mode)
              + t.builder.Text()[t.parser.regionbegin..t.parser.curpos]
         == KeptThrough([], t.fed)
  {
    var m := t.parser.abs.mode;
    EveryRunConserves(t.fed);
    AllRepresentSpells(t.handed, t.delivered);
    AllRepresentSpells(t.builder.chunks, t.builder.queued);
    SpelledAllAppend(t.delivered, t.builder.queued);
    HeldIsHeaderAndRegion(t.parser.abs);
    Chain(BytesOfAll(t.handed) + BytesOfAll(t.builder.chunks), Header(m), RegionOf(t.parser.abs));
  }

  /** The start of an open suboption, which the parser keeps in its state and not in the buffer. */
  function Header(m: Mode): seq<byte> {
    if Inside(m) then [IAC, SB, m.subtype] else []
  }

  lemma HeldIsHeaderAndRegion(p: State)
    requires Settled(p)
    ensures Held(p.mode) == Header(p.mode) + RegionOf(p)
  {
    if p.mode.SuboptEscape? {
      Chain([IAC, SB, p.mode.subtype], p.mode.raw, [IAC]);
    }
  }

  /** When nothing is left to read, and no chunk but the last one ended inside an overlong suboption, the tokens
      handed out are, element for element, what the grammar reads in the bytes written, whatever the structure and
      the borders of the chunks that carried them. */
  lemma NothingToReadMeansAllRead(t: TelnetChunker)
    requires t.Valid() && !t.CanReadFrom() && NoneEmpty(t.fed) && BordersFit(START, t.fed)
    ensures Atoms(t.delivered) == Scan(Concat(t.fed)) + GivenUp(START, Concat(t.fed))
  {
    assert t.delivered + [] == t.delivered;
    CutRunAtoms(START, t.fed);
    assert Held(Normal) + Concat(t.fed) == Concat(t.fed);
  }

  function CountIAC(s: seq<byte>): (n: nat)
    ensures n == |Doubled(s)| - |s|
  {
    if s == [] then 0 else (if s[0] == IAC then 1 else 0) + CountIAC(s[1..])
  }

  lemma {:induction false} DoubledSnoc(s: seq<byte>, b: byte)
    ensures Doubled(s + [b]) == Doubled(s) + Escaped(b)
    ensures CountIAC(s + [b]) == CountIAC(s) + if b == IAC then 1 else 0
  {
    if s == [] {
      assert s + [b] == [b];
      assert Doubled([b]) == Escaped(b) + Doubled([b][1..]);
    } else {
      assert (s + [b])[1..] == s[1..] + [b];
      DoubledSnoc(s[1..], b);
      Chain(Escaped(s[0]), Doubled(s[1..]), Escaped(b));
    }
  }

  /** The raw form of cooked suboption data; a buffer without IAC is shared, not copied. */
  method CookedToRaw(cooked: array<byte>) returns (raw: array<byte>)
    ensures raw[..] == Doubled(cooked[..])
    ensures raw == cooked || fresh(raw)
  {
    var countIAC := 0;
    for i := 0 to cooked.Length
      invariant countIAC == CountIAC(cooked[..i])
    {
      assert cooked[..i + 1] == cooked[..i] + [cooked[i]];
      DoubledSnoc(cooked[..i], cooked[i]);
      if cooked[i] == IAC {
        countIAC := countIAC + 1;
      }
    }
    assert cooked[..cooked.Length] == cooked[..];
    if countIAC == 0 {
      DoubledWithoutIAC(cooked[..]);
      return cooked;
    }
    raw := new byte[cooked.Length + countIAC];
    CopyDoubled(cooked, raw);
  }

  /** The copying loop. */
  method CopyDoubled(cooked: array<byte>, raw: array<byte>)
    requires raw != cooked && raw.Length == |Doubled(cooked[..])|
    modifies raw
    ensures raw[..] == Doubled(cooked[..])
  {
    var o := 0;
    for i := 0 to cooked.Length
      invariant o == |Doubled(cooked[..i])| <= raw.Length
      invariant raw[..o] == Doubled(cooked[..i])
    {
      RoomForOne(cooked[..], i);
      assert cooked[..i + 1] == cooked[..][..i + 1] && cooked[..i] == cooked[..][..i];
      var curchar := cooked[i];
      if curchar == IAC {
        raw[o] := curchar;
        raw[o + 1] := curchar;
        o := o + 2;
      } else {
        raw[o] := curchar;
        o := o + 1;
      }
    }
    assert cooked[..cooked.Length] == cooked[..] && raw[..raw.Length] == raw[..];
  }

  lemma RoomForOne(s: seq<byte>, i: nat)
    requires i < |s|
    ensures Doubled(s[..i + 1]) == Doubled(s[..i]) + Escaped(s[i])
    ensures |Doubled(s[..i + 1])| <= |Doubled(s)|
  {
    assert s[..i + 1] == s[..i] + [s[i]];
    DoubledSnoc(s[..i], s[i]);
    assert s == s[..i + 1] + s[i + 1..];
    DoubledIsLonger(s[..i + 1], s[i + 1..]);
  }

  lemma {:induction false} DoubledWithoutIAC(s: seq<byte>)
    requires CountIAC(s) == 0
    ensures Doubled(s) == s
  {
    if s != [] {
      DoubledWithoutIAC(s[1..]);
    }
  }

  lemma {:induction false} DoubledIsLonger(a: seq<byte>, b: seq<byte>)
    ensures |Doubled(a + b)| == |Doubled(a)| + |Doubled(b)|
  {
    if a == [] {
      assert a + b == b;
    } else {
      assert (a + b)[1..] == a[1..] + b;
      DoubledIsLonger(a[1..], b);
    }
  }
}
