/** Telnet elements as bytes on the wire: nothing is lost on the way in, and what is sent comes back. */
module TelnetWire {
  import opened Basics
  import opened Chunks
  import opened TelnetStream
  import opened TelnetRuns

  /** The bytes of a token, as its chunk spells them. */
  function Spelled(t: Token): seq<byte> {
    match t
    case Data(bytes) => bytes
    case Command(command) => [IAC, command]
    case Negotiation(request, option) => [IAC, request, option]
    case Sub(subtype, raw, _) => [IAC, SB, subtype] + raw + [IAC, SE]
    case Flush => []
  }

  function SpelledAll(ts: seq<Token>): seq<byte> {
    if ts == [] then [] else Spelled(ts[0]) + SpelledAll(ts[1..])
  }

  lemma {:induction false} SpelledAllAppend(a: seq<Token>, b: seq<Token>)
    ensures SpelledAll(a + b) == SpelledAll(a) + SpelledAll(b)
  {
    if a == [] {
      assert a + b == b;
    } else {
      assert (a + b)[1..] == a[1..] + b;
      SpelledAllAppend(a[1..], b);
      Chain(Spelled(a[0]), SpelledAll(a[1..]), SpelledAll(b));
    }
  }

  // ----- Conservation -----

  /** A byte string without what the tokenizer may drop: the second byte of each doubled IAC in data, and
      each start of an extended suboption, IAC SB 255. Everything else stays, unfinished elements too. */
  function Kept(s: seq<byte>): seq<byte>
    decreases |s|
  {
    if s == [] then []
    else if s[0] != IAC then [s[0]] + Kept(s[1..])
    else if |s| < 2 then s
    else if s[1] == IAC then [IAC] + Kept(s[2..])
    else if s[1] == SB then
      if |s| < 3 then s
      else if s[2] == 255 then Kept(s[3..])
      else
        var end := FindEnd(s[3..]);
        if end < 0 then s else s[..3 + end + 2] + Kept(s[3 + end + 2..])
    else if IsNegotiation(s[1]) then
      if |s| < 3 then s else s[..3] + Kept(s[3..])
    else s[..2] + Kept(s[2..])
  }

  function SpelledAtom(a: Atom): seq<byte> {
    match a
    case Octet(b) => [b]
    case Control(t) => Spelled(t)
  }

  function SpelledAtoms(atoms: seq<Atom>): seq<byte> {
    if atoms == [] then [] else SpelledAtom(atoms[0]) + SpelledAtoms(atoms[1..])
  }

  lemma KeptPair(ch: byte, rest: seq<byte>)
    requires ch != SB && !IsNegotiation(ch)
    ensures Kept([IAC, ch] + rest) == SpelledAtoms(Learned(State([], Escape), ch)) + Kept(rest)
  {
    var s := [IAC, ch] + rest;
    assert s[2..] == rest && s[..2] == [IAC, ch];
    var learned := Learned(State([], Escape), ch);
    assert SpelledAtoms(learned) == SpelledAtom(learned[0]) + SpelledAtoms(learned[1..]);
    if |learned| == 2 {
      assert SpelledAtoms(learned[1..]) == SpelledAtom(learned[1]) + SpelledAtoms(learned[1..][1..]);
    }
  }

  lemma KeptNegotiation(request: byte, option: byte, rest: seq<byte>)
    requires IsNegotiation(request)
    ensures Kept([IAC, request, option] + rest) == [IAC, request, option] + Kept(rest)
  {
    assert ([IAC, request, option] + rest)[3..] == rest;
  }

  lemma KeptSuboption(subtype: byte, raw: seq<byte>, rest: seq<byte>)
    requires subtype != 255 && Closed(raw)
    ensures Kept([IAC, SB, subtype] + raw + [IAC, SE] + rest) == [IAC, SB, subtype] + raw + [IAC, SE] + Kept(rest)
  {
    var s := [IAC, SB, subtype] + raw + [IAC, SE] + rest;
    FindEndOfClosed(raw, rest);
    assert s[3..] == raw + [IAC, SE] + rest;
    assert s[..3 + |raw| + 2] == [IAC, SB, subtype] + raw + [IAC, SE];
    assert s[3 + |raw| + 2..] == rest;
  }

  lemma KeptExtended(rest: seq<byte>)
    ensures Kept([IAC, SB, 255] + rest) == Kept(rest)
  {
    assert ([IAC, SB, 255] + rest)[3..] == rest;
  }

  lemma SpelledOne(a: Atom)
    ensures SpelledAtoms([a]) == SpelledAtom(a)
  {
    assert SpelledAtoms([a]) == SpelledAtom(a) + SpelledAtoms([]);
  }

  lemma KeptLearns(p: State, ch: byte, rest: seq<byte>)
    requires Consistent(p.mode)
    ensures Kept(Held(p.mode) + [ch] + rest)
         == SpelledAtoms(Learned(p, ch)) + Kept(Held(Feed(p, ch).0.mode) + rest)
  {
    var s := Held(p.mode) + [ch] + rest;
    var after := Held(Feed(p, ch).0.mode) + rest;
    assert Held(Normal) + rest == rest;
    if Feed(p, ch).0.mode != Normal {
      assert after == s;
    } else {
      match p.mode
      case Normal =>
        SpelledOne(Octet(ch));
        assert s[1..] == rest;
      case Escape =>
        assert s == [IAC, ch] + rest;
        KeptPair(ch, rest);
      case SubNeg(request) =>
        SpelledOne(Control(Negotiation(request, ch)));
        assert s == [IAC, request, ch] + rest;
        KeptNegotiation(request, ch, rest);
      case SuboptNum =>
        assert s == [IAC, SB, 255] + rest;
        KeptExtended(rest);
      case SuboptEscape(subtype, raw) =>
        SpelledOne(Control(Sub(subtype, raw, Cook(raw))));
        assert s == [IAC, SB, subtype] + raw + [IAC, SE] + rest;
        KeptSuboption(subtype, raw, rest);
    }
  }

  lemma {:induction false} SpelledAtomsAppend(a: seq<Atom>, b: seq<Atom>)
    ensures SpelledAtoms(a + b) == SpelledAtoms(a) + SpelledAtoms(b)
  {
    if a == [] {
      assert a + b == b;
    } else {
      assert (a + b)[1..] == a[1..] + b;
      SpelledAtomsAppend(a[1..], b);
      Chain(SpelledAtom(a[0]), SpelledAtoms(a[1..]), SpelledAtoms(b));
    }
  }

  lemma {:induction false} SpelledOctets(s: seq<byte>)
    ensures SpelledAtoms(Octets(s)) == s
  {
    if s != [] {
      assert Octets(s)[1..] == Octets(s[1..]);
      SpelledOctets(s[1..]);
    }
  }

  lemma {:induction false} SpelledAllIsByAtoms(ts: seq<Token>)
    ensures SpelledAll(ts) == SpelledAtoms(Atoms(ts))
  {
    if ts != [] {
      SpelledAllIsByAtoms(ts[1..]);
      SpelledAtomsAppend(AtomsOf(ts[0]), Atoms(ts[1..]));
      if ts[0].Data? {
        SpelledOctets(ts[0].bytes);
      } else {
        SpelledOne(Control(ts[0]));
      }
    }
  }

  function KeptFrom(p: State, s: seq<byte>): seq<byte> {
    Kept(Held(p.mode) + s)
  }

  function ScanFrom(p: State, s: seq<byte>): seq<Atom> {
    Scan(Held(p.mode) + s)
  }

  lemma FromStep(p: State, s: seq<byte>)
    requires Proper(p) && s != []
    ensures Proper(Feed(p, s[0]).0)
    ensures KeptFrom(p, s) == SpelledAtoms(Learned(p, s[0])) + KeptFrom(Feed(p, s[0]).0, s[1..])
    ensures ScanFrom(p, s) == Learned(p, s[0]) + ScanFrom(Feed(p, s[0]).0, s[1..])
  {
    FeedConsistent(p, s[0]);
    ScanLearns(p, s[0], s[1..]);
    KeptLearns(p, s[0], s[1..]);
    HeadAndTail(Held(p.mode), s);
  }

  lemma FromNothing(p: State)
    requires Proper(p)
    ensures KeptFrom(p, []) == Held(p.mode) && ScanFrom(p, []) == []
  {
    assert Held(p.mode) + [] == Held(p.mode);
    HeldIsIncomplete(p.mode);
    HeldIsKept(p.mode);
  }

  /** The grammar accounts for every kept byte: it is in an element or still held. */
  lemma {:induction false} KeptIsSpelled(p: State, s: seq<byte>)
    requires Proper(p)
    ensures KeptFrom(p, s) == SpelledAtoms(ScanFrom(p, s)) + Held(Run(p, s).0.mode)
    decreases |s|
  {
    if s == [] {
      FromNothing(p);
    } else {
      FromStep(p, s);
      var (q, ts) := Feed(p, s[0]);
      var learned, later := Learned(p, s[0]), ScanFrom(q, s[1..]);
      KeptIsSpelled(q, s[1..]);
      SpelledAtomsAppend(learned, later);
      Chain(SpelledAtoms(learned), SpelledAtoms(later), Held(Run(q, s[1..]).0.mode));
    }
  }

  lemma HeldIsKept(m: Mode)
    requires Consistent(m)
    ensures Kept(Held(m)) == Held(m)
  {
    match m
    case InSubopt(_, raw) =>
      assert Held(m)[3..] == raw;
      FindEndOfClosed(raw, []);
    case SuboptEscape(_, raw) =>
      assert Held(m)[3..] == raw + [IAC];
      FindEndOfClosed(raw, []);
    case _ =>
  }

  /** Inside a chunk: tokens, data at hand and the held bytes spell what was there before and what came in. */
  lemma RunConserves(p: State, s: seq<byte>)
    requires Proper(p)
    ensures SpelledAll(Run(p, s).1) + Run(p, s).0.data + Held(Run(p, s).0.mode) == p.data + Kept(Held(p.mode) + s)
  {
    var (q, ts) := Run(p, s);
    RunScans(p, s);
    KeptIsSpelled(p, s);
    SpelledAtomsAppend(Octets(p.data), Scan(Held(p.mode) + s));
    SpelledAtomsAppend(Atoms(ts), Octets(q.data));
    SpelledOctets(p.data);
    SpelledOctets(q.data);
    SpelledAllIsByAtoms(ts);
    Chain(p.data, SpelledAtoms(Scan(Held(p.mode) + s)), Held(q.mode));
  }

  /** Giving up closes the suboption that was open and loses nothing of it; a last 255 that is not paired is not part
      of the cooked data. */
  lemma GivingUpCloses(q: State)
    requires Inside(q.mode)
    ensures SpelledAll(Reset(q).1) == Held(q.mode) + [IAC, SE]
    ensures Reset(q).1[0].cooked == Cook(q.mode.raw)
    ensures Reset(q).1[0].raw == q.mode.raw + if q.mode.InSubopt? then [] else [255]
  {
    assert SpelledAll(Reset(q).1) == Spelled(Reset(q).1[0]) + SpelledAll([]);
  }

  /** One chunk: what comes out and what is still held spell the kept bytes of what was held and what came in.
      If an overlong suboption was given up, its missing end has been added. */
  lemma ChunkConserves(p: State, chunk: seq<byte>)
    requires Settled(p) && chunk != []
    ensures SpelledAll(ChunkStep(p, chunk).1) + Held(ChunkStep(p, chunk).0.mode)
         == Kept(Held(p.mode) + chunk) + if TailOf(Run(p, chunk).0.mode) > MAX_SUBOPTSIZE then [IAC, SE] else []
  {
    var (q, ts) := Run(p, chunk);
    var us := EndOfChunk(q).1;
    EndOfChunkConserves(p, chunk);
    if TailOf(q.mode) > MAX_SUBOPTSIZE {
      ResetIgnoresData(q);
      SpelledAllAppend(ts + us, Reset(q).1);
      GivingUpCloses(q);
      Chain(SpelledAll(ts + us), Held(q.mode), [IAC, SE]);
    }
  }

  lemma EndOfChunkConserves(p: State, chunk: seq<byte>)
    requires Settled(p)
    ensures SpelledAll(Run(p, chunk).1 + EndOfChunk(Run(p, chunk).0).1) + Held(Run(p, chunk).0.mode)
         == Kept(Held(p.mode) + chunk)
  {
    var (q, ts) := Run(p, chunk);
    RunScans(p, chunk);
    RunConserves(p, chunk);
    SpelledAllAppend(ts, EndOfChunk(q).1);
    EndOfChunkSpells(q);
  }

  lemma EndOfChunkSpells(q: State)
    requires Proper(q)
    ensures SpelledAll(EndOfChunk(q).1) == q.data
  {
    if q.data != [] {
      assert SpelledAll([Data(q.data)]) == q.data + SpelledAll([]);
    }
  }

  /** A flush: exactly what becomes of an unfinished element. */
  lemma FlushGivesUp(p: State)
    requires Settled(p)
    ensures ChunkStep(p, []).0 == START <==> !(p.mode.InSubopt? && p.mode.raw == [])
    ensures SpelledAll(ChunkStep(p, []).1)
         == if Inside(p.mode) && TailOf(p.mode) > 0 then Held(p.mode) + [IAC, SE] else []
  {
    var (q, ts) := ChunkStep(p, []);
    if TailOf(p.mode) > 0 {
      SpelledAllAppend(Reset(p).1, [Flush]);
      if Inside(p.mode) {
        GivingUpCloses(p);
      }
    }
    assert SpelledAll([Flush]) == Spelled(Flush) + SpelledAll([]);
    assert [] + [Flush] == [Flush];
  }

  /** What a run keeps of its input, chunk by chunk. `begun` is what has been read since the start, or since the
      last time an element was given up. A suboption that is given up, because it is overlong at the end of a
      chunk or unfinished at a flush, is kept, with the end that it lacks; a flush drops any other unfinished
      element. */
  function KeptThrough(begun: seq<byte>, chunks: seq<seq<byte>>): seq<byte>
    decreases |chunks|
  {
    if chunks == [] then Kept(begun)
    else
      var all, later := begun + chunks[0], chunks[1..];
      var mode := Run(START, all).0.mode;
      if TailOf(mode) <= (if chunks[0] == [] then 0 else MAX_SUBOPTSIZE) then KeptThrough(all, later)
      else (if Inside(mode) then Kept(all) + [IAC, SE] else Complete(all)) + KeptThrough([], later)
  }

  /** The kept bytes up to the element that is not finished yet. */
  function Complete(s: seq<byte>): seq<byte> {
    var n := |Kept(s)| - |Held(Run(START, s).0.mode)|;
    if n < 0 then [] else Kept(s)[..n]
  }

  lemma CompleteAndHeld(s: seq<byte>)
    ensures Kept(s) == Complete(s) + Held(Run(START, s).0.mode)
    ensures Proper(Run(START, s).0)
  {
    var q := Run(START, s).0;
    RunScans(START, s);
    RunConserves(START, s);
    assert Held(Normal) + s == s && [] + Kept(s) == Kept(s);
    var front := SpelledAll(Run(START, s).1) + q.data;
    assert front == Kept(s)[..|Kept(s)| - |Held(q.mode)|];
  }

  /** What is kept of a string can be found part by part. */
  lemma CompleteResumes(a: seq<byte>, b: seq<byte>)
    ensures Kept(a + b) == Complete(a) + Kept(Held(Run(START, a).0.mode) + b)
  {
    var q := Run(START, a).0;
    CompleteAndHeld(a);
    RunScans(START, a);
    KeptIsSpelled(START, a);
    KeptIsSpelled(START, a + b);
    KeptIsSpelled(q, b);
    ScanResumes(START, a, b);
    RunAppend(START, a, b);
    assert Held(Normal) + a == a && Held(Normal) + (a + b) == a + b;
    SpelledAtomsAppend(Scan(a), Scan(Held(q.mode) + b));
    Chain(SpelledAtoms(Scan(a)), SpelledAtoms(Scan(Held(q.mode) + b)), Held(Run(START, a + b).0.mode));
    assert SpelledAtoms(Scan(a)) == Complete(a);
  }

  /** Reading from a settled state goes through the same modes as reading all of it from the start. */
  ghost predicate Resumes(p: State, begun: seq<byte>) {
    Settled(p) && p.mode == Run(START, begun).0.mode
  }

  lemma ResumesOn(p: State, begun: seq<byte>, chunk: seq<byte>)
    requires Resumes(p, begun)
    ensures Run(p, chunk).0.mode == Run(START, begun + chunk).0.mode
  {
    RunAppend(START, begun, chunk);
    var q := Run(START, begun).0;
    RunMode(q, p.data, chunk);
    assert p == q.(data := p.data);
  }

  /** Any run from a settled state: the tokens and what is still held spell what the run keeps. */
  lemma {:induction false} RunKeeps(p: State, begun: seq<byte>, chunks: seq<seq<byte>>)
    requires Resumes(p, begun)
    ensures Complete(begun) + (SpelledAll(ChunkRun(p, chunks).1) + Held(ChunkRun(p, chunks).0.mode))
         == KeptThrough(begun, chunks)
    decreases |chunks|
  {
    CompleteAndHeld(begun);
    if chunks == [] {
      assert [] + Held(p.mode) == Held(p.mode);
    } else {
      var (q, ts) := ChunkStep(p, chunks[0]);
      var (r, us) := ChunkRun(q, chunks[1..]);
      var all := begun + chunks[0];
      var goesOn := TailOf(Run(START, all).0.mode) <= if chunks[0] == [] then 0 else MAX_SUBOPTSIZE;
      StepKeeps(p, begun, chunks[0]);
      SpelledAllAppend(ts, us);
      if goesOn {
        RunKeeps(q, all, chunks[1..]);
      } else {
        RunKeeps(q, [], chunks[1..]);
        assert Complete([]) == [];
      }
      Regrouped(Complete(begun), SpelledAll(ts), SpelledAll(us), Held(r.mode));
    }
  }

  lemma Regrouped(a: seq<byte>, b: seq<byte>, c: seq<byte>, d: seq<byte>)
    ensures a + ((b + c) + d) == (a + b) + (c + d)
    ensures [] + (c + d) == c + d
  {
  }

  lemma StepKeeps(p: State, begun: seq<byte>, chunk: seq<byte>)
    requires Resumes(p, begun)
    ensures var all := begun + chunk;
            var mode := Run(START, all).0.mode;
            var (q, ts) := ChunkStep(p, chunk);
            if TailOf(mode) <= (if chunk == [] then 0 else MAX_SUBOPTSIZE) then
              Resumes(q, all) && Complete(begun) + SpelledAll(ts) == Complete(all)
            else
              q == START &&
              Complete(begun) + SpelledAll(ts) == if Inside(mode) then Kept(all) + [IAC, SE] else Complete(all)
  {
    if chunk == [] {
      FlushKeeps(p, begun);
    } else {
      ChunkKeeps(p, begun, chunk);
    }
  }

  lemma FlushKeeps(p: State, begun: seq<byte>)
    requires Resumes(p, begun)
    ensures var (q, ts) := ChunkStep(p, []);
            var kept := Complete(begun) + SpelledAll(ts);
            if TailOf(p.mode) == 0 then q == p && kept == Complete(begun)
            else q == START && kept == if Inside(p.mode) then Kept(begun) + [IAC, SE] else Complete(begun)
    ensures begun + [] == begun
  {
    FlushGivesUp(p);
    CompleteAndHeld(begun);
    assert begun + [] == begun && Complete(begun) + [] == Complete(begun);
    Chain(Complete(begun), Held(p.mode), [IAC, SE]);
  }

  lemma ChunkKeeps(p: State, begun: seq<byte>, chunk: seq<byte>)
    requires Resumes(p, begun) && chunk != []
    ensures var all := begun + chunk;
            var (q, ts) := ChunkStep(p, chunk);
            if TailOf(Run(START, all).0.mode) <= MAX_SUBOPTSIZE then
              Resumes(q, all) && Complete(begun) + SpelledAll(ts) == Complete(all)
            else
              q == START && Inside(Run(START, all).0.mode) && Complete(begun) + SpelledAll(ts) == Kept(all) + [IAC, SE]
  {
    var all := begun + chunk;
    var (q, ts) := ChunkStep(p, chunk);
    ResumesOn(p, begun, chunk);
    ChunkStepSettled(p, chunk);
    ChunkConserves(p, chunk);
    CompleteResumes(begun, chunk);
    CompleteAndHeld(all);
    if TailOf(Run(p, chunk).0.mode) <= MAX_SUBOPTSIZE {
      CutMode(p, chunk, []);
      assert Kept(Held(p.mode) + chunk) + [] == Kept(Held(p.mode) + chunk);
      SameFront(Complete(begun), SpelledAll(ts), Complete(all), Held(q.mode));
    } else {
      assert SpelledAll(ts) + [] == SpelledAll(ts);
      Chain(Complete(begun), Kept(Held(p.mode) + chunk), [IAC, SE]);
    }
  }

  lemma SameFront(a: seq<byte>, b: seq<byte>, c: seq<byte>, tail: seq<byte>)
    requires a + (b + tail) == c + tail
    ensures a + b == c
  {
    assert (a + b) + tail == c + tail;
    assert ((a + b) + tail)[..|a + b|] == (c + tail)[..|c|];
  }

  /** Any run at all, with flushes and with suboptions given up: the tokens emitted so far, followed by what is
      still held, are what the run keeps of its input. Nothing is lost, repeated or moved, and each time a
      suboption is given up exactly its missing end is added. */
  lemma {:induction false} EveryRunConserves(chunks: seq<seq<byte>>)
    ensures SpelledAll(ChunkRun(START, chunks).1) + Held(ChunkRun(START, chunks).0.mode) == KeptThrough([], chunks)
  {
    var (q, ts) := ChunkRun(START, chunks);
    RunKeeps(START, [], chunks);
    assert Complete([]) == [];
    assert [] + (SpelledAll(ts) + Held(q.mode)) == SpelledAll(ts) + Held(q.mode);
  }

  /** If nothing is given up, what a run keeps depends on the whole input only. */
  lemma {:induction false} KeptWhole(begun: seq<byte>, chunks: seq<seq<byte>>)
    requires NoneEmpty(chunks)
    requires forall i | 0 < i <= |chunks| :: TailAfter(begun + Concat(chunks[..i])) <= MAX_SUBOPTSIZE
    ensures KeptThrough(begun, chunks) == Kept(begun + Concat(chunks))
    decreases |chunks|
  {
    if chunks == [] {
      assert begun + [] == begun;
    } else {
      var all, later := begun + chunks[0], chunks[1..];
      assert chunks[..1][1..] == [] && chunks[0] + [] == chunks[0];
      assert Concat(chunks[..1]) == chunks[0];
      forall i | 0 < i <= |later|
        ensures TailAfter(all + Concat(later[..i])) <= MAX_SUBOPTSIZE
      {
        assert chunks[..i + 1][1..] == later[..i];
        Chain(begun, chunks[0], Concat(later[..i]));
      }
      KeptWhole(all, later);
      Chain(begun, chunks[0], Concat(later));
    }
  }

  /** A run without flushes that never stands inside an overlong suboption when a chunk ends: the tokens followed
      by what is still held are the input minus what `Kept` drops, however it was cut. */
  lemma RunOfChunksConserves(chunks: seq<seq<byte>>)
    requires NoneEmpty(chunks) && BordersFit(START, chunks) && TailAfter(Concat(chunks)) <= MAX_SUBOPTSIZE
    ensures SpelledAll(ChunkRun(START, chunks).1) + Held(ChunkRun(START, chunks).0.mode) == Kept(Concat(chunks))
  {
    EveryRunConserves(chunks);
    assert chunks[..|chunks|] == chunks;
    forall i | 0 < i <= |chunks|
      ensures TailAfter([] + Concat(chunks[..i])) <= MAX_SUBOPTSIZE
    {
      assert [] + Concat(chunks[..i]) == Concat(chunks[..i]);
    }
    KeptWhole([], chunks);
    assert [] + Concat(chunks) == Concat(chunks);
  }

  // ----- Round trip -----

  /** Every IAC twice. */
  function Doubled(s: seq<byte>): seq<byte> {
    if s == [] then [] else Escaped(s[0]) + Doubled(s[1..])
  }

  function Escaped(b: byte): seq<byte> {
    if b == IAC then [IAC, IAC] else [b]
  }

  /** The bytes that are sent for a token: its spelling, with data escaped. */
  function Wire(t: Token): seq<byte> {
    if t.Data? then Doubled(t.bytes) else Spelled(t)
  }

  function WireAll(ts: seq<Token>): seq<byte> {
    if ts == [] then [] else Wire(ts[0]) + WireAll(ts[1..])
  }

  /** What a well-behaved sender sends; the raw form of a suboption is computed from its cooked form. */
  predicate Sendable(t: Token) {
    match t
    case Data(_) => true
    case Command(command) => IsCommand(command)
    case Negotiation(request, _) => IsNegotiation(request)
    case Sub(subtype, raw, cooked) => subtype != 255 && raw == Doubled(cooked)
    case Flush => false
  }

  lemma {:induction false} DoubledIsClosed(s: seq<byte>)
    ensures Closed(Doubled(s)) && Cook(Doubled(s)) == s
  {
    if s != [] {
      DoubledIsClosed(s[1..]);
      var d := Doubled(s);
      var n := if s[0] == IAC then 2 else 1;
      assert d[n..] == Doubled(s[1..]);
      assert UnitLength(d) == n;
      assert s == [s[0]] + s[1..];
    }
  }

  lemma {:induction false} ScanDoubled(s: seq<byte>, rest: seq<byte>)
    ensures Scan(Doubled(s) + rest) == Octets(s) + Scan(rest)
  {
    if s == [] {
      assert Doubled(s) + rest == rest;
      assert Octets(s) + Scan(rest) == Scan(rest);
    } else {
      var later := Doubled(s[1..]) + rest;
      ScanDoubled(s[1..], rest);
      ScanEscaped(s[0], later);
      Chain(Escaped(s[0]), Doubled(s[1..]), rest);
      assert Octets(s) == [Octet(s[0])] + Octets(s[1..]);
      Chain([Octet(s[0])], Octets(s[1..]), Scan(rest));
    }
  }

  lemma ScanEscaped(b: byte, rest: seq<byte>)
    ensures Scan(Escaped(b) + rest) == [Octet(b)] + Scan(rest)
  {
    assert (Escaped(b) + rest)[|Escaped(b)|..] == rest;
  }

  /** A token on the wire reads back as itself, whatever follows. */
  lemma ScanWire(t: Token, rest: seq<byte>)
    requires Sendable(t)
    ensures Scan(Wire(t) + rest) == AtomsOf(t) + Scan(rest)
  {
    match t
    case Data(bytes) => ScanDoubled(bytes, rest);
    case Command(command) => ScanPair(command, rest);
    case Negotiation(request, option) => ScanNegotiation(request, option, rest);
    case Sub(subtype, raw, cooked) =>
      DoubledIsClosed(cooked);
      ScanSuboption(subtype, raw, rest);
  }

  /** Everything sent is received: the elements of the wire form are the elements sent. */
  lemma {:induction false} ScanWireAll(ts: seq<Token>)
    requires forall i | 0 <= i < |ts| :: Sendable(ts[i])
    ensures Scan(WireAll(ts)) == Atoms(ts)
  {
    if ts != [] {
      ScanWire(ts[0], WireAll(ts[1..]));
      ScanWireAll(ts[1..]);
    }
  }

  /** The unparsed tail grows by at most one for each byte. */
  lemma {:induction false} TailGrowsSlowly(p: State, s: seq<byte>)
    ensures TailOf(Run(p, s).0.mode) <= TailOf(p.mode) + |s|
    decreases |s|
  {
    if s != [] {
      TailGrowsSlowly(Feed(p, s[0]).0, s[1..]);
    }
  }

  lemma RunPair(p: State, a: byte, b: byte)
    ensures Run(p, [a, b]).0 == Feed(Feed(p, a).0, b).0
  {
    assert [a, b][1..] == [b];
    assert Run(Feed(p, a).0, [b]).0 == Feed(Feed(p, a).0, b).0;
  }

  lemma RunShort(p: State, unit: seq<byte>)
    requires 1 <= |unit| <= 2
    ensures Run(p, unit).0 == if |unit| == 1 then Feed(p, unit[0]).0 else Feed(Feed(p, unit[0]).0, unit[1]).0
  {
    if |unit| == 1 {
      assert unit[1..] == [];
    } else {
      assert unit == [unit[0], unit[1]];
      RunPair(p, unit[0], unit[1]);
    }
  }

  lemma {:induction false} DoubledKeepsTailShort(p: State, s: seq<byte>, k: nat)
    requires p.mode == Normal && k <= |Doubled(s)|
    ensures TailOf(Run(p, Doubled(s)[..k]).0.mode) <= 1
    ensures Run(p, Doubled(s)).0.mode == Normal
    decreases |s|
  {
    if s != [] {
      var n := if s[0] == IAC then 2 else 1;
      var d := Doubled(s);
      assert d == d[..n] + Doubled(s[1..]);
      RunAppend(p, d[..n], Doubled(s[1..]));
      var q := Run(p, d[..n]).0;
      RunShort(p, d[..n]);
      if k < n {
        TailGrowsSlowly(p, d[..k]);
        DoubledKeepsTailShort(q, s[1..], 0);
      } else {
        DoubledKeepsTailShort(q, s[1..], k - n);
        assert d[..k] == d[..n] + Doubled(s[1..])[..k - n];
        RunAppend(p, d[..n], Doubled(s[1..])[..k - n]);
      }
    }
  }

  lemma UnitKeepsInside(p: State, unit: seq<byte>)
    requires p.mode.InSubopt? && unit != [] && UnitLength(unit) == |unit|
    ensures Run(p, unit).0 == p.(mode := InSubopt(p.mode.subtype, p.mode.raw + unit))
  {
    RunShort(p, unit);
    if |unit| == 1 {
      assert unit == [unit[0]];
    } else {
      assert unit == [IAC, unit[1]];
    }
  }

  lemma {:induction false} ClosedKeepsInside(p: State, raw: seq<byte>)
    requires p.mode.InSubopt? && Closed(raw)
    ensures Run(p, raw).0 == p.(mode := InSubopt(p.mode.subtype, p.mode.raw + raw))
    decreases |raw|
  {
    if raw == [] {
      assert p.mode.raw + raw == p.mode.raw;
    } else {
      var n := UnitLength(raw);
      assert raw == raw[..n] + raw[n..];
      RunAppend(p, raw[..n], raw[n..]);
      var q := Run(p, raw[..n]).0;
      UnitKeepsInside(p, raw[..n]);
      ClosedKeepsInside(q, raw[n..]);
      assert p.mode.raw + raw[..n] + raw[n..] == p.mode.raw + raw;
    }
  }

  predicate Moderate(t: Token) {
    t.Sub? ==> |t.raw| < 65536
  }

  lemma RunTriple(p: State, a: byte, b: byte, c: byte)
    ensures Run(p, [a, b, c]).0 == Feed(Feed(Feed(p, a).0, b).0, c).0
  {
    assert [a, b, c][1..] == [b, c];
    RunPair(Feed(p, a).0, b, c);
  }

  /** After a whole token nothing is unfinished. */
  lemma WireEndsNormal(p: State, t: Token)
    requires p.mode == Normal && Sendable(t)
    ensures Run(p, Wire(t)).0.mode == Normal
  {
    match t
    case Data(bytes) =>
      DoubledKeepsTailShort(p, bytes, 0);
    case Command(command) =>
      RunPair(p, IAC, command);
    case Negotiation(request, option) =>
      RunTriple(p, IAC, request, option);
    case Sub(subtype, raw, cooked) =>
      var q := Run(p, [IAC, SB, subtype]).0;
      RunTriple(p, IAC, SB, subtype);
      assert Wire(t) == [IAC, SB, subtype] + (raw + [IAC, SE]);
      RunAppend(p, [IAC, SB, subtype], raw + [IAC, SE]);
      RunAppend(q, raw, [IAC, SE]);
      DoubledIsClosed(cooked);
      ClosedKeepsInside(q, raw);
      RunPair(Run(q, raw).0, IAC, SE);
  }

  lemma {:induction false} WireAllEndsNormal(p: State, ts: seq<Token>)
    requires p.mode == Normal && forall i | 0 <= i < |ts| :: Sendable(ts[i])
    ensures Run(p, WireAll(ts)).0.mode == Normal
    decreases |ts|
  {
    if ts != [] {
      WireEndsNormal(p, ts[0]);
      RunAppend(p, Wire(ts[0]), WireAll(ts[1..]));
      WireAllEndsNormal(Run(p, Wire(ts[0])).0, ts[1..]);
    }
  }

  lemma WireStaysModerate(p: State, t: Token, k: nat)
    requires p.mode == Normal && Sendable(t) && Moderate(t) && k <= |Wire(t)|
    ensures TailOf(Run(p, Wire(t)[..k]).0.mode) <= MAX_SUBOPTSIZE
  {
    if t.Data? {
      DoubledKeepsTailShort(p, t.bytes, k);
    } else if t.Sub? {
      SubWireStaysModerate(p, t, k);
    } else {
      TailGrowsSlowly(p, Wire(t)[..k]);
    }
  }

  lemma SubWireStaysModerate(p: State, t: Token, k: nat)
    requires p.mode == Normal && t.Sub? && Sendable(t) && Moderate(t) && k <= |Wire(t)|
    ensures TailOf(Run(p, Wire(t)[..k]).0.mode) <= MAX_SUBOPTSIZE
  {
    var head, body, w := [IAC, SB, t.subtype], t.raw + [IAC, SE], Wire(t);
    assert w == head + body;
    if k <= 3 {
      TailGrowsSlowly(p, w[..k]);
    } else if k < |w| {
      RunTriple(p, IAC, SB, t.subtype);
      assert w[..k] == head + body[..k - 3];
      RunAppend(p, head, body[..k - 3]);
      TailGrowsSlowly(Run(p, head).0, body[..k - 3]);
    } else {
      assert w[..k] == w;
      WireEndsNormal(p, t);
    }
  }

  lemma {:induction false} WireAllStaysModerate(p: State, ts: seq<Token>, k: nat)
    requires p.mode == Normal && forall i | 0 <= i < |ts| :: Sendable(ts[i]) && Moderate(ts[i])
    requires k <= |WireAll(ts)|
    ensures TailOf(Run(p, WireAll(ts)[..k]).0.mode) <= MAX_SUBOPTSIZE
    decreases |ts|
  {
    if ts != [] {
      var w, rest := Wire(ts[0]), WireAll(ts[1..]);
      if k <= |w| {
        WireStaysModerate(p, ts[0], k);
        assert WireAll(ts)[..k] == w[..k];
      } else {
        WireEndsNormal(p, ts[0]);
        assert WireAll(ts)[..k] == w + rest[..k - |w|];
        RunAppend(p, w, rest[..k - |w|]);
        WireAllStaysModerate(Run(p, w).0, ts[1..], k - |w|);
      }
    }
  }

  /** What is sent arrives: for all tokens, suboptions of any size among them, and for every cutting that has no
      border inside an overlong one, the receiver's elements are the sender's elements, suboptions with the same
      raw and cooked data; unless one of these is without data, and then the receiver aborts. */
  lemma SentIsReceived(ts: seq<Token>, chunks: seq<seq<byte>>)
    requires forall i | 0 <= i < |ts| :: Sendable(ts[i])
    requires CutsOf(chunks, WireAll(ts)) && BordersFit(START, chunks)
    ensures Parsed(START, chunks) == if NoEmptySub(ts) then Some(Atoms(ts)) else None
  {
    WireAllEndsNormal(START, ts);
    EveryCuttingReadsTheGrammar(chunks);
    ScanWireAll(ts);
    AtomsHaveData(ts);
  }

  /** With suboptions below the limit any cutting will do. */
  lemma ModerateIsReceived(ts: seq<Token>, chunks: seq<seq<byte>>)
    requires forall i | 0 <= i < |ts| :: Sendable(ts[i]) && Moderate(ts[i])
    requires CutsOf(chunks, WireAll(ts))
    ensures Parsed(START, chunks) == if NoEmptySub(ts) then Some(Atoms(ts)) else None
  {
    forall k | 0 <= k < |WireAll(ts)|
      ensures TailAfter(WireAll(ts)[..k]) <= MAX_SUBOPTSIZE
    {
      WireAllStaysModerate(START, ts, k);
    }
    FitsAtBorders(START, chunks);
    SentIsReceived(ts, chunks);
  }

  /** And whatever their size, tokens that are sent one chunk each arrive. */
  lemma SentOneByOne(ts: seq<Token>, chunks: seq<seq<byte>>)
    requires |chunks| == |ts| && NoneEmpty(chunks)
    requires forall i | 0 <= i < |ts| :: Sendable(ts[i]) && chunks[i] == Wire(ts[i])
    ensures Parsed(START, chunks) == if NoEmptySub(ts) then Some(Atoms(ts)) else None
  {
    assert ts[..|ts|] == ts && chunks[..|ts|] == chunks;
    WireOneByOne(ts, chunks, |ts|);
    forall i | 0 < i < |chunks|
      ensures TailOf(Run(START, Concat(chunks[..i])).0.mode) <= MAX_SUBOPTSIZE
    {
      WireOneByOne(ts, chunks, i);
      WireAllEndsNormal(START, ts[..i]);
    }
    SentIsReceived(ts, chunks);
  }

  lemma {:induction false} WireOneByOne(ts: seq<Token>, chunks: seq<seq<byte>>, n: nat)
    requires |chunks| == |ts| && n <= |ts| && forall i | 0 <= i < |ts| :: chunks[i] == Wire(ts[i])
    ensures Concat(chunks[..n]) == WireAll(ts[..n])
    decreases |ts|
  {
    if n > 0 {
      assert chunks[..n][1..] == chunks[1..][..n - 1] && ts[..n][1..] == ts[1..][..n - 1];
      WireOneByOne(ts[1..], chunks[1..], n - 1);
    }
  }

  /** In particular one suboption of any type but 255 comes out as it went in, if and only if it has data. */
  lemma SuboptionRoundTrip(subtype: byte, cooked: seq<byte>)
    requires subtype != 255
    ensures var sub := Sub(subtype, Doubled(cooked), cooked);
            && Wire(sub) == [255, 250, subtype] + Doubled(cooked) + [255, 240]
            && Parsed(START, [Wire(sub)]) == if cooked == [] then None else Some([Control(sub)])
  {
    var sub := Sub(subtype, Doubled(cooked), cooked);
    SentOneByOne([sub], [Wire(sub)]);
    assert Atoms([sub]) == [Control(sub)] + Atoms([]) == [Control(sub)];
    OnlyOneSub(sub);
    if cooked != [] {
      assert |Doubled(cooked)| >= |Escaped(cooked[0])| > 0;
    }
  }

  lemma OnlyOneSub(t: Token)
    requires t.Sub?
    ensures NoEmptySub([t]) <==> t.raw != []
  {
    assert [t][0] == t;
  }

  /** The five bytes of a suboption without data make the receiver abort. */
  lemma EmptySuboptionAborts(subtype: byte)
    requires subtype != 255
    ensures Parsed(START, [[255, 250, subtype, 255, 240]]) == None
  {
    SuboptionRoundTrip(subtype, []);
    assert Wire(Sub(subtype, [], [])) == [IAC, SB, subtype, IAC, SE];
  }

  /** 64K and two more bytes of suboption data that does not end: cutting before the last byte makes a difference. */
  lemma OverlongCutMatters(subtype: byte)
    requires subtype != 255
    ensures var s: seq<byte> := [255, 250, subtype] + seq(65538, _ => 0);
            !FitsBeforeEnd(START, s) && !SlicingIndependent(s)
  {
    var zeros: seq<byte> := seq(MAX_SUBOPTSIZE + 1, _ => 0);
    var s: seq<byte> := [IAC, SB, subtype] + seq(MAX_SUBOPTSIZE + 2, _ => 0);
    var k := |s| - 1;
    assert s[..k] == [IAC, SB, subtype] + zeros;
    RunAppend(START, [IAC, SB, subtype], zeros);
    RunTriple(START, IAC, SB, subtype);
    PlainIsClosed(zeros);
    ClosedKeepsInside(Run(START, [IAC, SB, subtype]).0, zeros);
    assert TailOf(Run(START, s[..k]).0.mode) > MAX_SUBOPTSIZE;
    SlicingIndependentIff(s);
  }

  /** What the limit is compared with: the data of an open suboption, and a 255 after it that is not paired yet. */
  lemma TailIsOpenData(before: seq<byte>, subtype: byte, raw: seq<byte>, s: seq<byte>)
    requires Run(START, before).0.mode == Normal && subtype != 255 && Closed(raw)
    requires s == before + ([255, 250, subtype] + raw)
    ensures TailAfter(s) == |raw| && TailAfter(s + [255]) == |raw| + 1
  {
    var p := Run(START, before).0;
    RunAppend(START, before, [255, 250, subtype] + raw);
    OpensSuboption(p, subtype, raw);
    RunAppend(START, s, [255]);
    RunShort(Run(START, s).0, [255]);
  }

  lemma OpensSuboption(p: State, subtype: byte, raw: seq<byte>)
    requires p.mode == Normal && subtype != 255 && Closed(raw)
    ensures Run(p, [255, 250, subtype] + raw).0.mode == InSubopt(subtype, raw)
  {
    RunAppend(p, [255, 250, subtype], raw);
    RunTriple(p, 255, 250, subtype);
    ClosedKeepsInside(Run(p, [255, 250, subtype]).0, raw);
    assert [] + raw == raw;
  }

  lemma {:induction false} PlainIsClosed(s: seq<byte>)
    requires forall i | 0 <= i < |s| :: s[i] != IAC
    ensures Closed(s)
  {
    if s != [] {
      PlainIsClosed(s[1..]);
    }
  }
}
