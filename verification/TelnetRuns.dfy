/** Whole runs of the telnet tokenizer over chunks: when cutting matters, what is kept, and round trips. */
module TelnetRuns {
  import opened Basics
  import opened Chunks
  import opened TelnetStream

  const MAX_SUBOPTSIZE := 64 * 1024

  /** How many bytes of the current region are still unparsed once the data before it has been passed on. */
  function TailOf(m: Mode): nat {
    match m
    case Normal => 0
    case Escape => 1
    case SubNeg(_) => 2
    case SuboptNum => 2
    case InSubopt(_, raw) => |raw|
    case SuboptEscape(_, raw) => |raw| + 1
  }

  /** The end of a chunk: pending data is passed on, an unfinished element waits. */
  function EndOfChunk(p: State): (State, seq<Token>) {
    if p.mode.InSubopt? || p.mode.SuboptEscape? then (p, []) else (State([], p.mode), DataToken(p.data))
  }

  /** Giving up on an unfinished element: a suboption is passed on as far as it got, anything else is dropped. */
  function Reset(p: State): (State, seq<Token>) {
    match p.mode
    case InSubopt(subtype, raw) => (START, [Sub(subtype, raw, Cook(raw))])
    case SuboptEscape(subtype, raw) => (START, [Sub(subtype, raw + [IAC], Cook(raw))])
    case _ => (START, [])
  }

  /** One incoming chunk. An empty one is a flush; a suboption that has grown too long is given up on. */
  function ChunkStep(p: State, chunk: seq<byte>): (State, seq<Token>) {
    if chunk == [] then
      var (q, ts) := if p.data == [] && TailOf(p.mode) == 0 then (p, []) else Reset(p);
      (q, ts + [Flush])
    else
      var (q, ts) := Run(p, chunk);
      var (r, us) := EndOfChunk(q);
      if TailOf(r.mode) > MAX_SUBOPTSIZE then
        var (z, vs) := Reset(r);
        (z, ts + us + vs)
      else
        (r, ts + us)
  }

  function ChunkRun(p: State, chunks: seq<seq<byte>>): (State, seq<Token>)
    decreases |chunks|
  {
    if chunks == [] then (p, [])
    else
      var (q, ts) := ChunkStep(p, chunks[0]);
      var (r, us) := ChunkRun(q, chunks[1..]);
      (r, ts + us)
  }

  lemma {:induction false} ChunkRunSnoc(p: State, chunks: seq<seq<byte>>, chunk: seq<byte>)
    ensures ChunkRun(p, chunks + [chunk]).0 == ChunkStep(ChunkRun(p, chunks).0, chunk).0
    ensures ChunkRun(p, chunks + [chunk]).1 == ChunkRun(p, chunks).1 + ChunkStep(ChunkRun(p, chunks).0, chunk).1
    decreases |chunks|
  {
    if chunks == [] {
      assert ([] + [chunk])[1..] == [];
      assert ChunkStep(p, chunk).1 + [] == [] + ChunkStep(p, chunk).1;
    } else {
      assert (chunks + [chunk])[1..] == chunks[1..] + [chunk];
      var (q, ts) := ChunkStep(p, chunks[0]);
      ChunkRunSnoc(q, chunks[1..], chunk);
      var (r, us) := ChunkRun(q, chunks[1..]);
      Chain(ts, us, ChunkStep(r, chunk).1);
    }
  }

  /** The state between chunks. */
  ghost predicate Settled(p: State) {
    Proper(p) && p.data == []
  }

  lemma ChunkStepSettled(p: State, chunk: seq<byte>)
    requires Settled(p)
    ensures Settled(ChunkStep(p, chunk).0)
    ensures TailOf(p.mode) <= MAX_SUBOPTSIZE ==> TailOf(ChunkStep(p, chunk).0.mode) <= MAX_SUBOPTSIZE
  {
    RunScans(p, chunk);
  }

  // ----- When cutting matters -----

  /** Data at hand does not influence the mode. */
  lemma {:induction false} RunMode(p: State, data: seq<byte>, s: seq<byte>)
    ensures Run(p.(data := data), s).0.mode == Run(p, s).0.mode
    decreases |s|
  {
    if s != [] {
      var q := Feed(p, s[0]).0;
      var r := Feed(p.(data := data), s[0]).0;
      assert r == q.(data := r.data);
      RunMode(q, r.data, s[1..]);
    }
  }

  /** The unparsed tail after `s`, read in one piece from the start. */
  function TailAfter(s: seq<byte>): nat {
    TailOf(Run(START, s).0.mode)
  }

  ghost predicate CutsOf(chunks: seq<seq<byte>>, s: seq<byte>) {
    Concat(chunks) == s && NoneEmpty(chunks)
  }

  /** What comes out of a run: its elements, up to where data blocks are cut; or nothing, if it completes a suboption
      without data, for then the builder aborts. */
  ghost function Parsed(p: State, chunks: seq<seq<byte>>): Option<seq<Atom>> {
    var ts := ChunkRun(p, chunks).1;
    if NoEmptySub(ts) then Some(Atoms(ts)) else None
  }

  /** All ways of cutting `s` into non-empty chunks are parsed, and give the same elements. */
  ghost predicate SlicingIndependent(s: seq<byte>) {
    forall a, b | CutsOf(a, s) && CutsOf(b, s) :: Parsed(START, a).Some? && Parsed(START, a) == Parsed(START, b)
  }

  /** What a chunk that ends in state `q` adds to what was read inside it. */
  function Closing(q: State): seq<Token> {
    EndOfChunk(q).1 + if TailOf(q.mode) > MAX_SUBOPTSIZE then Reset(q).1 else []
  }

  lemma ResetIgnoresData(q: State)
    ensures Reset(EndOfChunk(q).0) == Reset(q)
  {
  }

  lemma ClosingAtoms(p: State, s: seq<byte>)
    requires Proper(p)
    ensures Atoms(Run(p, s).1 + Closing(Run(p, s).0))
         == Reads(p, s) + if TailOf(Run(p, s).0.mode) > MAX_SUBOPTSIZE then Atoms(Reset(Run(p, s).0).1) else []
  {
    RunScans(p, s);
    var (q, ts) := Run(p, s);
    var last := if TailOf(q.mode) > MAX_SUBOPTSIZE then Reset(q).1 else [];
    AtomsAppend(ts, EndOfChunk(q).1 + last);
    AtomsAppend(EndOfChunk(q).1, last);
    AtomsOfData(q.data, []);
    assert DataToken(q.data) + [] == DataToken(q.data);
    assert Atoms(EndOfChunk(q).1) == Octets(q.data);
    Chain(Atoms(ts), Octets(q.data), Atoms(last));
  }

  lemma ChunkStepAtoms(p: State, chunk: seq<byte>)
    requires Settled(p) && chunk != []
    ensures Atoms(ChunkStep(p, chunk).1)
         == Scan(Held(p.mode) + chunk)
            + if TailOf(Run(p, chunk).0.mode) > MAX_SUBOPTSIZE then Atoms(Reset(Run(p, chunk).0).1) else []
  {
    var (q, ts) := Run(p, chunk);
    ResetIgnoresData(q);
    ClosingAtoms(p, chunk);
    if TailOf(q.mode) > MAX_SUBOPTSIZE {
      Chain(ts, EndOfChunk(q).1, Reset(q).1);
    } else {
      assert EndOfChunk(q).1 + [] == EndOfChunk(q).1;
    }
    assert Octets([]) + Scan(Held(p.mode) + chunk) == Scan(Held(p.mode) + chunk);
  }

  lemma ReadsResumes(p: State, c: seq<byte>, rest: seq<byte>)
    requires Proper(p)
    ensures Proper(Run(p, c).0)
    ensures Reads(p, c + rest) == Atoms(Run(p, c).1) + Reads(Run(p, c).0, rest)
  {
    var (m, ts) := Run(p, c);
    RunScans(p, c);
    RunScans(p, c + rest);
    RunScans(m, rest);
    RunAppend(p, c, rest);
    var (r, us) := Run(m, rest);
    AtomsAppend(ts, us);
    Chain(Atoms(ts), Atoms(us), Octets(r.data));
  }

  /** The grammar, too, can be read up to a point and resumed there. */
  lemma ScanResumes(p: State, c: seq<byte>, rest: seq<byte>)
    requires Settled(p)
    ensures Scan(Held(p.mode) + (c + rest)) == Scan(Held(p.mode) + c) + Scan(Held(Run(p, c).0.mode) + rest)
  {
    var (m, ts) := Run(p, c);
    ReadsResumes(p, c, rest);
    RunScans(p, c);
    Chain(Atoms(ts), Octets(m.data), Scan(Held(m.mode) + rest));
    SettledReads(p, c + rest);
    SettledReads(p, c);
  }

  lemma SettledReads(p: State, s: seq<byte>)
    requires p.data == []
    ensures Reads(p, s) == Scan(Held(p.mode) + s)
  {
    assert Octets([]) + Scan(Held(p.mode) + s) == Scan(Held(p.mode) + s);
  }

  /** Cutting once, where the unparsed tail is within the limit, loses nothing. */
  lemma CutOnce(p: State, c: seq<byte>, rest: seq<byte>)
    requires Settled(p) && c != [] && TailOf(Run(p, c).0.mode) <= MAX_SUBOPTSIZE
    ensures Atoms(ChunkStep(p, c).1) + Scan(Held(ChunkStep(p, c).0.mode) + rest) == Scan(Held(p.mode) + (c + rest))
  {
    ChunkStepAtoms(p, c);
    assert Scan(Held(p.mode) + c) + [] == Scan(Held(p.mode) + c);
    CutMode(p, c, []);
    ScanResumes(p, c, rest);
  }

  lemma CutMode(p: State, c: seq<byte>, rest: seq<byte>)
    requires Settled(p) && c != [] && TailOf(Run(p, c).0.mode) <= MAX_SUBOPTSIZE
    ensures ChunkStep(p, c).0.mode == Run(p, c).0.mode
    ensures Run(ChunkStep(p, c).0, rest).0.mode == Run(p, c + rest).0.mode
  {
    var q, m := ChunkStep(p, c).0, Run(p, c).0;
    RunAppend(p, c, rest);
    RunMode(m, q.data, rest);
    assert q == m.(data := q.data);
  }

  /** What an overlong suboption at the very end adds. */
  function GivenUp(p: State, s: seq<byte>): seq<Atom> {
    var q := Run(p, s).0;
    if s != [] && TailOf(q.mode) > MAX_SUBOPTSIZE then Atoms(Reset(q).1) else []
  }

  /** At no border between two chunks does the parser stand inside an overlong suboption. */
  ghost predicate BordersFit(p: State, chunks: seq<seq<byte>>) {
    forall i | 0 < i < |chunks| :: TailOf(Run(p, Concat(chunks[..i])).0.mode) <= MAX_SUBOPTSIZE
  }

  /** As long as no chunk but the last ends inside an overlong suboption, only the whole string counts. */
  lemma {:induction false} CutRunAtoms(p: State, chunks: seq<seq<byte>>)
    requires Settled(p) && NoneEmpty(chunks) && BordersFit(p, chunks)
    ensures Atoms(ChunkRun(p, chunks).1) == Scan(Held(p.mode) + Concat(chunks)) + GivenUp(p, Concat(chunks))
    decreases |chunks|
  {
    if chunks == [] {
      ReadsNothing(p);
      assert Reads(p, []) == Scan(Held(p.mode) + []);
    } else if |chunks| == 1 {
      assert chunks[1..] == [] && Concat(chunks) == chunks[0];
      ChunkStepAtoms(p, chunks[0]);
      assert ChunkStep(p, chunks[0]).1 + [] == ChunkStep(p, chunks[0]).1;
    } else {
      CutRunAtomsStep(p, chunks);
    }
  }

  /** Only what the grammar reads in the whole string decides whether the run aborts, and what comes out if not. */
  lemma CutRunParses(p: State, chunks: seq<seq<byte>>)
    requires Settled(p) && NoneEmpty(chunks) && BordersFit(p, chunks)
    ensures var atoms := Scan(Held(p.mode) + Concat(chunks));
            Parsed(p, chunks) == if AllHaveData(atoms) then Some(atoms + GivenUp(p, Concat(chunks))) else None
  {
    CutRunAtoms(p, chunks);
    AtomsHaveData(ChunkRun(p, chunks).1);
    AllHaveDataAppend(Scan(Held(p.mode) + Concat(chunks)), GivenUp(p, Concat(chunks)));
    GivenUpHasData(p, Concat(chunks));
  }

  lemma GivenUpHasData(p: State, s: seq<byte>)
    ensures AllHaveData(GivenUp(p, s))
  {
    var q := Run(p, s).0;
    if s != [] && TailOf(q.mode) > MAX_SUBOPTSIZE {
      assert Atoms(Reset(q).1) == [Control(Reset(q).1[0])] + Atoms([]);
    }
  }

  /** A chunk makes the builder abort if and only if the grammar reads a suboption without data in it and in what
      is held. */
  lemma ParsesWithoutEmptySubExactly(p: State, c: seq<byte>)
    requires Settled(p) && c != []
    ensures NoEmptySub(ChunkStep(p, c).1) <==> AllHaveData(Scan(Held(p.mode) + c))
  {
    ChunkStepAtoms(p, c);
    AtomsHaveData(ChunkStep(p, c).1);
    GivenUpHasData(p, c);
    AllHaveDataAppend(Scan(Held(p.mode) + c), GivenUp(p, c));
  }

  /** A flush never does: it gives up an open suboption only if there is something in it. */
  lemma FlushHasData(p: State)
    requires Settled(p)
    ensures NoEmptySub(ChunkStep(p, []).1)
  {
  }

  /** No token is a data block without bytes. */
  ghost predicate NoEmptyData(ts: seq<Token>) {
    forall i | 0 <= i < |ts| :: ts[i].Data? ==> ts[i].bytes != []
  }

  lemma {:induction false} RunHasNoEmptyData(p: State, s: seq<byte>)
    ensures NoEmptyData(Run(p, s).1)
    decreases |s|
  {
    if s != [] {
      RunHasNoEmptyData(Feed(p, s[0]).0, s[1..]);
    }
  }

  lemma NothingToTell(ts: seq<Token>)
    requires NoEmptyData(ts)
    ensures Atoms(ts) == [] <==> ts == []
  {
    if ts != [] {
      assert |AtomsOf(ts[0])| > 0;
    }
  }

  /** A chunk leaves nothing to hand out if and only if it has bytes, completes nothing, and stays within the limit. */
  lemma QueuesNothingExactly(p: State, c: seq<byte>)
    requires Settled(p)
    ensures ChunkStep(p, c).1 == [] <==>
            c != [] && Scan(Held(p.mode) + c) == [] && TailOf(Run(p, c).0.mode) <= MAX_SUBOPTSIZE
  {
    if c != [] {
      ChunkStepAtoms(p, c);
      RunHasNoEmptyData(p, c);
      NothingToTell(ChunkStep(p, c).1);
      if TailOf(Run(p, c).0.mode) > MAX_SUBOPTSIZE {
        assert |Reset(Run(p, c).0).1| == 1;
        NothingToTell(Reset(Run(p, c).0).1);
      }
    }
  }

  /** So the chunk that holds just an IAC leaves nothing. */
  lemma LoneIacQueuesNothing()
    ensures ChunkStep(START, [IAC]).1 == []
  {
    QueuesNothingExactly(START, [IAC]);
    assert Held(Normal) + [IAC] == [IAC];
    assert [IAC][1..] == [];
    assert Run(START, [IAC]).0 == Feed(START, IAC).0;
  }

  lemma FirstBorderFits(p: State, chunks: seq<seq<byte>>)
    requires |chunks| > 1 && BordersFit(p, chunks)
    ensures TailOf(Run(p, chunks[0]).0.mode) <= MAX_SUBOPTSIZE
  {
    assert chunks[..1][1..] == [];
    assert Concat(chunks[..1]) == chunks[0] + [] == chunks[0];
  }

  /** After the first chunk the borders to come are those of the remaining chunks. */
  lemma RestFits(p: State, chunks: seq<seq<byte>>)
    requires Settled(p) && |chunks| > 1 && chunks[0] != [] && BordersFit(p, chunks)
    ensures Settled(ChunkStep(p, chunks[0]).0) && BordersFit(ChunkStep(p, chunks[0]).0, chunks[1..])
  {
    FirstBorderFits(p, chunks);
    ChunkStepSettled(p, chunks[0]);
    forall i | 0 < i < |chunks[1..]|
      ensures TailOf(Run(ChunkStep(p, chunks[0]).0, Concat(chunks[1..][..i])).0.mode) <= MAX_SUBOPTSIZE
    {
      assert chunks[..i + 1][1..] == chunks[1..][..i];
      CutMode(p, chunks[0], Concat(chunks[1..][..i]));
    }
  }

  lemma {:induction false} CutRunAtomsStep(p: State, chunks: seq<seq<byte>>)
    requires Settled(p) && |chunks| > 1 && NoneEmpty(chunks) && BordersFit(p, chunks)
    ensures Atoms(ChunkRun(p, chunks).1) == Scan(Held(p.mode) + Concat(chunks)) + GivenUp(p, Concat(chunks))
    decreases |chunks|, 0
  {
    var c, rest, s := chunks[0], Concat(chunks[1..]), Concat(chunks);
    assert rest != [] by {
      assert chunks[1..][0] == chunks[1];
    }
    FirstBorderFits(p, chunks);
    RestFits(p, chunks);
    CutOnce(p, c, rest);
    CutMode(p, c, rest);
    var (q, ts) := ChunkStep(p, c);
    CutRunAtoms(q, chunks[1..]);
    var us := ChunkRun(q, chunks[1..]).1;
    AtomsAppend(ts, us);
    Chain(Atoms(ts), Scan(Held(q.mode) + rest), GivenUp(p, s));
  }

  ghost predicate FitsBeforeEnd(p: State, s: seq<byte>) {
    forall k | 0 <= k < |s| :: TailOf(Run(p, s[..k]).0.mode) <= MAX_SUBOPTSIZE
  }

  /** What holds at every place holds at every border. */
  lemma FitsAtBorders(p: State, chunks: seq<seq<byte>>)
    requires NoneEmpty(chunks) && FitsBeforeEnd(p, Concat(chunks))
    ensures BordersFit(p, chunks)
  {
    forall i | 0 < i < |chunks|
      ensures TailOf(Run(p, Concat(chunks[..i])).0.mode) <= MAX_SUBOPTSIZE
    {
      var k := |Concat(chunks[..i])|;
      assert chunks == chunks[..i] + chunks[i..] && chunks[i..][0] == chunks[i];
      ConcatAppend(chunks[..i], chunks[i..]);
      assert Concat(chunks)[..k] == Concat(chunks[..i]);
    }
  }

  // ----- The other direction: an overlong suboption makes cutting matter -----

  predicate Inside(m: Mode) {
    m.InSubopt? || m.SuboptEscape?
  }

  /** The elements read from state `q` when the rest of the input is the single chunk `u`. */
  function Rest(q: State, u: seq<byte>): seq<Atom> {
    Atoms(Run(q, u).1 + Closing(Run(q, u).0))
  }

  lemma RestStep(q: State, u: seq<byte>)
    requires u != []
    ensures Rest(q, u) == Atoms(Feed(q, u[0]).1) + Rest(Feed(q, u[0]).0, u[1..])
  {
    var (r, ts) := Feed(q, u[0]);
    var (z, us) := Run(r, u[1..]);
    Chain(ts, us, Closing(z));
    AtomsAppend(ts, us + Closing(z));
  }

  /** The raw data of the suboption that comes first. */
  ghost predicate StartsWithSub(atoms: seq<Atom>, least: nat) {
    atoms != [] && atoms[0].Control? && atoms[0].token.Sub? && |atoms[0].token.raw| >= least
  }

  /** An overlong suboption is passed on sooner or later, and never shorter than it already is. */
  lemma {:induction false} SubComesFirst(q: State, u: seq<byte>)
    requires Inside(q.mode) && TailOf(q.mode) > MAX_SUBOPTSIZE
    ensures StartsWithSub(Rest(q, u), |q.mode.raw|)
    ensures u == [] ==> |Rest(q, u)[0].token.raw| == TailOf(q.mode)
    ensures u != [] && q.mode.SuboptEscape? && u[0] == SE ==> |Rest(q, u)[0].token.raw| == |q.mode.raw|
    decreases |u|
  {
    if u == [] {
      GivenUpFirst(q);
    } else if q.mode.SuboptEscape? && u[0] == SE {
      EndedFirst(q, u);
    } else {
      RestStep(q, u);
      var r := Feed(q, u[0]).0;
      SubComesFirst(r, u[1..]);
      assert [] + Rest(r, u[1..]) == Rest(r, u[1..]);
    }
  }

  lemma GivenUpFirst(q: State)
    requires Inside(q.mode) && TailOf(q.mode) > MAX_SUBOPTSIZE
    ensures StartsWithSub(Rest(q, []), TailOf(q.mode)) && |Rest(q, [])[0].token.raw| == TailOf(q.mode)
  {
    assert Run(q, []) == (q, []);
    assert [] + Closing(q) == Reset(q).1;
    assert Atoms(Reset(q).1) == [Control(Reset(q).1[0])] + Atoms([]);
  }

  lemma EndedFirst(q: State, u: seq<byte>)
    requires q.mode.SuboptEscape? && u != [] && u[0] == SE
    ensures StartsWithSub(Rest(q, u), |q.mode.raw|) && |Rest(q, u)[0].token.raw| == |q.mode.raw|
  {
    RestStep(q, u);
    var ts := Feed(q, u[0]).1;
    assert Atoms(ts) == [Control(ts[0])] + Atoms([]);
  }

  /** Cut here, the suboption would be passed on with other data than if reading went on. */
  lemma FirstSubDiffers(q: State, u: seq<byte>)
    requires Inside(q.mode) && TailOf(q.mode) > MAX_SUBOPTSIZE && u != []
    requires !(q.mode.InSubopt? && [IAC, SE] <= u)
    ensures StartsWithSub(Rest(q, u), 0) && |Rest(q, u)[0].token.raw| != TailOf(q.mode)
  {
    SubComesFirst(q, u);
    RestStep(q, u);
    var (r, ts) := Feed(q, u[0]);
    if Inside(r.mode) {
      SubComesFirst(r, u[1..]);
      assert [] + Rest(r, u[1..]) == Rest(r, u[1..]);
      if r.mode.SuboptEscape? && |u| >= 2 {
        RestStep(r, u[1..]);
        var (z, us) := Feed(r, u[1]);
        assert u[1] != SE by {
          assert u == [u[0], u[1]] + u[2..];
        }
        SubComesFirst(z, u[2..]);
        assert u[1..][1..] == u[2..];
        assert [] + Rest(z, u[2..]) == Rest(z, u[2..]);
      }
    }
  }

  lemma ReadInOnePiece(p: State, s: seq<byte>)
    requires Settled(p) && s != []
    ensures Atoms(ChunkRun(p, [s]).1) == Rest(p, s)
  {
    var (q, ts) := Run(p, s);
    ResetIgnoresData(q);
    assert [s][1..] == [];
    assert ChunkStep(p, s).1 + [] == ChunkStep(p, s).1;
    if TailOf(q.mode) > MAX_SUBOPTSIZE {
      Chain(ts, EndOfChunk(q).1, Reset(q).1);
    } else {
      assert EndOfChunk(q).1 + [] == EndOfChunk(q).1;
    }
  }

  lemma {:induction false} RestResumes(q: State, a: seq<byte>, b: seq<byte>)
    ensures Rest(q, a + b) == Atoms(Run(q, a).1) + Rest(Run(q, a).0, b)
  {
    RunAppend(q, a, b);
    var (r, ts) := Run(q, a);
    var (z, us) := Run(r, b);
    Chain(ts, us, Closing(z));
    AtomsAppend(ts, us + Closing(z));
  }

  /** Cutting where the suboption read so far is overlong, and reading it in one piece, give different elements. */
  lemma OverlongCutDiffers(s: seq<byte>, k: nat)
    requires 0 < k < |s| && TailAfter(s[..k]) > MAX_SUBOPTSIZE
    requires !(Run(START, s[..k]).0.mode.InSubopt? && [IAC, SE] <= s[k..])
    ensures Atoms(ChunkRun(START, [s[..k], s[k..]]).1) != Atoms(ChunkRun(START, [s]).1)
  {
    WholeRunReads(s, k);
    CutRunGivesUp(s[..k], [s[k..]]);
    assert [s[..k]] + [s[k..]] == [s[..k], s[k..]];
  }

  /** Read in one piece, the suboption that is open at `k` is not passed on as it stands there. */
  lemma WholeRunReads(s: seq<byte>, k: nat)
    requires 0 < k < |s| && TailAfter(s[..k]) > MAX_SUBOPTSIZE
    requires !(Run(START, s[..k]).0.mode.InSubopt? && [IAC, SE] <= s[k..])
    ensures var n, atoms := |Atoms(Run(START, s[..k]).1)|, Atoms(ChunkRun(START, [s]).1);
            n < |atoms| && atoms[n].Control? && atoms[n].token.Sub? && |atoms[n].token.raw| != TailAfter(s[..k])
  {
    var (q, ts) := Run(START, s[..k]);
    ReadInOnePiece(START, s);
    assert s == s[..k] + s[k..];
    RestResumes(START, s[..k], s[k..]);
    FirstSubDiffers(q, s[k..]);
    assert (Atoms(ts) + Rest(q, s[k..]))[|Atoms(ts)|] == Rest(q, s[k..])[0];
  }

  /** Cut there, it is given up on as it stands. */
  lemma CutRunGivesUp(c: seq<byte>, later: seq<seq<byte>>)
    requires c != [] && TailAfter(c) > MAX_SUBOPTSIZE
    ensures var n, atoms := |Atoms(Run(START, c).1)|, Atoms(ChunkRun(START, [c] + later).1);
            n < |atoms| && atoms[n].Control? && atoms[n].token.Sub? && |atoms[n].token.raw| == TailAfter(c)
  {
    var (q, ts) := Run(START, c);
    RunScans(START, c);
    var (z, vs) := ChunkStep(START, c);
    assert vs == ts + [] + Reset(q).1 == ts + Reset(q).1;
    AtomsAppend(ts, Reset(q).1);
    assert Atoms(Reset(q).1) == [Control(Reset(q).1[0])] + Atoms([]);
    assert ([c] + later)[1..] == later;
    AtomsAppend(vs, ChunkRun(z, later).1);
  }

  /** Cutting is harmless exactly when no proper prefix ends inside a suboption over the limit, and no suboption is
      without data. */
  lemma SlicingIndependentIff(s: seq<byte>)
    ensures SlicingIndependent(s) <==>
            (forall k | 0 <= k < |s| :: TailAfter(s[..k]) <= 65536) && AllHaveData(Scan(s))
  {
    if FitsBeforeEnd(START, s) {
      var outcome := if AllHaveData(Scan(s)) then Some(Scan(s) + GivenUp(START, s)) else None;
      forall a | CutsOf(a, s)
        ensures Parsed(START, a) == outcome
      {
        FittingCutParses(s, a);
      }
      assert CutsOf(if s == [] then [] else [s], s) by { assert [s][1..] == []; }
    } else {
      OverlongIsDependent(s);
    }
  }

  lemma FittingCutParses(s: seq<byte>, a: seq<seq<byte>>)
    requires FitsBeforeEnd(START, s) && CutsOf(a, s)
    ensures Parsed(START, a) == if AllHaveData(Scan(s)) then Some(Scan(s) + GivenUp(START, s)) else None
  {
    assert Held(Normal) + s == s;
    FitsAtBorders(START, a);
    CutRunParses(START, a);
  }

  lemma OverlongIsDependent(s: seq<byte>)
    requires !FitsBeforeEnd(START, s)
    ensures !SlicingIndependent(s)
  {
    var j := CutThatMatters(s);
    OverlongCutDiffers(s, j);
    assert CutsOf([s], s) by { assert [s][1..] == []; }
    assert CutsOf([s[..j], s[j..]], s) by { TwoPieces(s, j); }
    DifferentAtoms(s, [s[..j], s[j..]], [s]);
  }

  lemma DifferentAtoms(s: seq<byte>, a: seq<seq<byte>>, b: seq<seq<byte>>)
    requires CutsOf(a, s) && CutsOf(b, s) && Atoms(ChunkRun(START, a).1) != Atoms(ChunkRun(START, b).1)
    ensures !SlicingIndependent(s)
  {
    assert !(Parsed(START, a).Some? && Parsed(START, a) == Parsed(START, b));
  }

  /** Inside an overlong suboption there is a place to cut that is not right before its end. */
  lemma CutThatMatters(s: seq<byte>) returns (j: nat)
    requires !FitsBeforeEnd(START, s)
    ensures 0 < j < |s| && TailAfter(s[..j]) > MAX_SUBOPTSIZE
    ensures !(Run(START, s[..j]).0.mode.InSubopt? && [IAC, SE] <= s[j..])
  {
    j :| 0 <= j < |s| && TailOf(Run(START, s[..j]).0.mode) > MAX_SUBOPTSIZE;
    var p := Run(START, s[..j]).0;
    assert j > 0;
    if p.mode.InSubopt? && [IAC, SE] <= s[j..] {
      assert s[..j + 1] == s[..j] + [s[j]];
      assert s[j] == s[j..][0];
      RunAppend(START, s[..j], [s[j]]);
      assert Run(p, [s[j]]).0 == Feed(p, s[j]).0;
      j := j + 1;
    }
  }

  lemma TwoPieces(s: seq<byte>, k: nat)
    requires k <= |s|
    ensures Concat([s[..k], s[k..]]) == s
  {
    assert [s[..k], s[k..]][1..] == [s[k..]];
    assert Concat([s[k..]]) == s[k..] + Concat([]);
    assert s[..k] + s[k..] == s;
  }

  /** Every cutting that has no border inside an overlong suboption yields exactly what the grammar reads; the
      run aborts exactly if that includes a suboption without data. */
  lemma EveryCuttingReadsTheGrammar(chunks: seq<seq<byte>>)
    requires NoneEmpty(chunks) && BordersFit(START, chunks) && TailAfter(Concat(chunks)) <= MAX_SUBOPTSIZE
    ensures Parsed(START, chunks) == if AllHaveData(Scan(Concat(chunks))) then Some(Scan(Concat(chunks))) else None
  {
    CutRunParses(START, chunks);
    assert Held(Normal) + Concat(chunks) == Concat(chunks);
    assert Scan(Concat(chunks)) + [] == Scan(Concat(chunks));
  }
}
