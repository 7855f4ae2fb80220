/** The telnet byte stream: its grammar, a byte-at-a-time machine for it, and why cutting it does not matter. */
module TelnetStream {
  import opened Basics
  import opened Chunks

  /** The single-character commands: 236 to 239 and 241 to 249. */
  predicate IsCommand(ch: byte) {
    236 <= ch <= 239 || 241 <= ch <= 249
  }

  predicate IsNegotiation(ch: byte) {
    WILL <= ch <= DONT
  }

  datatype Token =
    | Data(bytes: seq<byte>)
    | Command(command: byte)
    | Negotiation(request: byte, option: byte)
    | Sub(subtype: byte, raw: seq<byte>, cooked: seq<byte>)
    | Flush

  /** Tokens with the data blocks taken apart, so that only what they say is left and not where they were cut. */
  datatype Atom = Octet(b: byte) | Control(token: Token)

  function Octets(s: seq<byte>): seq<Atom> {
    seq(|s|, i requires 0 <= i < |s| => Octet(s[i]))
  }

  function AtomsOf(t: Token): seq<Atom> {
    if t.Data? then Octets(t.bytes) else [Control(t)]
  }

  function Atoms(ts: seq<Token>): seq<Atom> {
    if ts == [] then [] else AtomsOf(ts[0]) + Atoms(ts[1..])
  }

  lemma {:induction false} AtomsAppend(a: seq<Token>, b: seq<Token>)
    ensures Atoms(a + b) == Atoms(a) + Atoms(b)
  {
    if a == [] {
      assert a + b == b;
    } else {
      assert (a + b)[1..] == a[1..] + b;
      AtomsAppend(a[1..], b);
    }
  }

  /** No suboption is without data: the builder asserts that, and cannot make a chunk for one. */
  ghost predicate NoEmptySub(ts: seq<Token>) {
    forall i | 0 <= i < |ts| :: ts[i].Sub? ==> ts[i].raw != []
  }

  predicate HasData(a: Atom) {
    a.Control? && a.token.Sub? ==> a.token.raw != []
  }

  ghost predicate AllHaveData(atoms: seq<Atom>) {
    forall i | 0 <= i < |atoms| :: HasData(atoms[i])
  }

  lemma NoEmptySubAppend(a: seq<Token>, b: seq<Token>)
    ensures NoEmptySub(a + b) <==> NoEmptySub(a) && NoEmptySub(b)
  {
    assert forall i | 0 <= i < |a| :: a[i] == (a + b)[i];
    assert forall i | 0 <= i < |b| :: b[i] == (a + b)[|a| + i];
  }

  lemma AllHaveDataAppend(a: seq<Atom>, b: seq<Atom>)
    ensures AllHaveData(a + b) <==> AllHaveData(a) && AllHaveData(b)
  {
    assert forall i | 0 <= i < |a| :: a[i] == (a + b)[i];
    assert forall i | 0 <= i < |b| :: b[i] == (a + b)[|a| + i];
  }

  lemma {:induction false} AtomsHaveData(ts: seq<Token>)
    ensures NoEmptySub(ts) <==> AllHaveData(Atoms(ts))
  {
    if ts != [] {
      assert ts == [ts[0]] + ts[1..];
      NoEmptySubAppend([ts[0]], ts[1..]);
      AtomsHaveData(ts[1..]);
      AllHaveDataAppend(AtomsOf(ts[0]), Atoms(ts[1..]));
      assert ts[0].Data? || AtomsOf(ts[0])[0] == Control(ts[0]);
    }
  }

  lemma Chain<T>(a: seq<T>, b: seq<T>, c: seq<T>)
    ensures a + (b + c) == (a + b) + c
  {
  }

  lemma HeadAndTail(held: seq<byte>, s: seq<byte>)
    requires s != []
    ensures held + [s[0]] + s[1..] == held + s
  {
  }

  // ----- The grammar, read off a whole byte string -----

  /** Where the first unescaped IAC SE starts. */
  function FindEnd(s: seq<byte>): (r: int)
    ensures r == -1 || 0 <= r <= |s| - 2
  {
    if s == [] then -1
    else if s[0] != IAC then
      var r := FindEnd(s[1..]);
      if r < 0 then -1 else r + 1
    else if |s| < 2 then -1
    else if s[1] == SE then 0
    else
      var r := FindEnd(s[2..]);
      if r < 0 then -1 else r + 2
  }

  /** Suboption data with the doubled IAC undone; an IAC before anything else stays. */
  function Cook(raw: seq<byte>): seq<byte> {
    if raw == [] then []
    else if raw[0] != IAC then [raw[0]] + Cook(raw[1..])
    else if |raw| < 2 then raw
    else CookPair(raw[1]) + Cook(raw[2..])
  }

  function CookPair(ch: byte): seq<byte> {
    if ch == IAC then [IAC] else [IAC, ch]
  }

  /** Every complete element of a byte string, in order. An incomplete one at the end yields nothing. */
  function Scan(s: seq<byte>): seq<Atom>
    decreases |s|
  {
    if s == [] then []
    else if s[0] != IAC then [Octet(s[0])] + Scan(s[1..])
    else if |s| < 2 then []
    else if s[1] == IAC then [Octet(IAC)] + Scan(s[2..])
    else if s[1] == SB then
      if |s| < 3 then []
      else if s[2] == 255 then Scan(s[3..])
      else
        var end := FindEnd(s[3..]);
        if end < 0 then []
        else
          var raw := s[3..3 + end];
          [Control(Sub(s[2], raw, Cook(raw)))] + Scan(s[3 + end + 2..])
    else if IsNegotiation(s[1]) then
      if |s| < 3 then [] else [Control(Negotiation(s[1], s[2]))] + Scan(s[3..])
    else if IsCommand(s[1]) then [Control(Command(s[1]))] + Scan(s[2..])
    else [Octet(IAC), Octet(s[1])] + Scan(s[2..])
  }

  // ----- The machine -----

  datatype Mode =
    | Normal
    | Escape
    | SubNeg(request: byte)
    | SuboptNum
    | InSubopt(subtype: byte, raw: seq<byte>)
    | SuboptEscape(subtype: byte, raw: seq<byte>)

  /** `data` is plain data that has been read and not yet passed on. */
  datatype State = State(data: seq<byte>, mode: Mode)

  const START := State([], Normal)

  function DataToken(bytes: seq<byte>): seq<Token> {
    if bytes == [] then [] else [Data(bytes)]
  }

  /** One byte. */
  function Feed(p: State, ch: byte): (State, seq<Token>) {
    match p.mode
    case Normal =>
      if ch == IAC then (p.(mode := Escape), []) else (p.(data := p.data + [ch]), [])
    case Escape =>
      if ch == IAC then (START, [Data(p.data + [IAC])])
      else if ch == SB then (p.(mode := SuboptNum), [])
      else if IsNegotiation(ch) then (p.(mode := SubNeg(ch)), [])
      else if IsCommand(ch) then (START, DataToken(p.data) + [Command(ch)])
      else (State(p.data + [IAC, ch], Normal), [])
    case SubNeg(request) =>
      (START, DataToken(p.data) + [Negotiation(request, ch)])
    case SuboptNum =>
      (State([], if ch != 255 then InSubopt(ch, []) else Normal), DataToken(p.data))
    case InSubopt(subtype, raw) =>
      (p.(mode := if ch == IAC then SuboptEscape(subtype, raw) else InSubopt(subtype, raw + [ch])), [])
    case SuboptEscape(subtype, raw) =>
      if ch == SE then (START, [Sub(subtype, raw, Cook(raw))])
      else (p.(mode := InSubopt(subtype, raw + [IAC, ch])), [])
  }

  /** A whole string. */
  function Run(p: State, s: seq<byte>): (State, seq<Token>)
    decreases |s|
  {
    if s == [] then (p, [])
    else
      var (q, ts) := Feed(p, s[0]);
      var (r, us) := Run(q, s[1..]);
      (r, ts + us)
  }

  lemma {:induction false} RunAppend(p: State, a: seq<byte>, b: seq<byte>)
    ensures Run(p, a + b) == (Run(Run(p, a).0, b).0, Run(p, a).1 + Run(Run(p, a).0, b).1)
    decreases |a|
  {
    if a == [] {
      assert a + b == b;
      assert [] + Run(p, b).1 == Run(p, b).1;
    } else {
      var (q, ts) := Feed(p, a[0]);
      assert (a + b)[1..] == a[1..] + b;
      RunAppend(q, a[1..], b);
      Chain(ts, Run(q, a[1..]).1, Run(Run(q, a[1..]).0, b).1);
    }
  }

  /** The bytes of an element that has started and is not finished. */
  function Held(m: Mode): seq<byte> {
    match m
    case Normal => []
    case Escape => [IAC]
    case SubNeg(request) => [IAC, request]
    case SuboptNum => [IAC, SB]
    case InSubopt(subtype, raw) => [IAC, SB, subtype] + raw
    case SuboptEscape(subtype, raw) => [IAC, SB, subtype] + raw + [IAC]
  }

  // ----- The machine reads what the grammar reads -----

  /** Raw suboption data that does not contain its own terminator: plain bytes and IAC pairs. */
  predicate Closed(raw: seq<byte>) {
    raw == [] || (UnitLength(raw) > 0 && Closed(raw[UnitLength(raw)..]))
  }

  function UnitLength(raw: seq<byte>): (n: nat)
    requires raw != []
    ensures n <= |raw|
  {
    if raw[0] != IAC then 1 else if |raw| >= 2 && raw[1] != SE then 2 else 0
  }

  lemma {:induction false} ClosedSnoc(raw: seq<byte>, unit: seq<byte>)
    requires Closed(raw) && unit != [] && UnitLength(unit) == |unit|
    ensures Closed(raw + unit)
  {
    if raw == [] {
      assert raw + unit == unit;
    } else {
      var n := UnitLength(raw);
      ClosedSnoc(raw[n..], unit);
      assert (raw + unit)[n..] == raw[n..] + unit;
    }
  }

  lemma {:induction false} CookAppend(raw: seq<byte>, more: seq<byte>)
    requires Closed(raw)
    ensures Cook(raw + more) == Cook(raw) + Cook(more)
  {
    if raw == [] {
      assert raw + more == more;
    } else {
      var n := UnitLength(raw);
      CookAppend(raw[n..], more);
      assert (raw + more)[n..] == raw[n..] + more;
      Chain(if n == 1 then [raw[0]] else CookPair(raw[1]), Cook(raw[n..]), Cook(more));
    }
  }

  lemma {:induction false} FindEndOfClosed(raw: seq<byte>, rest: seq<byte>)
    requires Closed(raw)
    ensures FindEnd(raw + [IAC, SE] + rest) == |raw|
    ensures FindEnd(raw) == -1 && FindEnd(raw + [IAC]) == -1
  {
    if raw != [] {
      var n := UnitLength(raw);
      FindEndOfClosed(raw[n..], rest);
      assert (raw + [IAC, SE] + rest)[n..] == raw[n..] + [IAC, SE] + rest;
      assert (raw + [IAC])[n..] == raw[n..] + [IAC];
    }
  }

  predicate Consistent(m: Mode) {
    match m
    case SubNeg(request) => IsNegotiation(request)
    case InSubopt(subtype, raw) => subtype != 255 && Closed(raw)
    case SuboptEscape(subtype, raw) => subtype != 255 && Closed(raw)
    case _ => true
  }

  lemma FeedConsistent(p: State, ch: byte)
    requires Consistent(p.mode)
    ensures Consistent(Feed(p, ch).0.mode)
  {
    match p.mode
    case InSubopt(_, raw) => if ch != IAC { ClosedSnoc(raw, [ch]); }
    case SuboptEscape(_, raw) => if ch != SE { ClosedSnoc(raw, [IAC, ch]); }
    case _ =>
  }

  lemma AtomsOfData(bytes: seq<byte>, more: seq<Token>)
    ensures Atoms(DataToken(bytes) + more) == Octets(bytes) + Atoms(more)
  {
    AtomsAppend(DataToken(bytes), more);
    if bytes != [] {
      assert Atoms([Data(bytes)]) == Octets(bytes) + Atoms([]);
    }
  }

  lemma AtomsOfDataThen(bytes: seq<byte>, t: Token)
    requires !t.Data?
    ensures Atoms(DataToken(bytes) + [t]) == Octets(bytes) + [Control(t)]
  {
    AtomsOfData(bytes, [t]);
    assert Atoms([t]) == [Control(t)] + Atoms([]);
  }

  lemma OctetsAppend(a: seq<byte>, b: seq<byte>)
    ensures Octets(a + b) == Octets(a) + Octets(b)
  {
  }

  /** What one byte adds: everything the machine now knows that it did not know before. */
  function Learned(p: State, ch: byte): seq<Atom> {
    match p.mode
    case Normal => if ch == IAC then [] else [Octet(ch)]
    case Escape =>
      if ch == IAC then [Octet(IAC)]
      else if ch == SB || IsNegotiation(ch) then []
      else if IsCommand(ch) then [Control(Command(ch))]
      else [Octet(IAC), Octet(ch)]
    case SubNeg(request) => [Control(Negotiation(request, ch))]
    case SuboptNum => []
    case InSubopt(_, _) => []
    case SuboptEscape(subtype, raw) => if ch == SE then [Control(Sub(subtype, raw, Cook(raw)))] else []
  }

  lemma FeedTells(p: State, ch: byte)
    requires p.mode.InSubopt? || p.mode.SuboptEscape? ==> p.data == []
    ensures Atoms(Feed(p, ch).1) + Octets(Feed(p, ch).0.data) == Octets(p.data) + Learned(p, ch)
  {
    match p.mode
    case Normal => OctetsAppend(p.data, [ch]);
    case Escape => EscapeTells(p, ch);
    case SubNeg(request) => AtomsOfDataThen(p.data, Negotiation(request, ch));
    case SuboptNum =>
      AtomsOfData(p.data, []);
      assert DataToken(p.data) + [] == DataToken(p.data);
    case InSubopt(_, _) =>
    case SuboptEscape(subtype, raw) => AtomsOfDataThen([], Sub(subtype, raw, Cook(raw)));
  }

  lemma EscapeTells(p: State, ch: byte)
    requires p.mode == Escape
    ensures Atoms(Feed(p, ch).1) + Octets(Feed(p, ch).0.data) == Octets(p.data) + Learned(p, ch)
  {
    if ch == IAC {
      OctetsAppend(p.data, [IAC]);
      AtomsOfData(p.data + [IAC], []);
      assert DataToken(p.data + [IAC]) + [] == [Data(p.data + [IAC])];
    } else if IsCommand(ch) {
      AtomsOfDataThen(p.data, Command(ch));
    } else {
      OctetsAppend(p.data, [IAC, ch]);
    }
  }

  lemma ScanPair(ch: byte, rest: seq<byte>)
    requires ch != SB && !IsNegotiation(ch)
    ensures Scan([IAC, ch] + rest) == Learned(State([], Escape), ch) + Scan(rest)
  {
    assert ([IAC, ch] + rest)[2..] == rest;
  }

  lemma ScanNegotiation(request: byte, option: byte, rest: seq<byte>)
    requires IsNegotiation(request)
    ensures Scan([IAC, request, option] + rest) == [Control(Negotiation(request, option))] + Scan(rest)
  {
    assert ([IAC, request, option] + rest)[3..] == rest;
  }

  lemma ScanExtended(rest: seq<byte>)
    ensures Scan([IAC, SB, 255] + rest) == Scan(rest)
  {
    assert ([IAC, SB, 255] + rest)[3..] == rest;
  }

  lemma ScanSuboption(subtype: byte, raw: seq<byte>, rest: seq<byte>)
    requires subtype != 255 && Closed(raw)
    ensures Scan([IAC, SB, subtype] + raw + [IAC, SE] + rest) == [Control(Sub(subtype, raw, Cook(raw)))] + Scan(rest)
  {
    var s := [IAC, SB, subtype] + raw + [IAC, SE] + rest;
    FindEndOfClosed(raw, rest);
    assert s[3..] == raw + [IAC, SE] + rest;
    assert s[3..3 + |raw|] == raw;
    assert s[3 + |raw| + 2..] == rest;
  }

  /** The grammar byte by byte. Any byte but 255 is data, and so is a doubled 255. */
  lemma DataIsRead(b: byte, rest: seq<byte>)
    ensures b != 255 ==> Scan([b] + rest) == [Octet(b)] + Scan(rest)
    ensures Scan([255, 255] + rest) == [Octet(255)] + Scan(rest)
  {
    assert ([b] + rest)[1..] == rest;
    ScanPair(255, rest);
  }

  /** After a 255, exactly the bytes 236 to 239 and 241 to 249 are commands; go-ahead, 249, is one. */
  lemma CommandIsRead(ch: byte, rest: seq<byte>)
    ensures Scan([255, ch]) == [Control(Command(ch))] <==> 236 <= ch <= 239 || 241 <= ch <= 249
    ensures 236 <= ch <= 239 || 241 <= ch <= 249 ==> Scan([255, ch] + rest) == [Control(Command(ch))] + Scan(rest)
  {
    if !(250 <= ch <= 254) {
      ScanPair(ch, rest);
      ScanPair(ch, []);
      assert [255, ch] + [] == [255, ch];
      assert (Learned(State([], Escape), ch) + Scan([]))[0] == Learned(State([], Escape), ch)[0];
    }
  }

  /** The bytes 251 to 254 are negotiations, together with the byte that follows, and no others are. */
  lemma NegotiationIsRead(ch: byte, option: byte, rest: seq<byte>)
    ensures Scan([255, ch, option]) == [Control(Negotiation(ch, option))] <==> 251 <= ch <= 254
    ensures 251 <= ch <= 254 ==> Scan([255, ch, option] + rest) == [Control(Negotiation(ch, option))] + Scan(rest)
  {
    if 251 <= ch <= 254 {
      ScanNegotiation(ch, option, rest);
      ScanNegotiation(ch, option, []);
      assert [255, ch, option] + [] == [255, ch, option];
    } else if ch == 250 {
      assert [255, ch, option][3..] == [];
    } else {
      ScanPair(ch, [option]);
      assert [255, ch] + [option] == [255, ch, option];
      assert Scan([255, ch, option])[0] == Learned(State([], Escape), ch)[0];
    }
  }

  /** Any other byte after a 255 is data, together with the 255; 250 begins a suboption instead. */
  lemma OtherPairIsRead(ch: byte, rest: seq<byte>)
    requires ch < 236 || ch == 240
    ensures Scan([255, ch] + rest) == [Octet(255), Octet(ch)] + Scan(rest)
  {
    ScanPair(ch, rest);
  }

  /** A suboption is what lies between 255, 250 and its type, and the first unpaired 255 before a 240. A type of 255
      is dropped with the 255, 250 before it. */
  lemma SuboptionIsRead(subtype: byte, raw: seq<byte>, rest: seq<byte>)
    requires Closed(raw)
    ensures subtype != 255 ==>
            Scan([255, 250, subtype] + raw + [255, 240] + rest) == [Control(Sub(subtype, raw, Cook(raw)))] + Scan(rest)
    ensures Scan([255, 250, 255] + rest) == Scan(rest)
  {
    if subtype != 255 {
      ScanSuboption(subtype, raw, rest);
    }
    ScanExtended(rest);
  }

  /** Data that makes up whole units, piece by piece: a byte other than 255, or a 255 and a byte other than 240. */
  lemma ClosedByPieces(a: seq<byte>, b: byte)
    requires Closed(a)
    ensures Closed([])
    ensures b != 255 ==> Closed(a + [b])
    ensures b != 240 ==> Closed(a + [255, b])
    ensures !Closed(a + [255]) && !Closed(a + [255, 240])
  {
    if b != 255 {
      ClosedSnoc(a, [b]);
    }
    if b != 240 {
      ClosedSnoc(a, [255, b]);
    }
    UnitIsMissing(a, [255]);
    UnitIsMissing(a, [255, 240]);
  }

  lemma {:induction false} UnitIsMissing(a: seq<byte>, b: seq<byte>)
    requires Closed(a) && b != [] && UnitLength(b) == 0
    ensures !Closed(a + b)
  {
    if a == [] {
      assert a + b == b;
    } else {
      var n := UnitLength(a);
      assert (a + b)[n..] == a[n..] + b;
      UnitIsMissing(a[n..], b);
    }
  }

  /** The cooked data, piece by piece: a doubled 255 becomes one, everything else stays, also a 255 before another
      byte, and one at the very end. */
  lemma CookedByPieces(a: seq<byte>, b: byte, more: seq<byte>)
    requires Closed(a)
    ensures Cook([]) == []
    ensures b != 255 ==> Cook(a + [b] + more) == Cook(a) + [b] + Cook(more)
    ensures Cook(a + [255, 255] + more) == Cook(a) + [255] + Cook(more)
    ensures b != 255 ==> Cook(a + [255, b] + more) == Cook(a) + [255, b] + Cook(more)
    ensures Cook(a + [255]) == Cook(a) + [255]
  {
    CookAppend(a, [b] + more);
    CookAppend(a, [255, 255] + more);
    CookAppend(a, [255, b] + more);
    assert ([b] + more)[1..] == more;
    assert ([255, 255] + more)[2..] == more && ([255, b] + more)[2..] == more;
    Chain(a, [b], more);
    Chain(a, [255, 255], more);
    Chain(a, [255, b], more);
    Chain(Cook(a), [b], Cook(more));
    Chain(Cook(a), [255], Cook(more));
    Chain(Cook(a), [255, b], Cook(more));
    CookAppend(a, [255]);
  }

  /** What one byte adds is what the grammar reads there, whatever follows. */
  lemma ScanLearns(p: State, ch: byte, rest: seq<byte>)
    requires Consistent(p.mode)
    ensures Scan(Held(p.mode) + [ch] + rest) == Learned(p, ch) + Scan(Held(Feed(p, ch).0.mode) + rest)
  {
    var s := Held(p.mode) + [ch] + rest;
    var after := Held(Feed(p, ch).0.mode) + rest;
    assert Held(Normal) + rest == rest;
    if Feed(p, ch).0.mode != Normal {
      assert after == s;
    } else {
      match p.mode
      case Normal => assert s[1..] == rest;
      case Escape =>
        assert s == [IAC, ch] + rest;
        ScanPair(ch, rest);
      case SubNeg(request) =>
        assert s == [IAC, request, ch] + rest;
        ScanNegotiation(request, ch, rest);
      case SuboptNum =>
        assert s == [IAC, SB, 255] + rest;
        ScanExtended(rest);
      case SuboptEscape(subtype, raw) =>
        assert s == [IAC, SB, subtype] + raw + [IAC, SE] + rest;
        ScanSuboption(subtype, raw, rest);
    }
  }

  predicate Proper(p: State) {
    Consistent(p.mode) && (p.mode.InSubopt? || p.mode.SuboptEscape? ==> p.data == [])
  }

  lemma StepScans(p: State, ch: byte, rest: seq<byte>)
    requires Proper(p)
    ensures Proper(Feed(p, ch).0)
    ensures Octets(p.data) + Scan(Held(p.mode) + [ch] + rest)
         == Atoms(Feed(p, ch).1) + (Octets(Feed(p, ch).0.data) + Scan(Held(Feed(p, ch).0.mode) + rest))
  {
    FeedConsistent(p, ch);
    FeedTells(p, ch);
    ScanLearns(p, ch, rest);
    var (q, ts) := Feed(p, ch);
    Regroup(Octets(p.data), Learned(p, ch), Scan(Held(q.mode) + rest), Atoms(ts), Octets(q.data));
  }

  lemma Regroup(a: seq<Atom>, b: seq<Atom>, c: seq<Atom>, d: seq<Atom>, e: seq<Atom>)
    requires a + b == d + e
    ensures a + (b + c) == d + (e + c)
  {
    Chain(a, b, c);
    Chain(d, e, c);
  }

  /** What there is to learn from `s`, counting the data already at hand. */
  function Reads(p: State, s: seq<byte>): seq<Atom> {
    Octets(p.data) + Scan(Held(p.mode) + s)
  }

  lemma StepReads(p: State, s: seq<byte>)
    requires Proper(p) && s != []
    ensures Proper(Feed(p, s[0]).0)
    ensures Reads(p, s) == Atoms(Feed(p, s[0]).1) + Reads(Feed(p, s[0]).0, s[1..])
  {
    StepScans(p, s[0], s[1..]);
    HeadAndTail(Held(p.mode), s);
  }

  lemma ReadsNothing(p: State)
    requires Proper(p)
    ensures Reads(p, []) == Octets(p.data)
  {
    HeldIsIncomplete(p.mode);
    assert Held(p.mode) + [] == Held(p.mode);
  }

  /** A whole string, from any state the machine can be in. */
  lemma {:induction false} RunScans(p: State, s: seq<byte>)
    requires Proper(p)
    ensures Proper(Run(p, s).0)
    ensures Reads(p, s) == Atoms(Run(p, s).1) + Octets(Run(p, s).0.data)
    decreases |s|
  {
    if s == [] {
      ReadsNothing(p);
    } else {
      StepReads(p, s);
      var (q, ts) := Feed(p, s[0]);
      RunScans(q, s[1..]);
      var (r, us) := Run(q, s[1..]);
      AtomsAppend(ts, us);
      Chain(Atoms(ts), Atoms(us), Octets(r.data));
    }
  }

  /** Nothing held is a complete element. */
  lemma HeldIsIncomplete(m: Mode)
    requires Consistent(m)
    ensures Scan(Held(m)) == []
  {
    match m
    case InSubopt(_, raw) =>
      assert Held(m)[3..] == raw;
      FindEndOfClosed(raw, []);
    case SuboptEscape(_, raw) =>
      assert Held(m)[3..] == raw + [IAC];
      FindEndOfClosed(raw, []);
    case _ =>
  }
}
