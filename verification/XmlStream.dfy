/** What the XML lexer does with each character: states, the events they lead to, and buffers that do not matter. */
module XmlStream {
  import opened Basics

  const TAB: byte := 0x09
  const NEWLINE: byte := 0x0A
  const RETURN: byte := 0x0D
  const SPACE: byte := 0x20
  const EXCLAMATION: byte := 0x21
  const DOUBLEQUOTE: byte := 0x22
  const SINGLEQUOTE: byte := 0x27
  const DASH: byte := 0x2D
  const DOT: byte := 0x2E
  const SLASH: byte := 0x2F
  const COLON: byte := 0x3A
  const LESSTHAN: byte := 0x3C
  const EQUALS: byte := 0x3D
  const GREATERTHAN: byte := 0x3E

  const NAME_SIZE := 256

  predicate IsWhite(c: byte) {
    c == SPACE || c == TAB || c == NEWLINE || c == RETURN
  }

  predicate IsNameStart(c: byte) {
    || c == COLON || 0x41 <= c <= 0x5A || c == 0x5F || 0x61 <= c <= 0x7A
    || 0xC0 <= c <= 0xD6 || 0xD8 <= c <= 0xF6 || 0xF8 <= c
  }

  predicate IsNameBody(c: byte) {
    IsNameStart(c) || 0x30 <= c <= 0x39 || c == DOT || c == DASH || c == 0xB7
  }

  /** A place in a buffer; the offset may be one past the last character. */
  datatype Position = Position(handle: nat, offset: nat)

  datatype Event =
    | StartTag(begin: Position, name: seq<byte>)
    | Attribute(begin: Position, end: Position, valbegin: Position, valend: Position, name: seq<byte>)
    | EndTag(end: Position, wasempty: bool)
    | CloseTag(begin: Position, end: Position, name: seq<byte>)

  datatype NameOf = OpenTag(begin: Position) | CloseOf(begin: Position) | AttributeOf(begin: Position)

  /** Between characters. Each state carries the positions that may still be reported, and no others. */
  datatype State =
    | Bad(held: Option<Position>)
    | Start
    | Less(begin: Position)
    | CommentExcl
    | CommentExclDash
    | InComment
    | DashInComment
    | DashDashInComment
    | InName(kind: NameOf, name: seq<byte>)
    | InOpenElement
    | EmptyElementEnd
    | CloseStart(begin: Position)
    | InCloseElement(begin: Position, name: seq<byte>)
    | AfterAttributeName(begin: Position, name: seq<byte>)
    | AfterEquals(begin: Position, name: seq<byte>)
    | InValue(begin: Position, valbegin: Position, name: seq<byte>, quote: byte)

  /** A name that does not fit raises an exception; the calls made before it stand. */
  datatype Outcome = Went(state: State, events: seq<Event>) | Threw(events: seq<Event>)

  function Quiet(s: State): Outcome {
    Went(s, [])
  }

  /** The first character after a name. */
  function NameEnds(kind: NameOf, name: seq<byte>, c: byte, next: Position): Outcome {
    match kind
    case OpenTag(begin) =>
      var started := StartTag(begin, name);
      if c == GREATERTHAN then Went(Start, [started, EndTag(next, false)])
      else if IsWhite(c) then Went(InOpenElement, [started])
      else if c == SLASH then Went(EmptyElementEnd, [started])
      else Went(Bad(None), [started])
    case CloseOf(begin) =>
      if IsWhite(c) then Quiet(InCloseElement(begin, name))
      else if c == GREATERTHAN then Went(Start, [CloseTag(begin, next, name)])
      else Quiet(Bad(Some(begin)))
    case AttributeOf(begin) =>
      if c == EQUALS then Quiet(AfterEquals(begin, name))
      else if IsWhite(c) then Quiet(AfterAttributeName(begin, name))
      else Quiet(Bad(Some(begin)))
  }

  /** One character `c` that lies at `here`, just before `next`. */
  function Step(s: State, c: byte, here: Position, next: Position, nonws: bool): Outcome {
    match s
    case Bad(_) => Quiet(s)
    case Start =>
      if c == LESSTHAN then Quiet(Less(here)) else if nonws || IsWhite(c) then Quiet(s) else Quiet(Bad(None))
    case Less(begin) =>
      if c == EXCLAMATION then Quiet(CommentExcl)
      else if IsNameStart(c) then Quiet(InName(OpenTag(begin), [c]))
      else if c == SLASH then Quiet(CloseStart(begin))
      else Quiet(Bad(Some(begin)))
    case CommentExcl => if c == DASH then Quiet(CommentExclDash) else Quiet(Bad(None))
    case CommentExclDash => if c == DASH then Quiet(InComment) else Quiet(Bad(None))
    case InComment => if c == DASH then Quiet(DashInComment) else Quiet(s)
    case DashInComment => if c == DASH then Quiet(DashDashInComment) else Quiet(InComment)
    case DashDashInComment => if c == GREATERTHAN then Quiet(Start) else Quiet(InComment)
    case InName(kind, name) =>
      if !IsNameBody(c) then NameEnds(kind, name, c, next)
      else if |name| >= NAME_SIZE then Threw([])
      else Quiet(InName(kind, name + [c]))
    case InOpenElement =>
      if c == GREATERTHAN then Went(Start, [EndTag(next, false)])
      else if c == SLASH then Quiet(EmptyElementEnd)
      else if IsNameStart(c) then Quiet(InName(AttributeOf(here), [c]))
      else if IsWhite(c) then Quiet(s)
      else Quiet(Bad(None))
    case EmptyElementEnd =>
      if c == GREATERTHAN then Went(Start, [EndTag(next, true)]) else Quiet(Bad(None))
    case CloseStart(begin) =>
      if IsNameStart(c) then Quiet(InName(CloseOf(begin), [c])) else Quiet(Bad(Some(begin)))
    case InCloseElement(begin, name) =>
      if c == GREATERTHAN then Went(Start, [CloseTag(begin, next, name)])
      else if IsWhite(c) then Quiet(s)
      else Quiet(Bad(Some(begin)))
    case AfterAttributeName(begin, name) =>
      if c == EQUALS then Quiet(AfterEquals(begin, name)) else if IsWhite(c) then Quiet(s) else Quiet(Bad(Some(begin)))
    case AfterEquals(begin, name) =>
      if c == DOUBLEQUOTE || c == SINGLEQUOTE then Quiet(InValue(begin, next, name, c))
      else if IsWhite(c) then Quiet(s)
      else Quiet(Bad(Some(begin)))
    case InValue(begin, valbegin, name, quote) =>
      if c == quote then Went(InOpenElement, [Attribute(begin, next, valbegin, here, name)])
      else if c == LESSTHAN then Quiet(Bad(Some(begin)))
      else Quiet(s)
  }

  function After(events: seq<Event>, later: Outcome): Outcome {
    match later
    case Went(s, es) => Went(s, events + es)
    case Threw(es) => Threw(events + es)
  }

  /** One buffer, from offset `off` of the buffer called `h` on. */
  function Run(s: State, text: seq<byte>, h: nat, off: nat, nonws: bool): Outcome
    decreases |text|
  {
    if text == [] then Quiet(s)
    else
      match Step(s, text[0], Position(h, off), Position(h, off + 1), nonws)
      case Went(s', es) => After(es, Run(s', text[1..], h, off + 1, nonws))
      case Threw(es) => Threw(es)
  }

  lemma {:induction false} RunAppend(s: State, a: seq<byte>, b: seq<byte>, h: nat, off: nat, nonws: bool)
    ensures Run(s, a + b, h, off, nonws)
         == match Run(s, a, h, off, nonws)
            case Went(s', es) => After(es, Run(s', b, h, off + |a|, nonws))
            case Threw(es) => Threw(es)
    decreases |a|
  {
    if a == [] {
      assert a + b == b;
      AfterNothing(Run(s, b, h, off, nonws));
    } else {
      assert (a + b)[1..] == a[1..] + b;
      var o := Step(s, a[0], Position(h, off), Position(h, off + 1), nonws);
      if o.Went? {
        RunAppend(o.state, a[1..], b, h, off + 1, nonws);
        var p := Run(o.state, a[1..], h, off + 1, nonws);
        if p.Went? {
          AfterAfter(o.events, p.events, Run(p.state, b, h, off + |a|, nonws));
        }
      }
    }
  }

  lemma AfterNothing(o: Outcome)
    ensures After([], o) == o
  {
    assert [] + o.events == o.events;
  }

  lemma AfterAfter(a: seq<Event>, b: seq<Event>, o: Outcome)
    ensures After(a, After(b, o)) == After(a + b, o)
  {
    assert a + (b + o.events) == (a + b) + o.events;
  }

  // ----- Buffers -----

  /** One call after the other, buffer `k` under the handle the caller gave it. */
  function LexAll(s: State, bufs: seq<seq<byte>>, handles: seq<nat>, nonws: bool): Outcome
    requires |bufs| == |handles|
    decreases |bufs|
  {
    if bufs == [] then Quiet(s)
    else
      match Run(s, bufs[0], handles[0], 0, nonws)
      case Went(s', es) => After(es, LexAll(s', bufs[1..], handles[1..], nonws))
      case Threw(es) => Threw(es)
  }

  /** Where a position lies in the concatenation of the buffers, if buffer `h` starts at `starts[h]`. */
  function Absolute(p: Position, starts: map<nat, nat>): Position {
    Position(0, (if p.handle in starts then starts[p.handle] else 0) + p.offset)
  }

  function AbsoluteEvent(e: Event, starts: map<nat, nat>): Event {
    match e
    case StartTag(begin, name) => StartTag(Absolute(begin, starts), name)
    case Attribute(begin, end, valbegin, valend, name) =>
      Attribute(Absolute(begin, starts), Absolute(end, starts),
                Absolute(valbegin, starts), Absolute(valend, starts), name)
    case EndTag(end, wasempty) => EndTag(Absolute(end, starts), wasempty)
    case CloseTag(begin, end, name) => CloseTag(Absolute(begin, starts), Absolute(end, starts), name)
  }

  function AbsoluteEvents(es: seq<Event>, starts: map<nat, nat>): seq<Event> {
    seq(|es|, i requires 0 <= i < |es| => AbsoluteEvent(es[i], starts))
  }

  function AbsoluteName(k: NameOf, starts: map<nat, nat>): NameOf {
    match k
    case OpenTag(begin) => OpenTag(Absolute(begin, starts))
    case CloseOf(begin) => CloseOf(Absolute(begin, starts))
    case AttributeOf(begin) => AttributeOf(Absolute(begin, starts))
  }

  function AbsoluteState(s: State, starts: map<nat, nat>): State {
    match s
    case Bad(Some(p)) => Bad(Some(Absolute(p, starts)))
    case Less(begin) => Less(Absolute(begin, starts))
    case InName(kind, name) => InName(AbsoluteName(kind, starts), name)
    case CloseStart(begin) => CloseStart(Absolute(begin, starts))
    case InCloseElement(begin, name) => InCloseElement(Absolute(begin, starts), name)
    case AfterAttributeName(begin, name) => AfterAttributeName(Absolute(begin, starts), name)
    case AfterEquals(begin, name) => AfterEquals(Absolute(begin, starts), name)
    case InValue(begin, valbegin, name, quote) =>
      InValue(Absolute(begin, starts), Absolute(valbegin, starts), name, quote)
    case _ => s
  }

  function AbsoluteOutcome(o: Outcome, starts: map<nat, nat>): Outcome {
    match o
    case Went(s, es) => Went(AbsoluteState(s, starts), AbsoluteEvents(es, starts))
    case Threw(es) => Threw(AbsoluteEvents(es, starts))
  }

  /** The lexer looks at positions only to report them. */
  lemma StepIgnoresPositions(s: State, c: byte, here: Position, next: Position, nonws: bool, starts: map<nat, nat>)
    ensures AbsoluteOutcome(Step(s, c, here, next, nonws), starts)
         == Step(AbsoluteState(s, starts), c, Absolute(here, starts), Absolute(next, starts), nonws)
  {
    if s.InName? {
      NameEndsIgnoresPositions(s.kind, s.name, c, next, starts);
    } else if s.AfterAttributeName? || s.AfterEquals? || s.InValue? {
      AttributeIgnoresPositions(s, c, here, next, nonws, starts);
    }
  }

  lemma AttributeIgnoresPositions(
    s: State, c: byte, here: Position, next: Position, nonws: bool, starts: map<nat, nat>)
    requires s.AfterAttributeName? || s.AfterEquals? || s.InValue?
    ensures AbsoluteOutcome(Step(s, c, here, next, nonws), starts)
         == Step(AbsoluteState(s, starts), c, Absolute(here, starts), Absolute(next, starts), nonws)
  {
  }

  lemma NameEndsIgnoresPositions(kind: NameOf, name: seq<byte>, c: byte, next: Position, starts: map<nat, nat>)
    ensures AbsoluteOutcome(NameEnds(kind, name, c, next), starts)
         == NameEnds(AbsoluteName(kind, starts), name, c, Absolute(next, starts))
  {
  }

  lemma AbsoluteAfter(es: seq<Event>, o: Outcome, starts: map<nat, nat>)
    ensures AbsoluteOutcome(After(es, o), starts) == After(AbsoluteEvents(es, starts), AbsoluteOutcome(o, starts))
  {
    assert AbsoluteEvents(es + o.events, starts) == AbsoluteEvents(es, starts) + AbsoluteEvents(o.events, starts);
  }

  lemma {:induction false} RunIgnoresPositions(
    s: State, text: seq<byte>, h: nat, off: nat, nonws: bool, starts: map<nat, nat>)
    requires h in starts
    ensures AbsoluteOutcome(Run(s, text, h, off, nonws), starts)
         == Run(AbsoluteState(s, starts), text, 0, starts[h] + off, nonws)
    decreases |text|
  {
    if text != [] {
      var o := Step(s, text[0], Position(h, off), Position(h, off + 1), nonws);
      var later := if o.Went? then Run(o.state, text[1..], h, off + 1, nonws) else o;
      StepIgnoresPositions(s, text[0], Position(h, off), Position(h, off + 1), nonws, starts);
      if o.Went? {
        RunIgnoresPositions(o.state, text[1..], h, off + 1, nonws, starts);
        AbsoluteAfter(o.events, later, starts);
      }
      RunFirst(s, text, h, off, nonws, o, later);
      RunFirst(AbsoluteState(s, starts), text, 0, starts[h] + off, nonws,
               AbsoluteOutcome(o, starts), AbsoluteOutcome(later, starts));
    }
  }

  lemma RunFirst(s: State, text: seq<byte>, h: nat, off: nat, nonws: bool, o: Outcome, later: Outcome)
    requires text != [] && o == Step(s, text[0], Position(h, off), Position(h, off + 1), nonws)
    requires o.Went? ==> later == Run(o.state, text[1..], h, off + 1, nonws)
    ensures Run(s, text, h, off, nonws) == if o.Went? then After(o.events, later) else o
  {
  }

  /** `starts` says where each buffer starts in the concatenation, the first of them at `base`. */
  ghost predicate StartsAt(bufs: seq<seq<byte>>, handles: seq<nat>, starts: map<nat, nat>, base: nat)
    requires |bufs| == |handles|
    decreases |bufs|
  {
    bufs == [] || (
      && handles[0] in starts && starts[handles[0]] == base
      && StartsAt(bufs[1..], handles[1..], starts, base + |bufs[0]|))
  }

  /** However a text is cut into buffers, the lexer sees the same events at the same places. */
  lemma {:induction false} BuffersDoNotMatter(
    s: State, bufs: seq<seq<byte>>, handles: seq<nat>, nonws: bool, starts: map<nat, nat>, base: nat)
    requires |bufs| == |handles| && StartsAt(bufs, handles, starts, base)
    ensures AbsoluteOutcome(LexAll(s, bufs, handles, nonws), starts)
         == Run(AbsoluteState(s, starts), Concat(bufs), 0, base, nonws)
    decreases |bufs|
  {
    if bufs != [] {
      var abs := AbsoluteState(s, starts);
      RunIgnoresPositions(s, bufs[0], handles[0], 0, nonws, starts);
      RunAppend(abs, bufs[0], Concat(bufs[1..]), 0, base, nonws);
      var o := Run(s, bufs[0], handles[0], 0, nonws);
      if o.Went? {
        BuffersDoNotMatter(o.state, bufs[1..], handles[1..], nonws, starts, base + |bufs[0]|);
        AbsoluteAfter(o.events, LexAll(o.state, bufs[1..], handles[1..], nonws), starts);
      }
    }
  }

  // ----- Which buffers are still needed -----

  /** The position whose buffer `lex` hands back, if any. */
  function Retained(s: State): Option<Position> {
    match s
    case Bad(held) => held
    case Less(begin) => Some(begin)
    case InName(kind, _) => Some(kind.begin)
    case CloseStart(begin) => Some(begin)
    case InCloseElement(begin, _) => Some(begin)
    case AfterAttributeName(begin, _) => Some(begin)
    case AfterEquals(begin, _) => Some(begin)
    case InValue(begin, _, _, _) => Some(begin)
    case _ => None
  }

  /** Every position the state may still report lies in buffer `h` or a later one. */
  predicate From(s: State, h: nat) {
    (Retained(s).Some? ==> Retained(s).value.handle >= h) && (s.InValue? ==> s.valbegin.handle >= h)
  }

  predicate EventFrom(e: Event, h: nat) {
    match e
    case StartTag(begin, _) => begin.handle >= h
    case Attribute(begin, end, valbegin, valend, _) =>
      begin.handle >= h && end.handle >= h && valbegin.handle >= h && valend.handle >= h
    case EndTag(end, _) => end.handle >= h
    case CloseTag(begin, end, _) => begin.handle >= h && end.handle >= h
  }

  predicate EventsFrom(es: seq<Event>, h: nat) {
    forall i | 0 <= i < |es| :: EventFrom(es[i], h)
  }

  /** An attribute value never starts in an earlier buffer than its attribute, and nothing lies in a buffer to come. */
  predicate Ordered(s: State, latest: nat) {
    && (Retained(s).Some? ==> Retained(s).value.handle <= latest)
    && (s.InValue? ==> s.begin.handle <= s.valbegin.handle <= latest)
  }

  lemma {:induction false} RunStaysOrdered(s: State, text: seq<byte>, h: nat, off: nat, nonws: bool, latest: nat)
    requires Ordered(s, latest) && latest <= h
    ensures Run(s, text, h, off, nonws).Went? ==> Ordered(Run(s, text, h, off, nonws).state, h)
    decreases |text|
  {
    if text != [] {
      var o := Step(s, text[0], Position(h, off), Position(h, off + 1), nonws);
      if o.Went? {
        RunStaysOrdered(o.state, text[1..], h, off + 1, nonws, h);
      }
    }
  }

  lemma {:induction false} RunReportsFrom(s: State, text: seq<byte>, h: nat, off: nat, nonws: bool, least: nat)
    requires From(s, least) && least <= h
    ensures EventsFrom(Run(s, text, h, off, nonws).events, least)
    ensures Run(s, text, h, off, nonws).Went? ==> From(Run(s, text, h, off, nonws).state, least)
    decreases |text|
  {
    if text != [] {
      var o := Step(s, text[0], Position(h, off), Position(h, off + 1), nonws);
      StepReportsFrom(s, text[0], Position(h, off), Position(h, off + 1), nonws, least);
      if o.Went? {
        RunReportsFrom(o.state, text[1..], h, off + 1, nonws, least);
      }
    }
  }

  lemma StepReportsFrom(s: State, c: byte, here: Position, next: Position, nonws: bool, least: nat)
    requires From(s, least) && least <= here.handle && least <= next.handle
    ensures EventsFrom(Step(s, c, here, next, nonws).events, least)
    ensures Step(s, c, here, next, nonws).Went? ==> From(Step(s, c, here, next, nonws).state, least)
  {
  }

  lemma {:induction false} LexAllReportsFrom(
    s: State, bufs: seq<seq<byte>>, handles: seq<nat>, nonws: bool, least: nat)
    requires |bufs| == |handles| && From(s, least) && forall i | 0 <= i < |handles| :: least <= handles[i]
    ensures EventsFrom(LexAll(s, bufs, handles, nonws).events, least)
    decreases |bufs|
  {
    if bufs != [] {
      RunReportsFrom(s, bufs[0], handles[0], 0, nonws, least);
      var o := Run(s, bufs[0], handles[0], 0, nonws);
      if o.Went? {
        LexAllReportsFrom(o.state, bufs[1..], handles[1..], nonws, least);
      }
    }
  }

  /** Between calls: whatever comes in later buffers, every position reported lies in the buffer handed back or
      a later one, and in a new one if none was handed back. The buffers before it are no longer needed. */
  lemma RetentionIsEnough(s: State, latest: nat, bufs: seq<seq<byte>>, handles: seq<nat>, nonws: bool)
    requires |bufs| == |handles| && Ordered(s, latest) && forall i | 0 <= i < |handles| :: latest < handles[i]
    ensures EventsFrom(LexAll(s, bufs, handles, nonws).events,
                       if Retained(s).Some? then Retained(s).value.handle else latest + 1)
  {
    LexAllReportsFrom(s, bufs, handles, nonws, if Retained(s).Some? then Retained(s).value.handle else latest + 1);
  }

  /** The buffer handed back cannot be dropped: unless the text is bad, some continuation reports the position. */
  lemma RetentionIsNeeded(s: State, h: nat, nonws: bool) returns (more: seq<byte>, e: Event)
    requires Retained(s).Some? && !s.Bad?
    ensures Run(s, more, h, 0, nonws).Went? && e in Run(s, more, h, 0, nonws).events
    ensures (e.StartTag? || e.CloseTag? || e.Attribute?) && e.begin == Retained(s).value
  {
    match s
    case Less(begin) =>
      more, e := [COLON, SPACE], StartTag(begin, [COLON]);
      RunPair(s, COLON, SPACE, h, 0, nonws);
    case InName(OpenTag(begin), name) =>
      more, e := [SPACE], StartTag(begin, name);
      RunOne(s, SPACE, h, 0, nonws);
    case InName(CloseOf(begin), name) =>
      more, e := [GREATERTHAN], CloseTag(begin, Position(h, 1), name);
      RunOne(s, GREATERTHAN, h, 0, nonws);
    case InName(AttributeOf(begin), name) =>
      more, e := EmptyValue(s, begin, name, h, nonws);
    case CloseStart(begin) =>
      more, e := [COLON, GREATERTHAN], CloseTag(begin, Position(h, 2), [COLON]);
      RunPair(s, COLON, GREATERTHAN, h, 0, nonws);
    case InCloseElement(begin, name) =>
      more, e := [GREATERTHAN], CloseTag(begin, Position(h, 1), name);
      RunOne(s, GREATERTHAN, h, 0, nonws);
    case AfterAttributeName(begin, name) =>
      more, e := EmptyValue(s, begin, name, h, nonws);
    case AfterEquals(begin, name) =>
      more, e := [SINGLEQUOTE, SINGLEQUOTE], Attribute(begin, Position(h, 2), Position(h, 1), Position(h, 1), name);
      RunPair(s, SINGLEQUOTE, SINGLEQUOTE, h, 0, nonws);
    case InValue(begin, valbegin, name, quote) =>
      more, e := [quote], Attribute(begin, Position(h, 1), valbegin, Position(h, 0), name);
      RunOne(s, quote, h, 0, nonws);
  }

  lemma EmptyValue(s: State, begin: Position, name: seq<byte>, h: nat, nonws: bool) returns (more: seq<byte>, e: Event)
    requires s == InName(AttributeOf(begin), name) || s == AfterAttributeName(begin, name)
    ensures Run(s, more, h, 0, nonws) == Went(InOpenElement, [e])
    ensures e == Attribute(begin, Position(h, 3), Position(h, 2), Position(h, 2), name)
  {
    more := [EQUALS, SINGLEQUOTE, SINGLEQUOTE];
    e := Attribute(begin, Position(h, 3), Position(h, 2), Position(h, 2), name);
    assert more == [EQUALS] + [SINGLEQUOTE, SINGLEQUOTE];
    RunOne(s, EQUALS, h, 0, nonws);
    EmptyQuotes(begin, name, h, nonws, e);
    RunAppend(s, [EQUALS], [SINGLEQUOTE, SINGLEQUOTE], h, 0, nonws);
    assert [] + [e] == [e];
  }

  lemma EmptyQuotes(begin: Position, name: seq<byte>, h: nat, nonws: bool, e: Event)
    requires e == Attribute(begin, Position(h, 3), Position(h, 2), Position(h, 2), name)
    ensures Run(AfterEquals(begin, name), [SINGLEQUOTE, SINGLEQUOTE], h, 1, nonws) == Went(InOpenElement, [e])
  {
    RunPair(AfterEquals(begin, name), SINGLEQUOTE, SINGLEQUOTE, h, 1, nonws);
    assert [] + [e] == [e];
  }

  lemma RunOne(s: State, c: byte, h: nat, off: nat, nonws: bool)
    ensures Run(s, [c], h, off, nonws) == Step(s, c, Position(h, off), Position(h, off + 1), nonws)
  {
    var o := Step(s, c, Position(h, off), Position(h, off + 1), nonws);
    if o.Went? {
      assert o.events + [] == o.events;
    }
  }

  lemma RunPair(s: State, a: byte, b: byte, h: nat, off: nat, nonws: bool)
    requires Step(s, a, Position(h, off), Position(h, off + 1), nonws).Went?
    ensures var o := Step(s, a, Position(h, off), Position(h, off + 1), nonws);
            Run(s, [a, b], h, off, nonws)
            == After(o.events, Step(o.state, b, Position(h, off + 1), Position(h, off + 2), nonws))
  {
    var o := Step(s, a, Position(h, off), Position(h, off + 1), nonws);
    assert [a, b][1..] == [b];
    RunOne(o.state, b, h, off + 1, nonws);
  }
}
