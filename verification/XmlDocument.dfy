/** Documents as trees, their printed form, the events they stand for, and the lexer as the inverse of printing. */
module XmlDocument {
  import opened Basics
  import opened XmlStream

  /** An attribute with the white space around it: before the name, and on both sides of the equals sign. */
  datatype Attr = Attr(
    lead: seq<byte>, name: seq<byte>, beforeEq: seq<byte>, afterEq: seq<byte>, quote: byte, value: seq<byte>)

  datatype Node =
    | Text(text: seq<byte>)
    | Comment(body: seq<byte>)
    | Element(name: seq<byte>, attrs: seq<Attr>, gap: seq<byte>, empty: bool, kids: seq<Node>, closeGap: seq<byte>)

  // The alphabet of documents, in the byte values of Latin-1 and ASCII and without regard to the lexer.

  /** Space, tab, line feed and carriage return. */
  predicate White(c: byte) {
    c == 32 || c == 9 || c == 10 || c == 13
  }

  /** A colon, an underscore, or a letter; the letters from 192 on leave out 215 and 247. */
  predicate NameStart(c: byte) {
    || c == 58 || c == 95 || 65 <= c <= 90 || 97 <= c <= 122
    || 192 <= c <= 214 || 216 <= c <= 246 || 248 <= c <= 255
  }

  /** These, a digit, a full stop, a dash, or a middle dot. */
  predicate NameBody(c: byte) {
    NameStart(c) || 48 <= c <= 57 || c == 46 || c == 45 || c == 183
  }

  /** A name goes on with exactly these bytes. One too many raises an exception, and any other byte ends the name. */
  lemma NameGoesOnExactly(kind: NameOf, name: seq<byte>, c: byte, here: Position, next: Position, nonws: bool)
    ensures var o := Step(InName(kind, name), c, here, next, nonws);
            && (o == Went(InName(kind, name + [c]), []) <==> NameBody(c) && |name| < 256)
            && (o == Threw([]) <==> NameBody(c) && |name| >= 256)
            && (o.Went? && !o.state.InName? <==> !NameBody(c))
  {
  }

  predicate AllWhite(s: seq<byte>) {
    forall i | 0 <= i < |s| :: White(s[i])
  }

  predicate IsName(s: seq<byte>) {
    1 <= |s| <= 256 && NameStart(s[0]) && forall i | 0 <= i < |s| :: NameBody(s[i])
  }

  predicate ValidAttr(a: Attr) {
    && AllWhite(a.lead) && AllWhite(a.beforeEq) && AllWhite(a.afterEq)
    && IsName(a.name)
    && (a.quote == 39 || a.quote == 34)
    && forall i | 0 <= i < |a.value| :: a.value[i] != a.quote && a.value[i] != 60
  }

  /** Comments as in section 2.5 of XML 1.0: no two dashes in a row, and none at the end. */
  predicate ValidComment(body: seq<byte>) {
    forall i | 0 <= i < |body| && body[i] == 45 :: i + 1 < |body| && body[i + 1] != 45
  }

  /** Text between tags must be white space unless the lexer is told otherwise. */
  ghost predicate ValidNode(n: Node, nonws: bool) {
    match n
    case Text(text) => forall i | 0 <= i < |text| :: text[i] != 60 && (nonws || White(text[i]))
    case Comment(body) => ValidComment(body)
    case Element(name, attrs, gap, empty, kids, closeGap) =>
      && IsName(name) && AllWhite(closeGap) && ValidTag(attrs, gap)
      && forall i | 0 <= i < |kids| :: ValidNode(kids[i], nonws)
  }

  /** White space separates the name from the first attribute. */
  predicate ValidTag(attrs: seq<Attr>, gap: seq<byte>) {
    && AllWhite(gap)
    && (forall i | 0 <= i < |attrs| :: ValidAttr(attrs[i]))
    && (attrs != [] ==> attrs[0].lead != [])
  }

  // ----- Printing, with the signs as byte values: < is 60, > is 62, / is 47, = is 61, ! is 33 and - is 45 -----

  function PrintAttr(a: Attr): seq<byte> {
    a.lead + (a.name + (a.beforeEq + ([61] + (a.afterEq + ([a.quote] + (a.value + [a.quote]))))))
  }

  function PrintAttrs(attrs: seq<Attr>): seq<byte> {
    if attrs == [] then [] else PrintAttr(attrs[0]) + PrintAttrs(attrs[1..])
  }

  function TagEnd(empty: bool): seq<byte> {
    if empty then [47, 62] else [62]
  }

  function OpeningTag(name: seq<byte>, attrs: seq<Attr>, gap: seq<byte>, empty: bool): seq<byte> {
    [60] + (name + (PrintAttrs(attrs) + (gap + TagEnd(empty))))
  }

  function ClosingTag(name: seq<byte>, closeGap: seq<byte>): seq<byte> {
    [60, 47] + (name + (closeGap + [62]))
  }

  function Print(n: Node): seq<byte>
    decreases n, 1
  {
    match n
    case Text(text) => text
    case Comment(body) => [60, 33, 45, 45] + (body + [45, 45, 62])
    case Element(name, attrs, gap, empty, kids, closeGap) =>
      OpeningTag(name, attrs, gap, empty) + if empty then [] else PrintAll(kids) + ClosingTag(name, closeGap)
  }

  function PrintAll(nodes: seq<Node>): seq<byte>
    decreases nodes, 0
  {
    if nodes == [] then [] else Print(nodes[0]) + PrintAll(nodes[1..])
  }

  // ----- What should be reported -----

  function At(i: nat): Position {
    Position(0, i)
  }

  function AttrEvent(a: Attr, at: nat): Event {
    var begin := at + |a.lead|;
    var valbegin := begin + |a.name| + |a.beforeEq| + 1 + |a.afterEq| + 1;
    var valend := valbegin + |a.value|;
    Attribute(At(begin), At(valend + 1), At(valbegin), At(valend), a.name)
  }

  function AttrEvents(attrs: seq<Attr>, at: nat): seq<Event> {
    if attrs == [] then [] else [AttrEvent(attrs[0], at)] + AttrEvents(attrs[1..], at + |PrintAttr(attrs[0])|)
  }

  function OpeningEvents(name: seq<byte>, attrs: seq<Attr>, gap: seq<byte>, empty: bool, at: nat): seq<Event> {
    [StartTag(At(at), name)] + AttrEvents(attrs, at + 1 + |name|)
    + [EndTag(At(at + |OpeningTag(name, attrs, gap, empty)|), empty)]
  }

  function Events(n: Node, at: nat): seq<Event>
    decreases n, 1
  {
    match n
    case Text(_) => []
    case Comment(_) => []
    case Element(name, attrs, gap, empty, kids, closeGap) =>
      var inside := at + |OpeningTag(name, attrs, gap, empty)|;
      OpeningEvents(name, attrs, gap, empty, at)
      + if empty then [] else
        EventsAll(kids, inside)
        + [CloseTag(At(inside + |PrintAll(kids)|), At(inside + |PrintAll(kids)| + |ClosingTag(name, closeGap)|), name)]
  }

  function EventsAll(nodes: seq<Node>, at: nat): seq<Event>
    decreases nodes, 0
  {
    if nodes == [] then [] else Events(nodes[0], at) + EventsAll(nodes[1..], at + |Print(nodes[0])|)
  }

  // ----- Lexing pieces -----

  /** Reading `text` from `s` at `at` leads to `t` and reports `es`. */
  ghost predicate Reads(s: State, text: seq<byte>, at: nat, nonws: bool, t: State, es: seq<Event>) {
    Run(s, text, 0, at, nonws) == Went(t, es)
  }

  lemma ReadsThen(
    s: State, a: seq<byte>, at: nat, nonws: bool, t: State, es: seq<Event>, b: seq<byte>, u: State, fs: seq<Event>)
    requires Reads(s, a, at, nonws, t, es) && Reads(t, b, at + |a|, nonws, u, fs)
    ensures Reads(s, a + b, at, nonws, u, es + fs)
  {
    RunAppend(s, a, b, 0, at, nonws);
  }

  lemma ReadsOne(s: State, c: byte, at: nat, nonws: bool, t: State, es: seq<Event>)
    requires Step(s, c, At(at), At(at + 1), nonws) == Went(t, es)
    ensures Reads(s, [c], at, nonws, t, es)
  {
    RunOne(s, c, 0, at, nonws);
  }

  /** Characters that leave the state as it is. */
  ghost predicate Skips(s: State, c: byte, nonws: bool) {
    forall i: nat :: Step(s, c, At(i), At(i + 1), nonws) == Quiet(s)
  }

  lemma {:induction false} ReadsSkipped(s: State, text: seq<byte>, at: nat, nonws: bool)
    requires forall i | 0 <= i < |text| :: Skips(s, text[i], nonws)
    ensures Reads(s, text, at, nonws, s, [])
    decreases |text|
  {
    if text != [] {
      assert Skips(s, text[0], nonws);
      forall i | 0 <= i < |text[1..]|
        ensures Skips(s, text[1..][i], nonws)
      {
        assert text[1..][i] == text[i + 1];
      }
      ReadsSkipped(s, text[1..], at + 1, nonws);
      assert Step(s, text[0], At(at), At(at + 1), nonws) == Quiet(s);
      AfterNothing(Run(s, text[1..], 0, at + 1, nonws));
    }
  }

  /** White space is skipped in every state that waits for something. */
  lemma ReadsWhite(s: State, text: seq<byte>, at: nat, nonws: bool)
    requires AllWhite(text)
    requires s.InOpenElement? || s.InCloseElement? || s.AfterAttributeName? || s.AfterEquals?
    ensures Reads(s, text, at, nonws, s, [])
  {
    ReadsSkipped(s, text, at, nonws);
  }

  /** The rest of a name, as long as it fits. */
  lemma {:induction false} ReadsName(kind: NameOf, name: seq<byte>, more: seq<byte>, at: nat, nonws: bool)
    requires |name| + |more| <= NAME_SIZE && forall i | 0 <= i < |more| :: IsNameBody(more[i])
    ensures Reads(InName(kind, name), more, at, nonws, InName(kind, name + more), [])
    decreases |more|
  {
    if more == [] {
      assert name + more == name;
    } else {
      ReadsName(kind, name + [more[0]], more[1..], at + 1, nonws);
      assert name + [more[0]] + more[1..] == name + more;
      ReadsOne(InName(kind, name), more[0], at, nonws, InName(kind, name + [more[0]]), []);
      ReadsThen(InName(kind, name), [more[0]], at, nonws, InName(kind, name + [more[0]]), [],
                more[1..], InName(kind, name + more), []);
      assert [more[0]] + more[1..] == more;
    }
  }

  /** A whole name, from a state in which its first character starts it. */
  lemma ReadsWholeName(s: State, kind: NameOf, name: seq<byte>, at: nat, nonws: bool)
    requires IsName(name) && Step(s, name[0], At(at), At(at + 1), nonws) == Quiet(InName(kind, [name[0]]))
    ensures Reads(s, name, at, nonws, InName(kind, name), [])
  {
    ReadsOne(s, name[0], at, nonws, InName(kind, [name[0]]), []);
    ReadsName(kind, [name[0]], name[1..], at + 1, nonws);
    assert [name[0]] + name[1..] == name;
    ReadsThen(s, [name[0]], at, nonws, InName(kind, [name[0]]), [], name[1..], InName(kind, name), []);
  }

  // ----- Attributes -----

  lemma ReadsEquals(begin: Position, name: seq<byte>, beforeEq: seq<byte>, at: nat, nonws: bool)
    requires AllWhite(beforeEq)
    ensures Reads(InName(AttributeOf(begin), name), beforeEq + [EQUALS], at, nonws, AfterEquals(begin, name), [])
  {
    var s, w, t := InName(AttributeOf(begin), name), AfterAttributeName(begin, name), AfterEquals(begin, name);
    if beforeEq == [] {
      ReadsOne(s, EQUALS, at, nonws, t, []);
      assert beforeEq + [EQUALS] == [EQUALS];
    } else {
      var blank, more := beforeEq[0], beforeEq[1..];
      assert IsWhite(blank);
      ReadsOne(s, blank, at, nonws, w, []);
      ReadsWhite(w, more, at + 1, nonws);
      ReadsOne(w, EQUALS, at + |beforeEq|, nonws, t, []);
      ReadsThen(w, more, at + 1, nonws, w, [], [EQUALS], t, []);
      ReadsThen(s, [blank], at, nonws, w, [], more + [EQUALS], t, []);
      assert [blank] + (more + [EQUALS]) == beforeEq + [EQUALS];
    }
  }

  lemma ReadsValue(a: Attr, begin: Position, at: nat, nonws: bool, e: Event)
    requires ValidAttr(a)
    requires e == Attribute(begin, At(at + 1 + |a.value| + 1), At(at + 1), At(at + 1 + |a.value|), a.name)
    ensures Reads(AfterEquals(begin, a.name), [a.quote] + (a.value + [a.quote]), at, nonws, InOpenElement, [e])
  {
    var s, v := AfterEquals(begin, a.name), InValue(begin, At(at + 1), a.name, a.quote);
    ReadsOne(s, a.quote, at, nonws, v, []);
    ReadsSkipped(v, a.value, at + 1, nonws);
    ReadsOne(v, a.quote, at + 1 + |a.value|, nonws, InOpenElement, [e]);
    assert [] + [e] == [e];
    ReadsThen(v, a.value, at + 1, nonws, v, [], [a.quote], InOpenElement, [e]);
    ReadsThen(s, [a.quote], at, nonws, v, [], a.value + [a.quote], InOpenElement, [e]);
  }

  /** What follows the name of an attribute. */
  function AfterName(a: Attr): seq<byte> {
    a.beforeEq + ([EQUALS] + (a.afterEq + ([a.quote] + (a.value + [a.quote]))))
  }

  lemma ReadsAfterName(a: Attr, at: nat, nonws: bool)
    requires ValidAttr(a)
    ensures Reads(InName(AttributeOf(At(at + |a.lead|)), a.name), AfterName(a), at + |a.lead| + |a.name|, nonws,
                  InOpenElement, [AttrEvent(a, at)])
  {
    var begin := At(at + |a.lead|);
    var afterName := at + |a.lead| + |a.name|;
    ReadsValue(a, begin, afterName + |a.beforeEq| + 1 + |a.afterEq|, nonws, AttrEvent(a, at));
    ReadsAssigned(begin, a.name, a.beforeEq, a.afterEq, [a.quote] + (a.value + [a.quote]), [AttrEvent(a, at)],
                  afterName, nonws, AfterName(a));
  }

  /** The equals sign, with blanks around it, and then the value. */
  lemma ReadsAssigned(begin: Position, name: seq<byte>, beforeEq: seq<byte>, afterEq: seq<byte>, quoted: seq<byte>,
                      es: seq<Event>, at: nat, nonws: bool, all: seq<byte>)
    requires AllWhite(beforeEq) && AllWhite(afterEq) && all == beforeEq + ([EQUALS] + (afterEq + quoted))
    requires Reads(AfterEquals(begin, name), quoted, at + |beforeEq| + 1 + |afterEq|, nonws, InOpenElement, es)
    ensures Reads(InName(AttributeOf(begin), name), all, at, nonws, InOpenElement, es)
  {
    var s, eq, afterEquals := InName(AttributeOf(begin), name), AfterEquals(begin, name), at + |beforeEq| + 1;
    ReadsWhite(eq, afterEq, afterEquals, nonws);
    ReadsThen(eq, afterEq, afterEquals, nonws, eq, [], quoted, InOpenElement, es);
    assert [] + es == es;
    ReadsEquals(begin, name, beforeEq, at, nonws);
    ReadsThen(s, beforeEq + [EQUALS], at, nonws, eq, [], afterEq + quoted, InOpenElement, es);
    Rebracket(beforeEq, [EQUALS], afterEq + quoted);
  }

  lemma Rebracket(a: seq<byte>, b: seq<byte>, c: seq<byte>)
    ensures a + (b + c) == a + b + c
  {
  }

  lemma ReadsAttr(a: Attr, at: nat, nonws: bool)
    requires ValidAttr(a)
    ensures Reads(InOpenElement, PrintAttr(a), at, nonws, InOpenElement, [AttrEvent(a, at)])
  {
    var begin := at + |a.lead|;
    var kind, e := AttributeOf(At(begin)), [AttrEvent(a, at)];
    assert IsNameBody(a.name[0]);
    ReadsWhite(InOpenElement, a.lead, at, nonws);
    ReadsWholeName(InOpenElement, kind, a.name, begin, nonws);
    ReadsAfterName(a, at, nonws);
    ReadsThen(InOpenElement, a.name, begin, nonws, InName(kind, a.name), [], AfterName(a), InOpenElement, e);
    assert [] + e == e;
    ReadsThen(InOpenElement, a.lead, at, nonws, InOpenElement, [], a.name + AfterName(a), InOpenElement, e);
  }

  lemma {:induction false} ReadsAttrs(attrs: seq<Attr>, at: nat, nonws: bool)
    requires forall i | 0 <= i < |attrs| :: ValidAttr(attrs[i])
    ensures Reads(InOpenElement, PrintAttrs(attrs), at, nonws, InOpenElement, AttrEvents(attrs, at))
    decreases |attrs|
  {
    if attrs != [] {
      var next := at + |PrintAttr(attrs[0])|;
      ReadsAttr(attrs[0], at, nonws);
      ReadsAttrs(attrs[1..], next, nonws);
      ReadsThen(InOpenElement, PrintAttr(attrs[0]), at, nonws, InOpenElement, [AttrEvent(attrs[0], at)],
                PrintAttrs(attrs[1..]), InOpenElement, AttrEvents(attrs[1..], next));
    }
  }

  // ----- Tags -----

  lemma ReadsTagEnd(empty: bool, at: nat, nonws: bool)
    ensures Reads(InOpenElement, TagEnd(empty), at, nonws, Start, [EndTag(At(at + |TagEnd(empty)|), empty)])
  {
    if empty {
      ReadsOne(InOpenElement, SLASH, at, nonws, EmptyElementEnd, []);
      ReadsOne(EmptyElementEnd, GREATERTHAN, at + 1, nonws, Start, [EndTag(At(at + 2), true)]);
      ReadsThen(InOpenElement, [SLASH], at, nonws, EmptyElementEnd, [],
                [GREATERTHAN], Start, [EndTag(At(at + 2), true)]);
    } else {
      ReadsOne(InOpenElement, GREATERTHAN, at, nonws, Start, [EndTag(At(at + 1), false)]);
    }
  }

  /** The name of an opening tag is reported by the first character after it. */
  lemma NameThenInside(
    begin: Position, name: seq<byte>, text: seq<byte>, at: nat, nonws: bool, t: State, es: seq<Event>)
    requires text != [] && (IsWhite(text[0]) || text[0] == SLASH || text[0] == GREATERTHAN)
    requires Reads(InOpenElement, text, at, nonws, t, es)
    ensures Reads(InName(OpenTag(begin), name), text, at, nonws, t, [StartTag(begin, name)] + es)
  {
    var o := Step(InOpenElement, text[0], At(at), At(at + 1), nonws);
    var p := Step(InName(OpenTag(begin), name), text[0], At(at), At(at + 1), nonws);
    assert p == After([StartTag(begin, name)], o);
    AfterAfter([StartTag(begin, name)], o.events, Run(o.state, text[1..], 0, at + 1, nonws));
  }

  lemma ReadsInsideTag(attrs: seq<Attr>, gap: seq<byte>, empty: bool, at: nat, nonws: bool)
    requires ValidTag(attrs, gap)
    ensures var text := PrintAttrs(attrs) + (gap + TagEnd(empty));
            Reads(InOpenElement, text, at, nonws, Start, AttrEvents(attrs, at) + [EndTag(At(at + |text|), empty)])
  {
    var printed, events := PrintAttrs(attrs), AttrEvents(attrs, at);
    var text := printed + (gap + TagEnd(empty));
    ReadsAttrs(attrs, at, nonws);
    ReadsGapAndEnd(gap, empty, at + |printed|, nonws);
    ReadsThen(InOpenElement, printed, at, nonws, InOpenElement, events,
              gap + TagEnd(empty), Start, [EndTag(At(at + |text|), empty)]);
  }

  lemma ReadsGapAndEnd(gap: seq<byte>, empty: bool, at: nat, nonws: bool)
    requires AllWhite(gap)
    ensures Reads(InOpenElement, gap + TagEnd(empty), at, nonws, Start,
                  [EndTag(At(at + |gap + TagEnd(empty)|), empty)])
  {
    var ended := [EndTag(At(at + |gap + TagEnd(empty)|), empty)];
    ReadsTagEnd(empty, at + |gap|, nonws);
    ReadsWhite(InOpenElement, gap, at, nonws);
    ReadsThen(InOpenElement, gap, at, nonws, InOpenElement, [], TagEnd(empty), Start, ended);
    assert [] + ended == ended;
  }

  lemma InsideTagStarts(attrs: seq<Attr>, gap: seq<byte>, empty: bool)
    requires ValidTag(attrs, gap)
    ensures var text := PrintAttrs(attrs) + (gap + TagEnd(empty));
            text != [] && (IsWhite(text[0]) || text[0] == SLASH || text[0] == GREATERTHAN)
  {
    if attrs != [] {
      assert PrintAttr(attrs[0])[0] == attrs[0].lead[0];
      assert IsWhite(attrs[0].lead[0]);
    } else if gap != [] {
      assert IsWhite(gap[0]);
    }
  }

  lemma ReadsOpeningTag(name: seq<byte>, attrs: seq<Attr>, gap: seq<byte>, empty: bool, at: nat, nonws: bool)
    requires IsName(name) && ValidTag(attrs, gap)
    ensures Reads(Start, OpeningTag(name, attrs, gap, empty), at, nonws,
                  Start, OpeningEvents(name, attrs, gap, empty, at))
  {
    var inside := PrintAttrs(attrs) + (gap + TagEnd(empty));
    var es := AttrEvents(attrs, at + 1 + |name|) + [EndTag(At(at + 1 + |name| + |inside|), empty)];
    InsideTagStarts(attrs, gap, empty);
    ReadsInsideTag(attrs, gap, empty, at + 1 + |name|, nonws);
    ReadsNamedTag(name, inside, at, nonws, es);
    OpeningParts(name, attrs, gap, empty, at);
  }

  lemma OpeningParts(name: seq<byte>, attrs: seq<Attr>, gap: seq<byte>, empty: bool, at: nat)
    ensures var inside := PrintAttrs(attrs) + (gap + TagEnd(empty));
            && OpeningTag(name, attrs, gap, empty) == [LESSTHAN] + (name + inside)
            && OpeningEvents(name, attrs, gap, empty, at) ==
               [StartTag(At(at), name)]
               + (AttrEvents(attrs, at + 1 + |name|) + [EndTag(At(at + 1 + |name| + |inside|), empty)])
  {
  }

  lemma ReadsNamedTag(name: seq<byte>, inside: seq<byte>, at: nat, nonws: bool, es: seq<Event>)
    requires IsName(name)
    requires inside != [] && (IsWhite(inside[0]) || inside[0] == SLASH || inside[0] == GREATERTHAN)
    requires Reads(InOpenElement, inside, at + 1 + |name|, nonws, Start, es)
    ensures Reads(Start, [LESSTHAN] + (name + inside), at, nonws, Start, [StartTag(At(at), name)] + es)
  {
    var less, named, all := Less(At(at)), InName(OpenTag(At(at)), name), [StartTag(At(at), name)] + es;
    NameThenInside(At(at), name, inside, at + 1 + |name|, nonws, Start, es);
    assert IsNameBody(name[0]);
    ReadsWholeName(less, OpenTag(At(at)), name, at + 1, nonws);
    ReadsThen(less, name, at + 1, nonws, named, [], inside, Start, all);
    assert [] + all == all;
    ReadsOne(Start, LESSTHAN, at, nonws, less, []);
    ReadsThen(Start, [LESSTHAN], at, nonws, less, [], name + inside, Start, all);
  }

  lemma ReadsClosingTag(name: seq<byte>, closeGap: seq<byte>, at: nat, nonws: bool)
    requires IsName(name) && AllWhite(closeGap)
    ensures var text := ClosingTag(name, closeGap);
            Reads(Start, text, at, nonws, Start, [CloseTag(At(at), At(at + |text|), name)])
  {
    var e := CloseTag(At(at), At(at + |ClosingTag(name, closeGap)|), name);
    var kind := CloseOf(At(at));
    var afterName := at + 2 + |name|;
    ReadsClosingEnd(At(at), name, closeGap, afterName, nonws);
    assert IsNameBody(name[0]);
    ReadsWholeName(CloseStart(At(at)), kind, name, at + 2, nonws);
    ReadsThen(CloseStart(At(at)), name, at + 2, nonws, InName(kind, name), [], closeGap + [GREATERTHAN], Start, [e]);
    ReadsCloseStart(at, nonws);
    ReadsThen(Start, [LESSTHAN, SLASH], at, nonws, CloseStart(At(at)), [],
              name + (closeGap + [GREATERTHAN]), Start, [] + [e]);
    assert [] + ([] + [e]) == [e];
  }

  lemma ReadsCloseStart(at: nat, nonws: bool)
    ensures Reads(Start, [LESSTHAN, SLASH], at, nonws, CloseStart(At(at)), [])
  {
    ReadsOne(Start, LESSTHAN, at, nonws, Less(At(at)), []);
    ReadsOne(Less(At(at)), SLASH, at + 1, nonws, CloseStart(At(at)), []);
    ReadsThen(Start, [LESSTHAN], at, nonws, Less(At(at)), [], [SLASH], CloseStart(At(at)), []);
    assert [LESSTHAN] + [SLASH] == [LESSTHAN, SLASH];
    var none: seq<Event> := [];
    assert none + none == none;
  }

  lemma ReadsClosingEnd(begin: Position, name: seq<byte>, closeGap: seq<byte>, at: nat, nonws: bool)
    requires AllWhite(closeGap)
    ensures Reads(InName(CloseOf(begin), name), closeGap + [GREATERTHAN], at, nonws, Start,
                  [CloseTag(begin, At(at + |closeGap| + 1), name)])
  {
    var s, w := InName(CloseOf(begin), name), InCloseElement(begin, name);
    var e := CloseTag(begin, At(at + |closeGap| + 1), name);
    if closeGap == [] {
      ReadsOne(s, GREATERTHAN, at, nonws, Start, [e]);
      assert closeGap + [GREATERTHAN] == [GREATERTHAN];
    } else {
      var blank, more := closeGap[0], closeGap[1..];
      assert IsWhite(blank);
      ReadsOne(s, blank, at, nonws, w, []);
      ReadsWhite(w, more, at + 1, nonws);
      ReadsOne(w, GREATERTHAN, at + |closeGap|, nonws, Start, [e]);
      ReadsThen(w, more, at + 1, nonws, w, [], [GREATERTHAN], Start, [e]);
      ReadsThen(s, [blank], at, nonws, w, [], more + [GREATERTHAN], Start, [] + [e]);
      assert [blank] + (more + [GREATERTHAN]) == closeGap + [GREATERTHAN];
      assert [] + ([] + [e]) == [e];
    }
  }

  // ----- Comments -----

  lemma {:induction false} ReadsCommentBody(body: seq<byte>, at: nat, nonws: bool)
    requires ValidComment(body)
    ensures Reads(InComment, body, at, nonws, InComment, [])
    decreases |body|
  {
    if body == [] {
    } else if body[0] != DASH {
      assert ValidComment(body[1..]) by {
        assert forall i | 0 <= i < |body[1..]| :: body[1..][i] == body[i + 1];
      }
      ReadsOne(InComment, body[0], at, nonws, InComment, []);
      ReadsCommentBody(body[1..], at + 1, nonws);
      ReadsThen(InComment, [body[0]], at, nonws, InComment, [], body[1..], InComment, []);
      assert [body[0]] + body[1..] == body;
    } else {
      assert body[1] != DASH;
      assert ValidComment(body[2..]) by {
        assert forall i | 0 <= i < |body[2..]| :: body[2..][i] == body[i + 2];
      }
      ReadsOne(InComment, DASH, at, nonws, DashInComment, []);
      ReadsOne(DashInComment, body[1], at + 1, nonws, InComment, []);
      ReadsThen(InComment, [DASH], at, nonws, DashInComment, [], [body[1]], InComment, []);
      ReadsCommentBody(body[2..], at + 2, nonws);
      ReadsThen(InComment, [DASH] + [body[1]], at, nonws, InComment, [] + [], body[2..], InComment, []);
      assert [DASH] + [body[1]] + body[2..] == body;
    }
  }

  lemma ReadsCommentEnd(at: nat, nonws: bool)
    ensures Reads(InComment, [DASH, DASH, GREATERTHAN], at, nonws, Start, [])
  {
    ReadsOne(InComment, DASH, at, nonws, DashInComment, []);
    ReadsOne(DashInComment, DASH, at + 1, nonws, DashDashInComment, []);
    ReadsOne(DashDashInComment, GREATERTHAN, at + 2, nonws, Start, []);
    ReadsThen(DashInComment, [DASH], at + 1, nonws, DashDashInComment, [], [GREATERTHAN], Start, []);
    ReadsThen(InComment, [DASH], at, nonws, DashInComment, [], [DASH] + [GREATERTHAN], Start, [] + []);
    assert [DASH] + ([DASH] + [GREATERTHAN]) == [DASH, DASH, GREATERTHAN];
  }

  lemma ReadsCommentStart(at: nat, nonws: bool)
    ensures Reads(Start, [LESSTHAN, EXCLAMATION, DASH, DASH], at, nonws, InComment, [])
  {
    ReadsOne(Start, LESSTHAN, at, nonws, Less(At(at)), []);
    ReadsOne(Less(At(at)), EXCLAMATION, at + 1, nonws, CommentExcl, []);
    ReadsOne(CommentExcl, DASH, at + 2, nonws, CommentExclDash, []);
    ReadsOne(CommentExclDash, DASH, at + 3, nonws, InComment, []);
    ReadsThen(Start, [LESSTHAN], at, nonws, Less(At(at)), [], [EXCLAMATION], CommentExcl, []);
    ReadsThen(CommentExcl, [DASH], at + 2, nonws, CommentExclDash, [], [DASH], InComment, []);
    ReadsThen(Start, [LESSTHAN] + [EXCLAMATION], at, nonws, CommentExcl, [] + [], [DASH] + [DASH], InComment, [] + []);
    assert [LESSTHAN] + [EXCLAMATION] + ([DASH] + [DASH]) == [LESSTHAN, EXCLAMATION, DASH, DASH];
  }

  lemma ReadsComment(body: seq<byte>, at: nat, nonws: bool)
    requires ValidComment(body)
    ensures Reads(Start, Print(Comment(body)), at, nonws, Start, [])
  {
    ReadsCommentEnd(at + 4 + |body|, nonws);
    ReadsCommentBody(body, at + 4, nonws);
    ReadsThen(InComment, body, at + 4, nonws, InComment, [], [DASH, DASH, GREATERTHAN], Start, []);
    ReadsCommentStart(at, nonws);
    ReadsThen(Start, [LESSTHAN, EXCLAMATION, DASH, DASH], at, nonws, InComment, [],
              body + [DASH, DASH, GREATERTHAN], Start, [] + []);
  }

  // ----- Trees -----

  /** Printing a tree and lexing what was printed reports exactly the events of the tree. */
  lemma {:induction false} ReadsNode(n: Node, at: nat, nonws: bool)
    requires ValidNode(n, nonws)
    ensures Reads(Start, Print(n), at, nonws, Start, Events(n, at))
    decreases n, 1
  {
    match n
    case Text(text) => ReadsText(n, at, nonws);
    case Comment(body) => ReadsComment(body, at, nonws);
    case Element(name, attrs, gap, empty, kids, closeGap) =>
      if empty {
        ReadsEmptyElement(n, at, nonws);
      } else {
        ReadsNodes(kids, at + |OpeningTag(name, attrs, gap, false)|, nonws);
        ReadsFullElement(n, PrintAll(kids), EventsAll(kids, at + |OpeningTag(name, attrs, gap, false)|), at, nonws);
      }
  }

  lemma ReadsEmptyElement(n: Node, at: nat, nonws: bool)
    requires n.Element? && n.empty && ValidNode(n, nonws)
    ensures Reads(Start, Print(n), at, nonws, Start, Events(n, at))
  {
    ReadsOpeningTag(n.name, n.attrs, n.gap, true, at, nonws);
    EmptyElement(n, at);
  }

  lemma ReadsFullElement(n: Node, text: seq<byte>, fs: seq<Event>, at: nat, nonws: bool)
    requires n.Element? && !n.empty && ValidNode(n, nonws)
    requires text == PrintAll(n.kids) && fs == EventsAll(n.kids, at + |OpeningTag(n.name, n.attrs, n.gap, false)|)
    requires Reads(Start, text, at + |OpeningTag(n.name, n.attrs, n.gap, false)|, nonws, Start, fs)
    ensures Reads(Start, Print(n), at, nonws, Start, Events(n, at))
  {
    FullElement(n, at);
    ReadsElement(n.name, n.attrs, n.gap, n.closeGap, text, fs, at, nonws, Print(n), Events(n, at));
  }

  lemma EmptyElement(n: Node, at: nat)
    requires n.Element? && n.empty
    ensures Print(n) == OpeningTag(n.name, n.attrs, n.gap, true)
    ensures Events(n, at) == OpeningEvents(n.name, n.attrs, n.gap, true, at)
  {
    var opening, es := OpeningTag(n.name, n.attrs, n.gap, true), OpeningEvents(n.name, n.attrs, n.gap, true, at);
    assert opening + [] == opening && es + [] == es;
  }

  lemma FullElement(n: Node, at: nat)
    requires n.Element? && !n.empty
    ensures var opening, closing := OpeningTag(n.name, n.attrs, n.gap, false), ClosingTag(n.name, n.closeGap);
            var inside := at + |opening|;
            var closes := inside + |PrintAll(n.kids)|;
            && Print(n) == opening + (PrintAll(n.kids) + closing)
            && Events(n, at) == OpeningEvents(n.name, n.attrs, n.gap, false, at)
                 + (EventsAll(n.kids, inside) + [CloseTag(At(closes), At(closes + |closing|), n.name)])
  {
  }

  lemma ReadsText(n: Node, at: nat, nonws: bool)
    requires n.Text? && ValidNode(n, nonws)
    ensures Reads(Start, n.text, at, nonws, Start, [])
  {
    ReadsSkipped(Start, n.text, at, nonws);
  }

  /** A tag, its content, and the closing tag. */
  lemma ReadsElement(
    name: seq<byte>, attrs: seq<Attr>, gap: seq<byte>, closeGap: seq<byte>,
    text: seq<byte>, fs: seq<Event>, at: nat, nonws: bool, printed: seq<byte>, all: seq<Event>)
    requires IsName(name) && AllWhite(closeGap) && ValidTag(attrs, gap)
    requires Reads(Start, text, at + |OpeningTag(name, attrs, gap, false)|, nonws, Start, fs)
    requires var opening, closing := OpeningTag(name, attrs, gap, false), ClosingTag(name, closeGap);
             var closes := at + |opening| + |text|;
             && printed == opening + (text + closing)
             && all == OpeningEvents(name, attrs, gap, false, at)
                  + (fs + [CloseTag(At(closes), At(closes + |closing|), name)])
    ensures Reads(Start, printed, at, nonws, Start, all)
  {
    var opening, es := OpeningTag(name, attrs, gap, false), OpeningEvents(name, attrs, gap, false, at);
    var closing, closes := ClosingTag(name, closeGap), at + |opening| + |text|;
    ReadsOpeningTag(name, attrs, gap, false, at, nonws);
    ReadsContent(text, fs, name, closeGap, at + |opening|, nonws);
    ReadsThen(Start, opening, at, nonws, Start, es,
              text + closing, Start, fs + [CloseTag(At(closes), At(closes + |closing|), name)]);
  }

  lemma ReadsContent(text: seq<byte>, es: seq<Event>, name: seq<byte>, closeGap: seq<byte>, at: nat, nonws: bool)
    requires IsName(name) && AllWhite(closeGap) && Reads(Start, text, at, nonws, Start, es)
    ensures var closes := at + |text|;
            Reads(Start, text + ClosingTag(name, closeGap), at, nonws, Start,
                  es + [CloseTag(At(closes), At(closes + |ClosingTag(name, closeGap)|), name)])
  {
    var closes := at + |text|;
    ReadsClosingTag(name, closeGap, closes, nonws);
    ReadsThen(Start, text, at, nonws, Start, es, ClosingTag(name, closeGap), Start,
              [CloseTag(At(closes), At(closes + |ClosingTag(name, closeGap)|), name)]);
  }

  lemma {:induction false} ReadsNodes(nodes: seq<Node>, at: nat, nonws: bool)
    requires forall i | 0 <= i < |nodes| :: ValidNode(nodes[i], nonws)
    ensures Reads(Start, PrintAll(nodes), at, nonws, Start, EventsAll(nodes, at))
    decreases nodes, 0
  {
    if nodes != [] {
      var next := at + |Print(nodes[0])|;
      ReadsNode(nodes[0], at, nonws);
      ReadsNodes(nodes[1..], next, nonws);
      ReadsThen(Start, Print(nodes[0]), at, nonws, Start, Events(nodes[0], at),
                PrintAll(nodes[1..]), Start, EventsAll(nodes[1..], next));
    }
  }

  /** The same through any buffers: however the printed document is cut and whatever handles the buffers get,
      the lexer ends where it started and reports the tree's events, at the places the handles stand for. */
  lemma DocumentRoundTrip(nodes: seq<Node>, bufs: seq<seq<byte>>, handles: seq<nat>, starts: map<nat, nat>, nonws: bool)
    requires forall i | 0 <= i < |nodes| :: ValidNode(nodes[i], nonws)
    requires |bufs| == |handles| && Concat(bufs) == PrintAll(nodes) && StartsAt(bufs, handles, starts, 0)
    ensures LexAll(Start, bufs, handles, nonws).Went? && LexAll(Start, bufs, handles, nonws).state == Start
    ensures AbsoluteEvents(LexAll(Start, bufs, handles, nonws).events, starts) == EventsAll(nodes, 0)
  {
    ReadsNodes(nodes, 0, nonws);
    ReadsThroughBuffers(PrintAll(nodes), EventsAll(nodes, 0), bufs, handles, starts, nonws);
  }

  lemma ReadsThroughBuffers(
    text: seq<byte>, es: seq<Event>, bufs: seq<seq<byte>>, handles: seq<nat>, starts: map<nat, nat>, nonws: bool)
    requires |bufs| == |handles| && Concat(bufs) == text && StartsAt(bufs, handles, starts, 0)
    requires Reads(Start, text, 0, nonws, Start, es)
    ensures LexAll(Start, bufs, handles, nonws).Went? && LexAll(Start, bufs, handles, nonws).state == Start
    ensures AbsoluteEvents(LexAll(Start, bufs, handles, nonws).events, starts) == es
  {
    var o := LexAll(Start, bufs, handles, nonws);
    BuffersDoNotMatter(Start, bufs, handles, nonws, starts, 0);
    assert AbsoluteOutcome(o, starts) == Went(Start, es);
  }

  // ----- What the positions delimit -----

  predicate Has(text: seq<byte>, at: nat, part: seq<byte>) {
    at + |part| <= |text| && text[at..at + |part|] == part
  }

  lemma HasParts(text: seq<byte>, at: nat, a: seq<byte>, b: seq<byte>)
    requires Has(text, at, a + b)
    ensures Has(text, at, a) && Has(text, at + |a|, b)
  {
    assert text[at..at + |a|] == text[at..at + |a + b|][..|a|];
    assert text[at + |a|..at + |a| + |b|] == text[at..at + |a + b|][|a|..];
  }

  /** The positions of an event delimit a tag, or an attribute and its value, of the text itself. */
  predicate Delimits(text: seq<byte>, e: Event) {
    match e
    case StartTag(begin, name) => Has(text, begin.offset, [60] + name)
    case Attribute(begin, end, valbegin, valend, name) =>
      && Has(text, begin.offset, name)
      && begin.offset + |name| < valbegin.offset <= valend.offset
      && end.offset == valend.offset + 1 <= |text|
      && (text[valend.offset] == 39 || text[valend.offset] == 34)
      && text[valbegin.offset - 1] == text[valend.offset]
      && (forall i | valbegin.offset <= i < valend.offset :: text[i] != text[valend.offset])
    case EndTag(end, wasempty) =>
      end.offset >= |TagEnd(wasempty)| && Has(text, end.offset - |TagEnd(wasempty)|, TagEnd(wasempty))
    case CloseTag(begin, end, name) =>
      && Has(text, begin.offset, [60, 47] + name)
      && begin.offset + 2 + |name| < end.offset <= |text|
      && text[end.offset - 1] == 62
      && AllWhite(text[begin.offset + 2 + |name|..end.offset - 1])
  }

  ghost predicate AllDelimit(text: seq<byte>, es: seq<Event>) {
    forall i | 0 <= i < |es| :: Delimits(text, es[i])
  }

  lemma AllDelimitAppend(text: seq<byte>, a: seq<Event>, b: seq<Event>)
    requires AllDelimit(text, a) && AllDelimit(text, b)
    ensures AllDelimit(text, a + b)
  {
  }

  lemma AllDelimitMore(text: seq<byte>, e: Event, es: seq<Event>)
    requires Delimits(text, e) && AllDelimit(text, es)
    ensures AllDelimit(text, [e] + es)
  {
  }

  lemma HasOne(text: seq<byte>, at: nat, c: byte)
    requires Has(text, at, [c])
    ensures at < |text| && text[at] == c
  {
    assert text[at..at + 1][0] == c;
  }

  /** Where the quoted value lies, seen from the end of the name. */
  lemma ValueParts(text: seq<byte>, a: Attr, afterName: nat)
    requires Has(text, afterName, AfterName(a))
    ensures var valbegin := afterName + |a.beforeEq| + 1 + |a.afterEq| + 1;
            && Has(text, valbegin, a.value)
            && valbegin + |a.value| < |text|
            && text[valbegin - 1] == text[valbegin + |a.value|] == a.quote
  {
    var quoted := a.value + [a.quote];
    var atEq := afterName + |a.beforeEq|;
    HasParts(text, afterName, a.beforeEq, [EQUALS] + (a.afterEq + ([a.quote] + quoted)));
    HasParts(text, atEq, [EQUALS], a.afterEq + ([a.quote] + quoted));
    HasParts(text, atEq + 1, a.afterEq, [a.quote] + quoted);
    QuotedParts(text, a, atEq + 1 + |a.afterEq|);
  }

  lemma QuotedParts(text: seq<byte>, a: Attr, at: nat)
    requires Has(text, at, [a.quote] + (a.value + [a.quote]))
    ensures Has(text, at + 1, a.value) && at + 1 + |a.value| < |text|
    ensures text[at] == text[at + 1 + |a.value|] == a.quote
  {
    HasParts(text, at, [a.quote], a.value + [a.quote]);
    HasOne(text, at, a.quote);
    HasParts(text, at + 1, a.value, [a.quote]);
    HasOne(text, at + 1 + |a.value|, a.quote);
  }

  lemma ValueHasNoQuote(text: seq<byte>, a: Attr, valbegin: nat)
    requires ValidAttr(a) && Has(text, valbegin, a.value)
    ensures forall i | valbegin <= i < valbegin + |a.value| :: text[i] != a.quote
  {
    forall i | valbegin <= i < valbegin + |a.value|
      ensures text[i] != a.quote
    {
      assert text[i] == text[valbegin..valbegin + |a.value|][i - valbegin];
    }
  }

  /** The reported value is the attribute's value, and the whole attribute lies between begin and end. */
  lemma AttrDelimits(text: seq<byte>, a: Attr, at: nat)
    requires ValidAttr(a) && Has(text, at, PrintAttr(a))
    ensures Delimits(text, AttrEvent(a, at))
    ensures Has(text, AttrEvent(a, at).valbegin.offset, a.value)
    ensures AttrEvent(a, at).valend.offset == AttrEvent(a, at).valbegin.offset + |a.value|
    ensures Has(text, AttrEvent(a, at).begin.offset, a.name + AfterName(a))
    ensures AttrEvent(a, at).end.offset == AttrEvent(a, at).begin.offset + |a.name + AfterName(a)|
  {
    var begin := at + |a.lead|;
    HasParts(text, at, a.lead, a.name + AfterName(a));
    HasParts(text, begin, a.name, AfterName(a));
    ValueParts(text, a, begin + |a.name|);
    ValueHasNoQuote(text, a, AttrEvent(a, at).valbegin.offset);
  }

  lemma {:induction false} AttrsDelimit(text: seq<byte>, attrs: seq<Attr>, at: nat)
    requires (forall i | 0 <= i < |attrs| :: ValidAttr(attrs[i])) && Has(text, at, PrintAttrs(attrs))
    ensures AllDelimit(text, AttrEvents(attrs, at))
    decreases |attrs|
  {
    if attrs != [] {
      var first, rest, later := attrs[0], attrs[1..], at + |PrintAttr(attrs[0])|;
      HasParts(text, at, PrintAttr(first), PrintAttrs(rest));
      AttrDelimits(text, first, at);
      AttrsDelimit(text, rest, later);
      AllDelimitMore(text, AttrEvent(first, at), AttrEvents(rest, later));
    }
  }

  lemma OpeningDelimits(text: seq<byte>, name: seq<byte>, attrs: seq<Attr>, gap: seq<byte>, empty: bool, at: nat)
    requires ValidTag(attrs, gap) && Has(text, at, OpeningTag(name, attrs, gap, empty))
    ensures AllDelimit(text, OpeningEvents(name, attrs, gap, empty, at))
  {
    var printed, afterName := PrintAttrs(attrs), at + 1 + |name|;
    TagDelimits(text, name, printed, gap, empty, at);
    AttrsDelimit(text, attrs, afterName);
    var started, inside := [StartTag(At(at), name)], AttrEvents(attrs, afterName);
    var ended := [EndTag(At(at + |OpeningTag(name, attrs, gap, empty)|), empty)];
    AllDelimitAppend(text, started, inside);
    AllDelimitAppend(text, started + inside, ended);
  }

  lemma TagDelimits(text: seq<byte>, name: seq<byte>, printed: seq<byte>, gap: seq<byte>, empty: bool, at: nat)
    requires Has(text, at, [LESSTHAN] + (name + (printed + (gap + TagEnd(empty)))))
    ensures Has(text, at + 1 + |name|, printed)
    ensures AllDelimit(text, [StartTag(At(at), name)])
    ensures var end := at + |[LESSTHAN] + (name + (printed + (gap + TagEnd(empty))))|;
            AllDelimit(text, [EndTag(At(end), empty)])
  {
    var afterName, inside := at + 1 + |name|, printed + (gap + TagEnd(empty));
    Rebracket([LESSTHAN], name, inside);
    HasParts(text, at, [LESSTHAN] + name, inside);
    HasParts(text, afterName, printed, gap + TagEnd(empty));
    TagEndDelimits(text, gap, empty, afterName + |printed|);
  }

  lemma TagEndDelimits(text: seq<byte>, gap: seq<byte>, empty: bool, at: nat)
    requires Has(text, at, gap + TagEnd(empty))
    ensures AllDelimit(text, [EndTag(At(at + |gap| + |TagEnd(empty)|), empty)])
  {
    HasParts(text, at, gap, TagEnd(empty));
  }

  lemma ClosingDelimits(text: seq<byte>, name: seq<byte>, closeGap: seq<byte>, at: nat)
    requires AllWhite(closeGap) && Has(text, at, ClosingTag(name, closeGap))
    ensures Delimits(text, CloseTag(At(at), At(at + |ClosingTag(name, closeGap)|), name))
  {
    var afterName := at + 2 + |name|;
    assert ClosingTag(name, closeGap) == ([LESSTHAN, SLASH] + name) + (closeGap + [GREATERTHAN]);
    HasParts(text, at, [LESSTHAN, SLASH] + name, closeGap + [GREATERTHAN]);
    HasParts(text, afterName, closeGap, [GREATERTHAN]);
    assert text[afterName + |closeGap|] == text[afterName + |closeGap|..afterName + |closeGap| + 1][0];
  }

  /** In the printed document every reported position delimits what it is said to delimit. */
  lemma {:induction false} NodeDelimits(text: seq<byte>, n: Node, at: nat, nonws: bool)
    requires ValidNode(n, nonws) && Has(text, at, Print(n))
    ensures AllDelimit(text, Events(n, at))
    decreases n, 1
  {
    if n.Element? {
      if !n.empty {
        ElementParts(text, n, at);
        NodesDelimit(text, n.kids, at + |OpeningTag(n.name, n.attrs, n.gap, false)|, nonws);
      }
      ElementDelimits(text, n, at, nonws);
    }
  }

  lemma ElementDelimits(text: seq<byte>, n: Node, at: nat, nonws: bool)
    requires n.Element? && ValidNode(n, nonws) && Has(text, at, Print(n))
    requires !n.empty ==> AllDelimit(text, EventsAll(n.kids, at + |OpeningTag(n.name, n.attrs, n.gap, false)|))
    ensures AllDelimit(text, Events(n, at))
  {
    var opening, es := OpeningTag(n.name, n.attrs, n.gap, n.empty), OpeningEvents(n.name, n.attrs, n.gap, n.empty, at);
    if n.empty {
      EmptyElement(n, at);
      OpeningDelimits(text, n.name, n.attrs, n.gap, true, at);
    } else {
      ElementParts(text, n, at);
      OpeningDelimits(text, n.name, n.attrs, n.gap, false, at);
      var inside := at + |opening|;
      ContentDelimits(text, PrintAll(n.kids), EventsAll(n.kids, inside), n.name, n.closeGap, inside, es);
    }
  }

  lemma ElementParts(text: seq<byte>, n: Node, at: nat)
    requires n.Element? && !n.empty && Has(text, at, Print(n))
    ensures var opening := OpeningTag(n.name, n.attrs, n.gap, false);
            && Has(text, at, opening) && Has(text, at + |opening|, PrintAll(n.kids))
            && Has(text, at + |opening| + |PrintAll(n.kids)|, ClosingTag(n.name, n.closeGap))
  {
    var opening := OpeningTag(n.name, n.attrs, n.gap, false);
    HasParts(text, at, opening, PrintAll(n.kids) + ClosingTag(n.name, n.closeGap));
    HasParts(text, at + |opening|, PrintAll(n.kids), ClosingTag(n.name, n.closeGap));
  }

  lemma ContentDelimits(
    text: seq<byte>, printed: seq<byte>, fs: seq<Event>, name: seq<byte>, closeGap: seq<byte>, at: nat, es: seq<Event>)
    requires AllWhite(closeGap) && Has(text, at + |printed|, ClosingTag(name, closeGap))
    requires AllDelimit(text, es) && AllDelimit(text, fs)
    ensures var closes := at + |printed|;
            AllDelimit(text, es + (fs + [CloseTag(At(closes), At(closes + |ClosingTag(name, closeGap)|), name)]))
  {
    var closes := at + |printed|;
    var close := [CloseTag(At(closes), At(closes + |ClosingTag(name, closeGap)|), name)];
    ClosingDelimits(text, name, closeGap, closes);
    AllDelimitAppend(text, fs, close);
    AllDelimitAppend(text, es, fs + close);
  }

  lemma {:induction false} NodesDelimit(text: seq<byte>, nodes: seq<Node>, at: nat, nonws: bool)
    requires (forall i | 0 <= i < |nodes| :: ValidNode(nodes[i], nonws)) && Has(text, at, PrintAll(nodes))
    ensures AllDelimit(text, EventsAll(nodes, at))
    decreases nodes, 0
  {
    if nodes != [] {
      HasParts(text, at, Print(nodes[0]), PrintAll(nodes[1..]));
      NodeDelimits(text, nodes[0], at, nonws);
      NodesDelimit(text, nodes[1..], at + |Print(nodes[0])|, nonws);
    }
  }
}
