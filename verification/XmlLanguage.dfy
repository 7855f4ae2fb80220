/** Which texts the lexer takes: exactly sequences of tags, comments and text, and nothing else. */
module XmlLanguage {
  import opened Basics
  import opened XmlStream
  import opened XmlDocument

  /** A text as the lexer sees it: whether opening and closing tags match is not its business. */
  datatype Item =
    | Character(c: byte)
    | Remark(body: seq<byte>)
    | Opening(name: seq<byte>, attrs: seq<Attr>, gap: seq<byte>, empty: bool)
    | Closing(name: seq<byte>, gap: seq<byte>)

  /** What the lexer takes for the body of a comment: units of a byte, a dash and a byte other than a dash, or two
      dashes and a byte other than the sign that ends a tag. Section 2.5 of XML 1.0 allows less. */
  predicate RemarkBody(body: seq<byte>) {
    body == []
    || (body[0] != 45 && RemarkBody(body[1..]))
    || (|body| >= 2 && body[0] == 45 && body[1] != 45 && RemarkBody(body[2..]))
    || (|body| >= 3 && body[0] == 45 && body[1] == 45 && body[2] != 62 && RemarkBody(body[3..]))
  }

  predicate ValidItem(i: Item, nonws: bool) {
    match i
    case Character(c) => c != 60 && (nonws || White(c))
    case Remark(body) => RemarkBody(body)
    case Opening(name, attrs, gap, _) => IsName(name) && ValidTag(attrs, gap)
    case Closing(name, gap) => IsName(name) && AllWhite(gap)
  }

  ghost predicate AllValid(items: seq<Item>, nonws: bool) {
    forall k | 0 <= k < |items| :: ValidItem(items[k], nonws)
  }

  function PrintItem(i: Item): seq<byte> {
    match i
    case Character(c) => [c]
    case Remark(body) => [60, 33, 45, 45] + (body + [45, 45, 62])
    case Opening(name, attrs, gap, empty) => OpeningTag(name, attrs, gap, empty)
    case Closing(name, gap) => ClosingTag(name, gap)
  }

  function ItemEvents(i: Item, at: nat): seq<Event> {
    match i
    case Character(_) => []
    case Remark(_) => []
    case Opening(name, attrs, gap, empty) => OpeningEvents(name, attrs, gap, empty, at)
    case Closing(name, gap) => [CloseTag(At(at), At(at + |ClosingTag(name, gap)|), name)]
  }

  function PrintItems(items: seq<Item>): seq<byte>
    decreases |items|
  {
    if items == [] then [] else PrintItems(items[..|items| - 1]) + PrintItem(items[|items| - 1])
  }

  function AllEvents(items: seq<Item>): seq<Event>
    decreases |items|
  {
    if items == [] then []
    else
      var front := items[..|items| - 1];
      AllEvents(front) + ItemEvents(items[|items| - 1], |PrintItems(front)|)
  }

  lemma OneItemMore(items: seq<Item>, i: Item)
    ensures PrintItems(items + [i]) == PrintItems(items) + PrintItem(i)
    ensures AllEvents(items + [i]) == AllEvents(items) + ItemEvents(i, |PrintItems(items)|)
  {
    assert (items + [i])[..|items|] == items;
  }

  // ----- What is printed is taken -----

  lemma {:induction false} ReadsRemarkBody(body: seq<byte>, at: nat, nonws: bool)
    requires RemarkBody(body)
    ensures Reads(InComment, body, at, nonws, InComment, [])
    decreases |body|
  {
    if body == [] {
    } else if body[0] != 45 {
      ReadsOne(InComment, body[0], at, nonws, InComment, []);
      ReadsRest(body, 1, at, nonws);
    } else if body[1] != 45 {
      ReadsOne(InComment, 45, at, nonws, DashInComment, []);
      ReadsOne(DashInComment, body[1], at + 1, nonws, InComment, []);
      ReadsThen(InComment, [45], at, nonws, DashInComment, [], [body[1]], InComment, []);
      assert [45] + [body[1]] == body[..2];
      ReadsRest(body, 2, at, nonws);
    } else {
      ReadsOne(InComment, 45, at, nonws, DashInComment, []);
      ReadsOne(DashInComment, 45, at + 1, nonws, DashDashInComment, []);
      ReadsOne(DashDashInComment, body[2], at + 2, nonws, InComment, []);
      ReadsThen(DashInComment, [45], at + 1, nonws, DashDashInComment, [], [body[2]], InComment, []);
      ReadsThen(InComment, [45], at, nonws, DashInComment, [], [45] + [body[2]], InComment, [] + []);
      assert [45] + ([45] + [body[2]]) == body[..3];
      ReadsRest(body, 3, at, nonws);
    }
  }

  lemma {:induction false} ReadsRest(body: seq<byte>, n: nat, at: nat, nonws: bool)
    requires 0 < n <= |body| && RemarkBody(body[n..])
    requires Reads(InComment, body[..n], at, nonws, InComment, [])
    ensures Reads(InComment, body, at, nonws, InComment, [])
    decreases |body|, 0
  {
    ReadsRemarkBody(body[n..], at + n, nonws);
    ReadsThen(InComment, body[..n], at, nonws, InComment, [], body[n..], InComment, []);
    assert body[..n] + body[n..] == body;
  }

  lemma ReadsRemark(body: seq<byte>, at: nat, nonws: bool)
    requires RemarkBody(body)
    ensures Reads(Start, PrintItem(Remark(body)), at, nonws, Start, [])
  {
    ReadsRemarkRest(body, at + 4, nonws);
    ReadsCommentStart(at, nonws);
    ReadsThen(Start, [60, 33, 45, 45], at, nonws, InComment, [], body + [45, 45, 62], Start, []);
    assert NOEVENTS + NOEVENTS == NOEVENTS;
  }

  const NOEVENTS: seq<Event> := []

  lemma ReadsRemarkRest(body: seq<byte>, at: nat, nonws: bool)
    requires RemarkBody(body)
    ensures Reads(InComment, body + [45, 45, 62], at, nonws, Start, [])
  {
    ReadsRemarkBody(body, at, nonws);
    ReadsCommentEnd(at + |body|, nonws);
    ReadsThen(InComment, body, at, nonws, InComment, [], [45, 45, 62], Start, []);
    assert NOEVENTS + NOEVENTS == NOEVENTS;
  }

  lemma ReadsItem(i: Item, at: nat, nonws: bool)
    requires ValidItem(i, nonws)
    ensures Reads(Start, PrintItem(i), at, nonws, Start, ItemEvents(i, at))
  {
    match i
    case Character(c) => ReadsOne(Start, c, at, nonws, Start, []);
    case Remark(body) => ReadsRemark(body, at, nonws);
    case Opening(name, attrs, gap, empty) => ReadsOpeningTag(name, attrs, gap, empty, at, nonws);
    case Closing(name, gap) => ReadsClosingTag(name, gap, at, nonws);
  }

  lemma {:induction false} ReadsItems(items: seq<Item>, nonws: bool)
    requires AllValid(items, nonws)
    ensures Reads(Start, PrintItems(items), 0, nonws, Start, AllEvents(items))
    decreases |items|
  {
    if items != [] {
      var front, last := items[..|items| - 1], items[|items| - 1];
      ReadsItems(front, nonws);
      ReadsOneMore(PrintItems(front), AllEvents(front), last, nonws);
    }
  }

  lemma ReadsOneMore(s: seq<byte>, es: seq<Event>, i: Item, nonws: bool)
    requires Reads(Start, s, 0, nonws, Start, es) && ValidItem(i, nonws)
    ensures Reads(Start, s + PrintItem(i), 0, nonws, Start, es + ItemEvents(i, |s|))
  {
    ReadsItem(i, |s|, nonws);
    ReadsThen(Start, s, 0, nonws, Start, es, PrintItem(i), Start, ItemEvents(i, |s|));
  }

  // ----- And what is taken has been printed -----

  /** An item of which a part has been read. The attribute `a` is filled in as far as it is known. */
  datatype Part =
    | Nothing
    | Lt
    | Excl
    | ExclDash
    | Body(body: seq<byte>)
    | BodyDash(body: seq<byte>)
    | BodyDashDash(body: seq<byte>)
    | TagName(name: seq<byte>)
    | Inside(name: seq<byte>, attrs: seq<Attr>, gap: seq<byte>)
    | Slashed(name: seq<byte>, attrs: seq<Attr>, gap: seq<byte>)
    | InAttrName(name: seq<byte>, attrs: seq<Attr>, a: Attr)
    | AfterAttrName(name: seq<byte>, attrs: seq<Attr>, a: Attr)
    | AfterSign(name: seq<byte>, attrs: seq<Attr>, a: Attr)
    | InAttrValue(name: seq<byte>, attrs: seq<Attr>, a: Attr)
    | LtSlash
    | CloseName(name: seq<byte>)
    | CloseGap(name: seq<byte>, gap: seq<byte>)

  predicate InAttr(p: Part) {
    p.InAttrName? || p.AfterAttrName? || p.AfterSign? || p.InAttrValue?
  }

  predicate InTag(p: Part) {
    p.Inside? || p.Slashed? || InAttr(p)
  }

  predicate ValidPart(p: Part) {
    match p
    case Body(body) => RemarkBody(body)
    case BodyDash(body) => RemarkBody(body)
    case BodyDashDash(body) => RemarkBody(body)
    case TagName(name) => IsName(name)
    case Inside(name, attrs, gap) => IsName(name) && ValidTag(attrs, gap) && (attrs == [] ==> gap != [])
    case Slashed(name, attrs, gap) => IsName(name) && ValidTag(attrs, gap)
    case InAttrName(name, attrs, a) => IsName(name) && Ahead(attrs, a) && a.beforeEq == []
    case AfterAttrName(name, attrs, a) => IsName(name) && Ahead(attrs, a) && a.beforeEq != []
    case AfterSign(name, attrs, a) => IsName(name) && Ahead(attrs, a)
    case InAttrValue(name, attrs, a) => IsName(name) && Ahead(attrs, a)
    case CloseName(name) => IsName(name)
    case CloseGap(name, gap) => IsName(name) && AllWhite(gap) && gap != []
    case _ => true
  }

  /** With this attribute after them the attributes are still in order. */
  predicate Ahead(attrs: seq<Attr>, a: Attr) {
    (forall i | 0 <= i < |attrs| :: ValidAttr(attrs[i])) && ValidAttr(a)
    && (if attrs == [] then a.lead != [] else attrs[0].lead != [])
  }

  function Head(name: seq<byte>, attrs: seq<Attr>): seq<byte> {
    [60] + name + PrintAttrs(attrs)
  }

  function UpToName(p: Part): seq<byte>
    requires InAttr(p)
  {
    Head(p.name, p.attrs) + p.a.lead + p.a.name
  }

  function PrintPart(p: Part): seq<byte> {
    match p
    case Nothing => []
    case Lt => [60]
    case Excl => [60, 33]
    case ExclDash => [60, 33, 45]
    case Body(body) => [60, 33, 45, 45] + body
    case BodyDash(body) => [60, 33, 45, 45] + body + [45]
    case BodyDashDash(body) => [60, 33, 45, 45] + body + [45, 45]
    case TagName(name) => [60] + name
    case Inside(name, attrs, gap) => Head(name, attrs) + gap
    case Slashed(name, attrs, gap) => Head(name, attrs) + gap + [47]
    case InAttrName(_, _, a) => UpToName(p)
    case AfterAttrName(_, _, a) => UpToName(p) + a.beforeEq
    case AfterSign(_, _, a) => UpToName(p) + a.beforeEq + [61] + a.afterEq
    case InAttrValue(_, _, a) => UpToName(p) + a.beforeEq + [61] + a.afterEq + [a.quote] + a.value
    case LtSlash => [60, 47]
    case CloseName(name) => [60, 47] + name
    case CloseGap(name, gap) => [60, 47] + name + gap
  }

  function PartEvents(p: Part, at: nat): seq<Event> {
    if InTag(p) then [StartTag(At(at), p.name)] + AttrEvents(p.attrs, at + 1 + |p.name|) else []
  }

  /** The state of the lexer after a part that begins at `at`. */
  function StateOf(p: Part, at: nat): State {
    match p
    case Nothing => Start
    case Lt => Less(At(at))
    case Excl => CommentExcl
    case ExclDash => CommentExclDash
    case Body(_) => InComment
    case BodyDash(_) => DashInComment
    case BodyDashDash(_) => DashDashInComment
    case TagName(name) => InName(OpenTag(At(at)), name)
    case Inside(_, _, _) => InOpenElement
    case Slashed(_, _, _) => EmptyElementEnd
    case InAttrName(name, attrs, a) => InName(AttributeOf(At(at + |Head(name, attrs) + a.lead|)), a.name)
    case AfterAttrName(name, attrs, a) => AfterAttributeName(At(at + |Head(name, attrs) + a.lead|), a.name)
    case AfterSign(name, attrs, a) => AfterEquals(At(at + |Head(name, attrs) + a.lead|), a.name)
    case InAttrValue(name, attrs, a) =>
      InValue(At(at + |Head(name, attrs) + a.lead|), At(at + |PrintPart(p)| - |a.value|), a.name, a.quote)
    case LtSlash => CloseStart(At(at))
    case CloseName(name) => InName(CloseOf(At(at)), name)
    case CloseGap(name, _) => InCloseElement(At(at), name)
  }

  function Reading(p: Part, at: nat, c: byte, nonws: bool): Outcome {
    Step(StateOf(p, at), c, At(at + |PrintPart(p)|), At(at + |PrintPart(p)| + 1), nonws)
  }

  predicate Fine(o: Outcome) {
    o.Went? && !o.state.Bad?
  }

  /** After one more byte the part has become `q`, and `o` says so. */
  ghost predicate Grows(p: Part, at: nat, c: byte, o: Outcome, q: Part) {
    && ValidPart(q) && PrintPart(q) == PrintPart(p) + [c]
    && o == Went(StateOf(q, at), o.events) && PartEvents(q, at) == PartEvents(p, at) + o.events
  }

  /** Or it has become the item `i`. */
  ghost predicate Completes(p: Part, at: nat, c: byte, nonws: bool, o: Outcome, i: Item) {
    && ValidItem(i, nonws) && PrintItem(i) == PrintPart(p) + [c]
    && o == Went(Start, o.events) && ItemEvents(i, at) == PartEvents(p, at) + o.events
  }

  ghost predicate Advances(p: Part, at: nat, c: byte, nonws: bool, o: Outcome, done: Option<Item>, q: Part) {
    if done.Some? then q == Nothing && Completes(p, at, c, nonws, o, done.value) else Grows(p, at, c, o, q)
  }

  lemma {:induction false} RemarkBodyGrows(body: seq<byte>, unit: seq<byte>)
    requires RemarkBody(body) && RemarkBody(unit)
    ensures RemarkBody(body + unit)
    decreases |body|
  {
    if body == [] {
      assert body + unit == unit;
    } else {
      var n := if body[0] != 45 then 1 else if body[1] != 45 then 2 else 3;
      RemarkBodyGrows(body[n..], unit);
      assert (body + unit)[n..] == body[n..] + unit;
    }
  }

  // One lemma for each part, naming what comes next.

  lemma AfterNothingRead(at: nat, c: byte, nonws: bool) returns (done: Option<Item>, q: Part)
    requires Fine(Reading(Nothing, at, c, nonws))
    ensures Advances(Nothing, at, c, nonws, Reading(Nothing, at, c, nonws), done, q)
  {
    done, q := if c == 60 then None else Some(Character(c)), if c == 60 then Lt else Nothing;
  }

  lemma AfterLt(at: nat, c: byte, nonws: bool) returns (q: Part)
    requires Fine(Reading(Lt, at, c, nonws))
    ensures Grows(Lt, at, c, Reading(Lt, at, c, nonws), q)
  {
    q := if c == 33 then Excl else if c == 47 then LtSlash else TagName([c]);
  }

  lemma AfterExcl(at: nat, c: byte, nonws: bool)
    requires Fine(Reading(Excl, at, c, nonws))
    ensures Grows(Excl, at, c, Reading(Excl, at, c, nonws), ExclDash)
  {
  }

  lemma AfterExclDash(at: nat, c: byte, nonws: bool)
    requires Fine(Reading(ExclDash, at, c, nonws))
    ensures Grows(ExclDash, at, c, Reading(ExclDash, at, c, nonws), Body([]))
  {
    assert [60, 33, 45] + [c] == [60, 33, 45, 45] + [];
  }

  lemma AfterBody(body: seq<byte>, at: nat, c: byte, nonws: bool) returns (q: Part)
    requires RemarkBody(body)
    ensures Grows(Body(body), at, c, Reading(Body(body), at, c, nonws), q)
  {
    if c == 45 {
      q := BodyDash(body);
    } else {
      q := Body(body + [c]);
      UnitEnds(body, [c]);
      assert [60, 33, 45, 45] + (body + [c]) == [60, 33, 45, 45] + body + [c];
    }
  }

  lemma UnitEnds(body: seq<byte>, unit: seq<byte>)
    requires RemarkBody(body)
    requires (|unit| == 1 && unit[0] != 45) || (|unit| == 2 && unit[0] == 45 && unit[1] != 45)
          || (|unit| == 3 && unit[0] == 45 == unit[1] && unit[2] != 62)
    ensures RemarkBody(body + unit)
  {
    assert unit[|unit|..] == [];
    RemarkBodyGrows(body, unit);
  }

  lemma AfterBodyDash(body: seq<byte>, at: nat, c: byte, nonws: bool) returns (q: Part)
    requires RemarkBody(body)
    ensures Grows(BodyDash(body), at, c, Reading(BodyDash(body), at, c, nonws), q)
  {
    Rebracket([60, 33, 45, 45] + body, [45], [c]);
    if c == 45 {
      q := BodyDashDash(body);
    } else {
      q := Body(body + [45, c]);
      UnitEnds(body, [45, c]);
      Rebracket([60, 33, 45, 45], body, [45, c]);
    }
  }

  lemma AfterBodyDashDash(body: seq<byte>, at: nat, c: byte, nonws: bool) returns (done: Option<Item>, q: Part)
    requires RemarkBody(body)
    ensures Advances(BodyDashDash(body), at, c, nonws, Reading(BodyDashDash(body), at, c, nonws), done, q)
  {
    if c == 62 {
      done, q := Some(Remark(body)), Nothing;
      RemarkEnds(body, at, nonws);
    } else {
      done, q := None, Body(body + [45, 45, c]);
      UnitEnds(body, [45, 45, c]);
      DashesGoOn(body, c);
    }
  }

  lemma RemarkEnds(body: seq<byte>, at: nat, nonws: bool)
    requires RemarkBody(body)
    ensures Completes(BodyDashDash(body), at, 62, nonws, Reading(BodyDashDash(body), at, 62, nonws), Remark(body))
  {
    Rebracket([60, 33, 45, 45], body, [45, 45, 62]);
    assert [45, 45, 62] == [45, 45] + [62];
    Rebracket([60, 33, 45, 45] + body, [45, 45], [62]);
  }

  lemma DashesGoOn(body: seq<byte>, c: byte)
    ensures [60, 33, 45, 45] + (body + [45, 45, c]) == [60, 33, 45, 45] + body + [45, 45] + [c]
  {
  }

  lemma AfterLtSlash(at: nat, c: byte, nonws: bool)
    requires Fine(Reading(LtSlash, at, c, nonws))
    ensures Grows(LtSlash, at, c, Reading(LtSlash, at, c, nonws), CloseName([c]))
  {
  }

  lemma AfterCloseName(name: seq<byte>, at: nat, c: byte, nonws: bool) returns (done: Option<Item>, q: Part)
    requires IsName(name) && Fine(Reading(CloseName(name), at, c, nonws))
    ensures Advances(CloseName(name), at, c, nonws, Reading(CloseName(name), at, c, nonws), done, q)
  {
    if c == 62 {
      done, q := Some(Closing(name, [])), Nothing;
      assert [60, 47] + name + [62] == [60, 47] + (name + ([] + [62]));
    } else if White(c) {
      done, q := None, CloseGap(name, [c]);
    } else {
      done, q := None, CloseName(name + [c]);
      assert [60, 47] + (name + [c]) == [60, 47] + name + [c];
    }
  }

  lemma AfterCloseGap(name: seq<byte>, gap: seq<byte>, at: nat, c: byte, nonws: bool)
    returns (done: Option<Item>, q: Part)
    requires ValidPart(CloseGap(name, gap)) && Fine(Reading(CloseGap(name, gap), at, c, nonws))
    ensures Advances(CloseGap(name, gap), at, c, nonws, Reading(CloseGap(name, gap), at, c, nonws), done, q)
  {
    if c == 62 {
      done, q := Some(Closing(name, gap)), Nothing;
      assert [60, 47] + name + gap + [62] == [60, 47] + (name + (gap + [62]));
    } else {
      done, q := None, CloseGap(name, gap + [c]);
      assert [60, 47] + name + (gap + [c]) == [60, 47] + name + gap + [c];
    }
  }

  lemma AfterTagName(name: seq<byte>, at: nat, c: byte, nonws: bool) returns (done: Option<Item>, q: Part)
    requires IsName(name) && Fine(Reading(TagName(name), at, c, nonws))
    ensures Advances(TagName(name), at, c, nonws, Reading(TagName(name), at, c, nonws), done, q)
  {
    if c == 62 {
      done, q := Some(Opening(name, [], [], false)), Nothing;
      BareTag(name, at);
    } else if NameBody(c) {
      done, q := None, TagName(name + [c]);
      Rebracket([60], name, [c]);
    } else {
      q := TagNameEnds(name, at, c, nonws);
      done := None;
    }
  }

  lemma TagNameEnds(name: seq<byte>, at: nat, c: byte, nonws: bool) returns (q: Part)
    requires IsName(name) && c != 62 && !NameBody(c) && Fine(Reading(TagName(name), at, c, nonws))
    ensures Grows(TagName(name), at, c, Reading(TagName(name), at, c, nonws), q)
  {
    assert Head(name, []) == [60] + name;
    if c == 47 {
      q := Slashed(name, [], []);
      assert Head(name, []) + [] + [47] == [60] + name + [47];
    } else {
      q := Inside(name, [], [c]);
    }
  }

  lemma BareTag(name: seq<byte>, at: nat)
    ensures OpeningTag(name, [], [], false) == [60] + name + [62]
    ensures OpeningEvents(name, [], [], false, at) == [StartTag(At(at), name), EndTag(At(at + |name| + 2), false)]
  {
  }

  lemma AfterInside(p: Part, at: nat, c: byte, nonws: bool) returns (done: Option<Item>, q: Part)
    requires p.Inside? && ValidPart(p) && Fine(Reading(p, at, c, nonws))
    ensures Advances(p, at, c, nonws, Reading(p, at, c, nonws), done, q)
  {
    if c == 62 {
      done, q := Some(Opening(p.name, p.attrs, p.gap, false)), Nothing;
      TagEnds(p, at, nonws);
    } else {
      q := InsideGoesOn(p, at, c, nonws);
      done := None;
    }
  }

  lemma TagEnds(p: Part, at: nat, nonws: bool)
    requires p.Inside? && ValidPart(p)
    ensures Completes(p, at, 62, nonws, Reading(p, at, 62, nonws), Opening(p.name, p.attrs, p.gap, false))
  {
    WholeTag(p.name, p.attrs, p.gap, false);
    TagEndsSo(p, at, nonws, EndTag(At(at + |PrintPart(p)| + 1), false));
  }

  lemma TagEndsSo(p: Part, at: nat, nonws: bool, e: Event)
    requires p.Inside? && e == EndTag(At(at + |PrintPart(p)| + 1), false)
    requires OpeningTag(p.name, p.attrs, p.gap, false) == PrintPart(p) + [62]
    ensures Reading(p, at, 62, nonws) == Went(Start, [e])
    ensures OpeningEvents(p.name, p.attrs, p.gap, false, at) == PartEvents(p, at) + [e]
  {
  }

  lemma InsideGoesOn(p: Part, at: nat, c: byte, nonws: bool) returns (q: Part)
    requires p.Inside? && ValidPart(p) && c != 62 && Fine(Reading(p, at, c, nonws))
    ensures Grows(p, at, c, Reading(p, at, c, nonws), q)
  {
    if c == 47 {
      q := Slashed(p.name, p.attrs, p.gap);
    } else if White(c) {
      q := Inside(p.name, p.attrs, p.gap + [c]);
      Rebracket(Head(p.name, p.attrs), p.gap, [c]);
    } else {
      q := InAttrName(p.name, p.attrs, Attr(p.gap, [c], [], [], 39, []));
    }
  }

  lemma WholeTag(name: seq<byte>, attrs: seq<Attr>, gap: seq<byte>, empty: bool)
    ensures OpeningTag(name, attrs, gap, empty) == Head(name, attrs) + gap + TagEnd(empty)
  {
    Rebracket([60], name, PrintAttrs(attrs) + (gap + TagEnd(empty)));
    Rebracket([60] + name, PrintAttrs(attrs), gap + TagEnd(empty));
    Rebracket(Head(name, attrs), gap, TagEnd(empty));
  }

  lemma AfterSlash(p: Part, at: nat, c: byte, nonws: bool) returns (done: Item)
    requires p.Slashed? && ValidPart(p) && Fine(Reading(p, at, c, nonws))
    ensures Completes(p, at, c, nonws, Reading(p, at, c, nonws), done)
  {
    done := Opening(p.name, p.attrs, p.gap, true);
    WholeTag(p.name, p.attrs, p.gap, true);
    assert PrintPart(p) + [62] == Head(p.name, p.attrs) + p.gap + [47, 62];
  }

  lemma AfterName(p: Part, at: nat, c: byte, nonws: bool) returns (q: Part)
    requires p.InAttrName? && ValidPart(p) && Fine(Reading(p, at, c, nonws))
    ensures Grows(p, at, c, Reading(p, at, c, nonws), q)
  {
    if NameBody(c) {
      q := InAttrName(p.name, p.attrs, p.a.(name := p.a.name + [c]));
      Rebracket(Head(p.name, p.attrs) + p.a.lead, p.a.name, [c]);
    } else {
      q := AfterAttrNameEnds(p, at, c, nonws);
    }
  }

  lemma AfterAttrNameEnds(p: Part, at: nat, c: byte, nonws: bool) returns (q: Part)
    requires p.InAttrName? && ValidPart(p) && !NameBody(c) && Fine(Reading(p, at, c, nonws))
    ensures Grows(p, at, c, Reading(p, at, c, nonws), q)
  {
    if c == 61 {
      q := AfterSign(p.name, p.attrs, p.a.(afterEq := []));
      assert UpToName(p) + [] + [61] + [] == UpToName(p) + [61];
    } else {
      q := AfterAttrName(p.name, p.attrs, p.a.(beforeEq := [c]));
    }
  }

  lemma AfterGap(p: Part, at: nat, c: byte, nonws: bool) returns (q: Part)
    requires p.AfterAttrName? && ValidPart(p) && Fine(Reading(p, at, c, nonws))
    ensures Grows(p, at, c, Reading(p, at, c, nonws), q)
  {
    if c == 61 {
      q := AfterSign(p.name, p.attrs, p.a.(afterEq := []));
      assert UpToName(p) + p.a.beforeEq + [61] + [] == UpToName(p) + p.a.beforeEq + [61];
    } else {
      q := AfterAttrName(p.name, p.attrs, p.a.(beforeEq := p.a.beforeEq + [c]));
      Rebracket(UpToName(p), p.a.beforeEq, [c]);
    }
  }

  lemma AfterEqualsSign(p: Part, at: nat, c: byte, nonws: bool) returns (q: Part)
    requires p.AfterSign? && ValidPart(p) && Fine(Reading(p, at, c, nonws))
    ensures Grows(p, at, c, Reading(p, at, c, nonws), q)
  {
    if White(c) {
      q := AfterSign(p.name, p.attrs, p.a.(afterEq := p.a.afterEq + [c]));
      Rebracket(UpToName(p) + p.a.beforeEq + [61], p.a.afterEq, [c]);
    } else {
      q := InAttrValue(p.name, p.attrs, p.a.(quote := c, value := []));
      assert PrintPart(p) + [c] + [] == PrintPart(p) + [c];
    }
  }

  lemma AfterValue(p: Part, at: nat, c: byte, nonws: bool) returns (q: Part)
    requires p.InAttrValue? && ValidPart(p) && Fine(Reading(p, at, c, nonws))
    ensures Grows(p, at, c, Reading(p, at, c, nonws), q)
  {
    if c == p.a.quote {
      q := ValueEnds(p, at, nonws);
    } else {
      q := ValueGoesOn(p, at, c, nonws);
    }
  }

  lemma ValueGoesOn(p: Part, at: nat, c: byte, nonws: bool) returns (q: Part)
    requires p.InAttrValue? && ValidPart(p) && c != p.a.quote && c != 60
    ensures Grows(p, at, c, Reading(p, at, c, nonws), q)
  {
    q := InAttrValue(p.name, p.attrs, p.a.(value := p.a.value + [c]));
    Rebracket(UpToName(p) + p.a.beforeEq + [61] + p.a.afterEq + [p.a.quote], p.a.value, [c]);
  }

  lemma ValueEnds(p: Part, at: nat, nonws: bool) returns (q: Part)
    requires p.InAttrValue? && ValidPart(p)
    ensures Grows(p, at, p.a.quote, Reading(p, at, p.a.quote, nonws), q)
  {
    q := Inside(p.name, p.attrs + [p.a], []);
    var e := AttrEvent(p.a, at + |Head(p.name, p.attrs)|);
    QuoteEnds(p, at, nonws, e);
    AttrCompleted(p, at, e);
    OneAttrMore(p.attrs, p.a);
    TagEventsMore(p, q, at, e);
  }

  lemma QuoteEnds(p: Part, at: nat, nonws: bool, e: Event)
    requires p.InAttrValue? && e == AttrEvent(p.a, at + |Head(p.name, p.attrs)|)
    ensures Reading(p, at, p.a.quote, nonws) == Went(InOpenElement, [e])
  {
  }

  lemma OneAttrMore(attrs: seq<Attr>, a: Attr)
    requires Ahead(attrs, a)
    ensures ValidTag(attrs + [a], [])
  {
  }

  lemma TagEventsMore(p: Part, q: Part, at: nat, e: Event)
    requires InTag(p) && InTag(q) && q.name == p.name
    requires AttrEvents(q.attrs, at + 1 + |p.name|) == AttrEvents(p.attrs, at + 1 + |p.name|) + [e]
    ensures PartEvents(q, at) == PartEvents(p, at) + [e]
  {
    EventsChain([StartTag(At(at), p.name)], AttrEvents(p.attrs, at + 1 + |p.name|), [e]);
  }

  lemma AttrCompleted(p: Part, at: nat, e: Event)
    requires p.InAttrValue? && e == AttrEvent(p.a, at + |Head(p.name, p.attrs)|)
    ensures Head(p.name, p.attrs + [p.a]) + [] == PrintPart(p) + [p.a.quote]
    ensures AttrEvents(p.attrs + [p.a], at + 1 + |p.name|) == AttrEvents(p.attrs, at + 1 + |p.name|) + [e]
  {
    AttrsSnoc(p.attrs, p.a, at + 1 + |p.name|);
    Rebracket([60] + p.name, PrintAttrs(p.attrs), PrintAttr(p.a));
    AttrFlat(Head(p.name, p.attrs), p.a);
  }

  lemma AttrFlat(head: seq<byte>, a: Attr)
    ensures head + PrintAttr(a)
         == head + a.lead + a.name + a.beforeEq + [61] + a.afterEq + [a.quote] + a.value + [a.quote]
  {
    var value := a.value + [a.quote];
    var quoted := [a.quote] + value;
    Rebracket(head, a.lead, a.name + (a.beforeEq + ([61] + (a.afterEq + quoted))));
    Rebracket(head + a.lead, a.name, a.beforeEq + ([61] + (a.afterEq + quoted)));
    Rebracket(head + a.lead + a.name, a.beforeEq, [61] + (a.afterEq + quoted));
    Rebracket(head + a.lead + a.name + a.beforeEq, [61], a.afterEq + quoted);
    Rebracket(head + a.lead + a.name + a.beforeEq + [61], a.afterEq, quoted);
    Rebracket(head + a.lead + a.name + a.beforeEq + [61] + a.afterEq, [a.quote], value);
    Rebracket(head + a.lead + a.name + a.beforeEq + [61] + a.afterEq + [a.quote], a.value, [a.quote]);
  }

  lemma {:induction false} AttrsSnoc(attrs: seq<Attr>, a: Attr, at: nat)
    ensures PrintAttrs(attrs + [a]) == PrintAttrs(attrs) + PrintAttr(a)
    ensures AttrEvents(attrs + [a], at) == AttrEvents(attrs, at) + [AttrEvent(a, at + |PrintAttrs(attrs)|)]
    decreases |attrs|
  {
    if attrs == [] {
      assert attrs + [a] == [a] && [a][1..] == [];
    } else {
      assert (attrs + [a])[1..] == attrs[1..] + [a];
      AttrsSnoc(attrs[1..], a, at + |PrintAttr(attrs[0])|);
    }
  }

  // ----- Together -----

  lemma PartAdvances(p: Part, at: nat, c: byte, nonws: bool) returns (done: Option<Item>, q: Part)
    requires ValidPart(p) && Fine(Reading(p, at, c, nonws))
    ensures Advances(p, at, c, nonws, Reading(p, at, c, nonws), done, q)
  {
    done := None;
    match p
    case Nothing => done, q := AfterNothingRead(at, c, nonws);
    case Lt => q := AfterLt(at, c, nonws);
    case Excl =>
      AfterExcl(at, c, nonws);
      q := ExclDash;
    case ExclDash =>
      AfterExclDash(at, c, nonws);
      q := Body([]);
    case Body(body) => q := AfterBody(body, at, c, nonws);
    case BodyDash(body) => q := AfterBodyDash(body, at, c, nonws);
    case BodyDashDash(body) => done, q := AfterBodyDashDash(body, at, c, nonws);
    case TagName(name) => done, q := AfterTagName(name, at, c, nonws);
    case Inside(_, _, _) => done, q := AfterInside(p, at, c, nonws);
    case Slashed(_, _, _) =>
      var i := AfterSlash(p, at, c, nonws);
      done, q := Some(i), Nothing;
    case InAttrName(_, _, _) => q := AfterName(p, at, c, nonws);
    case AfterAttrName(_, _, _) => q := AfterGap(p, at, c, nonws);
    case AfterSign(_, _, _) => q := AfterEqualsSign(p, at, c, nonws);
    case InAttrValue(_, _, _) => q := AfterValue(p, at, c, nonws);
    case LtSlash =>
      AfterLtSlash(at, c, nonws);
      q := CloseName([c]);
    case CloseName(name) => done, q := AfterCloseName(name, at, c, nonws);
    case CloseGap(name, gap) => done, q := AfterCloseGap(name, gap, at, c, nonws);
  }

  /** What the lexer has read, and is not bad, is items and a part of one. */
  ghost predicate Parsed(s: seq<byte>, nonws: bool, o: Outcome, items: seq<Item>, p: Part) {
    && AllValid(items, nonws) && ValidPart(p) && s == PrintItems(items) + PrintPart(p)
    && o == Went(StateOf(p, |PrintItems(items)|), AllEvents(items) + PartEvents(p, |PrintItems(items)|))
  }

  lemma {:induction false} RunParses(s: seq<byte>, nonws: bool, r: Outcome) returns (items: seq<Item>, p: Part)
    requires r == Run(Start, s, 0, 0, nonws) && Fine(r)
    ensures Parsed(s, nonws, r, items, p)
    decreases |s|
  {
    if s == [] {
      items, p := [], Nothing;
      assert [] + PartEvents(Nothing, 0) == [];
    } else {
      var front, c := s[..|s| - 1], s[|s| - 1];
      var o := Run(Start, front, 0, 0, nonws);
      assert s == front + [c];
      RunSnoc(front, c, nonws, o, r);
      var before, q := RunParses(front, nonws, o);
      items, p := OneByteMore(front, c, nonws, o, before, q, Step(o.state, c, At(|front|), At(|front| + 1), nonws));
    }
  }

  lemma RunSnoc(s: seq<byte>, c: byte, nonws: bool, o: Outcome, r: Outcome)
    requires o == Run(Start, s, 0, 0, nonws) && r == Run(Start, s + [c], 0, 0, nonws) && Fine(r)
    ensures Fine(o) && Fine(Step(o.state, c, At(|s|), At(|s| + 1), nonws))
    ensures r == After(o.events, Step(o.state, c, At(|s|), At(|s| + 1), nonws))
  {
    RunAppend(Start, s, [c], 0, 0, nonws);
    LastByte(o, c, |s|, nonws, r);
  }

  lemma LastByte(o: Outcome, c: byte, at: nat, nonws: bool, r: Outcome)
    requires r == if o.Went? then After(o.events, Run(o.state, [c], 0, at, nonws)) else o
    requires Fine(r)
    ensures Fine(o) && Fine(Step(o.state, c, At(at), At(at + 1), nonws))
    ensures r == After(o.events, Step(o.state, c, At(at), At(at + 1), nonws))
  {
    RunOne(o.state, c, 0, at, nonws);
  }

  lemma OneByteMore(s: seq<byte>, c: byte, nonws: bool, o: Outcome, items: seq<Item>, p: Part, next: Outcome)
    returns (more: seq<Item>, q: Part)
    requires Parsed(s, nonws, o, items, p) && Fine(next)
    requires next == Step(o.state, c, At(|s|), At(|s| + 1), nonws)
    ensures Parsed(s + [c], nonws, After(o.events, next), more, q)
  {
    var at := |PrintItems(items)|;
    assert next == Reading(p, at, c, nonws);
    var done;
    done, q := PartAdvances(p, at, c, nonws);
    if done.Some? {
      more := items + [done.value];
      ItemCompleted(s, c, nonws, o, items, p, next, done.value, at);
    } else {
      more := items;
      PartGrew(s, c, nonws, o, items, p, next, q, at);
    }
  }

  lemma PartGrew(s: seq<byte>, c: byte, nonws: bool, o: Outcome, items: seq<Item>, p: Part, next: Outcome, q: Part,
                 at: nat)
    requires Parsed(s, nonws, o, items, p) && at == |PrintItems(items)| && Grows(p, at, c, next, q)
    ensures Parsed(s + [c], nonws, After(o.events, next), items, q)
  {
    Rebracket(PrintItems(items), PrintPart(p), [c]);
    EventsChain(AllEvents(items), PartEvents(p, at), next.events);
  }

  lemma ItemCompleted(s: seq<byte>, c: byte, nonws: bool, o: Outcome, items: seq<Item>, p: Part, next: Outcome, i: Item,
                      at: nat)
    requires Parsed(s, nonws, o, items, p) && at == |PrintItems(items)| && Completes(p, at, c, nonws, next, i)
    ensures Parsed(s + [c], nonws, After(o.events, next), items + [i], Nothing)
  {
    Rebracket(PrintItems(items), PrintPart(p), [c]);
    EventsChain(AllEvents(items), PartEvents(p, at), next.events);
    OneItemMore(items, i);
    NothingMore(items + [i]);
  }

  lemma NothingMore(items: seq<Item>)
    ensures PrintItems(items) + PrintPart(Nothing) == PrintItems(items)
    ensures forall at: nat :: AllEvents(items) + PartEvents(Nothing, at) == AllEvents(items)
  {
  }

  lemma EventsChain(a: seq<Event>, b: seq<Event>, c: seq<Event>)
    ensures a + b + c == a + (b + c)
  {
  }

  lemma AcceptedIsPrinted(s: seq<byte>, nonws: bool, es: seq<Event>) returns (items: seq<Item>)
    requires Run(Start, s, 0, 0, nonws) == Went(Start, es)
    ensures AllValid(items, nonws) && s == PrintItems(items) && es == AllEvents(items)
  {
    var p;
    items, p := RunParses(s, nonws, Went(Start, es));
    OnlyNothingEndsThere(p, |PrintItems(items)|);
    NothingMore(items);
  }

  lemma OnlyNothingEndsThere(p: Part, at: nat)
    requires StateOf(p, at) == Start
    ensures p == Nothing
  {
  }

  /** The lexer reads a text to the end and is ready for more if and only if the text is a sequence of valid items
      printed one after the other; and then it reports exactly their events. */
  lemma AcceptsExactly(s: seq<byte>, nonws: bool, es: seq<Event>)
    ensures Run(Start, s, 0, 0, nonws) == Went(Start, es)
            <==> exists items :: AllValid(items, nonws) && s == PrintItems(items) && es == AllEvents(items)
  {
    if Run(Start, s, 0, 0, nonws) == Went(Start, es) {
      var items := AcceptedIsPrinted(s, nonws, es);
    }
    forall items | AllValid(items, nonws) && s == PrintItems(items) && es == AllEvents(items)
      ensures Run(Start, s, 0, 0, nonws) == Went(Start, es)
    {
      ReadsItems(items, nonws);
    }
  }

  /** The same through any buffers, at the places the handles stand for. */
  lemma AcceptsBuffersExactly(
    bufs: seq<seq<byte>>, handles: seq<nat>, starts: map<nat, nat>, nonws: bool, es: seq<Event>)
    requires |bufs| == |handles| && StartsAt(bufs, handles, starts, 0)
    ensures var o := LexAll(Start, bufs, handles, nonws);
            o.Went? && o.state == Start && AbsoluteEvents(o.events, starts) == es
            <==> exists items :: AllValid(items, nonws) && Concat(bufs) == PrintItems(items) && es == AllEvents(items)
  {
    BuffersDoNotMatter(Start, bufs, handles, nonws, starts, 0);
    AcceptsExactly(Concat(bufs), nonws, es);
  }
}
