/** The lexer as the source has it: two levels of state, a name buffer, and positions that are live or not. */
module XmlLexing {
  import opened Basics
  import opened XmlStream

  datatype XState =
    | XBad | XStart | XLess
    | XCommentExcl | XCommentExclDash | XInComment | XDashInComment | XDashDashInComment
    | XOpenElement | XInOpenElement | XEmptyElementEnd
    | XCloseElement | XInCloseElement
    | XAttr | XAttrAfterEq | XAttrSQ | XAttrDQ

  datatype XSubState = XSNone | XSBad | XSStartName | XSInName

  /** The state that is copied at the start of a call and stored back at its end. */
  datatype LocalState = LocalState(
    state: XState, substate: XSubState, namepos: nat,
    usedElbegin: bool, usedAttr: bool,
    elbegin: Position, attrbegin: Position, attrvalbegin: Position)

  const NOWHERE := Position(0, 0)

  predicate NameIs(ss: LocalState, buffer: seq<byte>, name: seq<byte>) {
    |buffer| == NAME_SIZE && ss.namepos == |name| <= NAME_SIZE && buffer[..ss.namepos] == name
  }

  predicate Shape(ss: LocalState, state: XState, substate: XSubState, usedElbegin: bool, usedAttr: bool) {
    ss.state == state && ss.substate == substate && ss.usedElbegin == usedElbegin && ss.usedAttr == usedAttr
  }

  /** The fields, with the name buffer, stand for the state `x`. At most one of the two flags is ever set. */
  predicate Matches(ss: LocalState, buffer: seq<byte>, x: State) {
    match x
    case Bad(None) => ss.state == XBad && !ss.usedElbegin && !ss.usedAttr
    case Bad(Some(p)) =>
      ss.state == XBad && ss.usedElbegin != ss.usedAttr && p == if ss.usedElbegin then ss.elbegin else ss.attrbegin
    case Start => Shape(ss, XStart, XSNone, false, false)
    case Less(begin) => Shape(ss, XLess, XSNone, true, false) && ss.elbegin == begin
    case CommentExcl => Shape(ss, XCommentExcl, XSNone, false, false)
    case CommentExclDash => Shape(ss, XCommentExclDash, XSNone, false, false)
    case InComment => Shape(ss, XInComment, XSNone, false, false)
    case DashInComment => Shape(ss, XDashInComment, XSNone, false, false)
    case DashDashInComment => Shape(ss, XDashDashInComment, XSNone, false, false)
    case InName(kind, name) => NameIs(ss, buffer, name) && MatchesKind(ss, kind, XSInName)
    case InOpenElement => Shape(ss, XInOpenElement, XSNone, false, false)
    case EmptyElementEnd => Shape(ss, XEmptyElementEnd, XSNone, false, false)
    case CloseStart(begin) =>
      Shape(ss, XCloseElement, XSStartName, true, false) && ss.elbegin == begin && ss.namepos == 0
    case InCloseElement(begin, name) =>
      Shape(ss, XInCloseElement, XSNone, true, false) && ss.elbegin == begin && NameIs(ss, buffer, name)
    case AfterAttributeName(begin, name) => NameIs(ss, buffer, name) && MatchesKind(ss, AttributeOf(begin), XSNone)
    case AfterEquals(begin, name) =>
      Shape(ss, XAttrAfterEq, XSNone, false, true) && ss.attrbegin == begin && NameIs(ss, buffer, name)
    case InValue(begin, valbegin, name, quote) =>
      && (quote == SINGLEQUOTE || quote == DOUBLEQUOTE)
      && Shape(ss, if quote == SINGLEQUOTE then XAttrSQ else XAttrDQ, XSNone, false, true)
      && ss.attrbegin == begin && ss.attrvalbegin == valbegin && NameIs(ss, buffer, name)
  }

  predicate MatchesKind(ss: LocalState, kind: NameOf, substate: XSubState) {
    match kind
    case OpenTag(begin) => Shape(ss, XOpenElement, substate, true, false) && ss.elbegin == begin
    case CloseOf(begin) => Shape(ss, XCloseElement, substate, true, false) && ss.elbegin == begin
    case AttributeOf(begin) => Shape(ss, XAttr, substate, false, true) && ss.attrbegin == begin
  }

  class Lexer {
    const name: array<byte>
    var nonwsok: bool
    var localstate: LocalState
    /** The calls made on the builder. */
    var calls: seq<Event>
    ghost var abs: State

    constructor ()
      ensures Valid() && abs == Start && calls == [] && !nonwsok && fresh(name)
    {
      name := new byte[NAME_SIZE];
      nonwsok := false;
      localstate := LocalState(XStart, XSNone, 0, false, false, NOWHERE, NOWHERE, NOWHERE);
      calls := [];
      abs := Start;
    }

    ghost predicate Valid()
      reads this, name
    {
      name.Length == NAME_SIZE && Matches(localstate, name[..], abs)
    }

    /** A step has had the outcome it should have. */
    twostate predicate Came(o: Outcome, ss: LocalState, threw: bool)
      reads this, name
    {
      && calls == old(calls) + o.events
      && threw == o.Threw?
      && (o.Went? ==> Matches(ss, name[..], o.state))
    }

    method PutName(c: byte, ss: LocalState, ghost soFar: seq<byte>) returns (ss': LocalState)
      requires name.Length == NAME_SIZE && |soFar| < NAME_SIZE && NameIs(ss, name[..], soFar)
      modifies name
      ensures ss' == ss.(namepos := ss.namepos + 1) && NameIs(ss', name[..], soFar + [c])
    {
      name[ss.namepos] := c;
      ss' := ss.(namepos := ss.namepos + 1);
    }

    /** The substates of a name. A name that ends leaves the character to the outer state. */
    method AdvanceName(c: byte, ss: LocalState, ghost x: State) returns (ss': LocalState, threw: bool)
      requires name.Length == NAME_SIZE && Matches(ss, name[..], x)
      requires x.InName? || x.CloseStart?
      modifies name
      ensures x.InName? && !IsNameBody(c) ==>
                !threw && NameIs(ss', name[..], x.name) && MatchesKind(ss', x.kind, XSNone)
      ensures x.InName? && IsNameBody(c) && |x.name| >= NAME_SIZE ==> threw
      ensures x.InName? && IsNameBody(c) && |x.name| < NAME_SIZE ==>
                !threw && Matches(ss', name[..], InName(x.kind, x.name + [c]))
      ensures x.CloseStart? && IsNameStart(c) ==> !threw && Matches(ss', name[..], InName(CloseOf(x.begin), [c]))
      ensures x.CloseStart? && !IsNameStart(c) ==> !threw && ss' == ss.(substate := XSBad)
    {
      ss', threw := ss, false;
      if ss.substate == XSStartName {
        if IsNameStart(c) {
          ss' := ss'.(substate := XSInName);
          ss' := PutName(c, ss', []);
          assert [] + [c] == [c];
        } else {
          ss' := ss'.(substate := XSBad);
        }
      } else {
        if !IsNameBody(c) {
          ss' := ss'.(substate := XSNone);
        } else {
          if ss.namepos >= name.Length {
            threw := true;
            return;
          }
          ss' := PutName(c, ss', x.name);
        }
      }
    }

    /** The outer states XOpenElement, XCloseElement and XAttr, after the name. */
    method AdvanceAfterName(c: byte, i: nat, bh: nat, ss: LocalState, ghost kind: NameOf, ghost nm: seq<byte>)
      returns (ss': LocalState)
      requires name.Length == NAME_SIZE && NameIs(ss, name[..], nm) && MatchesKind(ss, kind, XSNone)
      requires !IsNameBody(c)
      modifies this`calls
      ensures Came(NameEnds(kind, nm, c, Position(bh, i + 1)), ss', false)
    {
      ss' := ss;
      if ss.state == XOpenElement {
        calls := calls + [StartTag(ss.elbegin, name[..ss.namepos])];
        ss' := ss'.(usedElbegin := false);
        if c == GREATERTHAN {
          calls := calls + [EndTag(Position(bh, i + 1), false)];
          ss' := ss'.(state := XStart);
        } else if IsWhite(c) {
          ss' := ss'.(state := XInOpenElement);
        } else if c == SLASH {
          ss' := ss'.(state := XEmptyElementEnd);
        } else {
          ss' := ss'.(state := XBad);
        }
      } else if ss.state == XCloseElement {
        if IsWhite(c) {
          ss' := ss'.(state := XInCloseElement);
        } else if c == GREATERTHAN {
          calls := calls + [CloseTag(ss.elbegin, Position(bh, i + 1), name[..ss.namepos])];
          ss' := ss'.(usedElbegin := false, state := XStart);
        } else {
          ss' := ss'.(state := XBad);
        }
      } else {
        ss' := AdvanceAttr(c, ss);
      }
    }

    /** The outer state XAttr. */
    method AdvanceAttr(c: byte, ss: LocalState) returns (ss': LocalState)
      ensures ss' == if c == EQUALS then ss.(state := XAttrAfterEq) else if IsWhite(c) then ss else ss.(state := XBad)
    {
      ss' := ss;
      if c == EQUALS {
        ss' := ss'.(state := XAttrAfterEq);
      } else if !IsWhite(c) {
        ss' := ss'.(state := XBad);
      }
    }

    /** The outer states between tags and in comments. */
    method AdvanceOutside(c: byte, i: nat, bh: nat, ss: LocalState, ghost x: State) returns (ss': LocalState)
      requires name.Length == NAME_SIZE && Matches(ss, name[..], x)
      requires x.Start? || x.Less? || x.CommentExcl? || x.CommentExclDash? || x.InComment? || x.DashInComment?
            || x.DashDashInComment?
      modifies name
      ensures Came(Step(x, c, Position(bh, i), Position(bh, i + 1), nonwsok), ss', false)
    {
      ss' := ss;
      match ss.state {
        case XStart =>
          if c == LESSTHAN {
            ss' := ss'.(elbegin := Position(bh, i), usedElbegin := true, state := XLess);
          } else if !(nonwsok || IsWhite(c)) {
            ss' := ss'.(state := XBad);
          }
        case XLess =>
          if c == EXCLAMATION {
            ss' := ss'.(state := XCommentExcl, usedElbegin := false);
          } else if IsNameStart(c) {
            ss' := ss'.(state := XOpenElement, substate := XSInName, namepos := 0);
            ss' := PutName(c, ss', []);
            assert [] + [c] == [c];
          } else if c == SLASH {
            ss' := ss'.(state := XCloseElement, substate := XSStartName, namepos := 0);
          } else {
            ss' := ss'.(state := XBad);
          }
        case XCommentExcl =>
          ss' := ss'.(state := if c == DASH then XCommentExclDash else XBad);
        case XCommentExclDash =>
          ss' := ss'.(state := if c == DASH then XInComment else XBad);
        case XInComment =>
          if c == DASH {
            ss' := ss'.(state := XDashInComment);
          }
        case XDashInComment =>
          ss' := ss'.(state := if c == DASH then XDashDashInComment else XInComment);
        case XDashDashInComment =>
          ss' := ss'.(state := if c == GREATERTHAN then XStart else XInComment);
      }
      assert calls + [] == calls;
    }

    /** The outer states inside a tag, between names. */
    method AdvanceInside(c: byte, i: nat, bh: nat, ss: LocalState, ghost x: State) returns (ss': LocalState)
      requires name.Length == NAME_SIZE && Matches(ss, name[..], x)
      requires x.InOpenElement? || x.EmptyElementEnd? || x.InCloseElement?
      modifies this`calls, name
      ensures Came(Step(x, c, Position(bh, i), Position(bh, i + 1), nonwsok), ss', false)
    {
      ss' := ss;
      assert calls + [] == calls;
      match ss.state {
        case XInOpenElement =>
          if c == GREATERTHAN {
            calls := calls + [EndTag(Position(bh, i + 1), false)];
            ss' := ss'.(state := XStart);
          } else if c == SLASH {
            ss' := ss'.(state := XEmptyElementEnd);
          } else if IsNameStart(c) {
            ss' := ss'.(state := XAttr, namepos := 0);
            ss' := PutName(c, ss', []);
            assert [] + [c] == [c];
            ss' := ss'.(attrbegin := Position(bh, i), usedAttr := true, substate := XSInName);
          } else if !IsWhite(c) {
            ss' := ss'.(state := XBad);
          }
        case XEmptyElementEnd =>
          if c == GREATERTHAN {
            calls := calls + [EndTag(Position(bh, i + 1), true)];
            ss' := ss'.(state := XStart);
          } else {
            ss' := ss'.(state := XBad);
          }
        case XInCloseElement =>
          if c == GREATERTHAN {
            calls := calls + [CloseTag(ss.elbegin, Position(bh, i + 1), name[..ss.namepos])];
            ss' := ss'.(usedElbegin := false, state := XStart);
          } else if !IsWhite(c) {
            ss' := ss'.(state := XBad);
          }
      }
    }

    /** The outer states of an attribute, after its name. */
    method AdvanceAttribute(c: byte, i: nat, bh: nat, ss: LocalState, ghost x: State) returns (ss': LocalState)
      requires name.Length == NAME_SIZE && Matches(ss, name[..], x)
      requires x.AfterAttributeName? || x.AfterEquals? || x.InValue?
      modifies this`calls
      ensures Came(Step(x, c, Position(bh, i), Position(bh, i + 1), nonwsok), ss', false)
    {
      ss' := ss;
      assert calls + [] == calls;
      if ss.state == XAttr {
        ss' := AdvanceAttr(c, ss);
      } else if ss.state == XAttrAfterEq {
        if c == DOUBLEQUOTE {
          ss' := ss'.(state := XAttrDQ, attrvalbegin := Position(bh, i + 1));
        } else if c == SINGLEQUOTE {
          ss' := ss'.(state := XAttrSQ, attrvalbegin := Position(bh, i + 1));
        } else if !IsWhite(c) {
          ss' := ss'.(state := XBad);
        }
      } else if (ss.state == XAttrSQ && c == SINGLEQUOTE) || (ss.state == XAttrDQ && c == DOUBLEQUOTE) {
        calls := calls
          + [Attribute(ss.attrbegin, Position(bh, i + 1), ss.attrvalbegin, Position(bh, i), name[..ss.namepos])];
        ss' := ss'.(usedAttr := false, state := XInOpenElement);
      } else if c == LESSTHAN {
        ss' := ss'.(state := XBad);
      }
    }

    static predicate IsOutside(state: XState) {
      || state == XStart || state == XLess || state == XCommentExcl || state == XCommentExclDash
      || state == XInComment || state == XDashInComment || state == XDashDashInComment
    }

    static predicate IsInside(state: XState) {
      state == XInOpenElement || state == XEmptyElementEnd || state == XInCloseElement
    }

    /** One character at offset `i` of the buffer called `bh`. */
    method AdvanceState(c: byte, i: nat, bh: nat, ss: LocalState, ghost x: State) returns (ss': LocalState, threw: bool)
      requires name.Length == NAME_SIZE && Matches(ss, name[..], x) && !x.Bad?
      modifies this`calls, name
      ensures Came(Step(x, c, Position(bh, i), Position(bh, i + 1), nonwsok), ss', threw)
    {
      ss', threw := ss, false;
      if ss.substate != XSNone {
        ss', threw := AdvanceName(c, ss, x);
        if threw {
          assert calls + [] == calls;
          return;
        }
      }
      if ss'.substate == XSBad {
        ss' := ss'.(state := XBad);
        assert calls + [] == calls;
      } else if ss'.substate == XSNone {
        if IsOutside(ss'.state) {
          ss' := AdvanceOutside(c, i, bh, ss', x);
        } else if IsInside(ss'.state) {
          ss' := AdvanceInside(c, i, bh, ss', x);
        } else if ss.substate != XSNone {
          ss' := AdvanceAfterName(c, i, bh, ss', x.kind, x.name);
        } else {
          ss' := AdvanceAttribute(c, i, bh, ss', x);
        }
      } else {
        assert calls + [] == calls;
      }
    }

    /** One buffer. Afterwards `lastbuf` names the earliest buffer that is still needed, and the result says
        whether there is one; a name that does not fit makes the call throw and leaves the stored state alone. */
    method Lex(buf: seq<byte>, bh: nat) returns (retained: bool, lastbuf: nat, threw: bool)
      requires Valid()
      modifies this`localstate, this`calls, this`abs, name
      ensures calls == old(calls) + Run(old(abs), buf, bh, 0, nonwsok).events
      ensures threw == Run(old(abs), buf, bh, 0, nonwsok).Threw?
      ensures threw ==> localstate == old(localstate)
      ensures !threw ==> Valid() && abs == Run(old(abs), buf, bh, 0, nonwsok).state
      ensures !threw ==> retained == Retained(abs).Some?
      ensures !threw && retained ==> lastbuf == Retained(abs).value.handle
    {
      assert buf[0..] == buf;
      var stackstate;
      ghost var x;
      stackstate, x, threw := LexAllCharacters(buf, bh);
      lastbuf := bh;
      if threw {
        return false, lastbuf, true;
      }
      localstate := stackstate;
      abs := x;
      if stackstate.usedElbegin {
        return true, stackstate.elbegin.handle, false;
      } else if stackstate.usedAttr {
        return true, stackstate.attrbegin.handle, false;
      }
      return false, lastbuf, false;
    }

    /** One call after the other, as far as none throws: the events and the final state are those of the whole. */
    method LexBuffers(bufs: seq<seq<byte>>, handles: seq<nat>) returns (threw: bool)
      requires Valid() && |bufs| == |handles|
      modifies this`localstate, this`calls, this`abs, name
      ensures calls == old(calls) + LexAll(old(abs), bufs, handles, nonwsok).events
      ensures threw == LexAll(old(abs), bufs, handles, nonwsok).Threw?
      ensures !threw ==> Valid() && abs == LexAll(old(abs), bufs, handles, nonwsok).state
      decreases |bufs|
    {
      threw := false;
      if bufs == [] {
        assert calls + [] == calls;
      } else {
        ghost var o := Run(abs, bufs[0], handles[0], 0, nonwsok);
        var _, _, threwNow := Lex(bufs[0], handles[0]);
        if threwNow {
          return true;
        }
        Chained(old(calls), o.events, LexAll(abs, bufs[1..], handles[1..], nonwsok).events);
        threw := LexBuffers(bufs[1..], handles[1..]);
      }
    }

    static lemma Chained(a: seq<Event>, b: seq<Event>, c: seq<Event>)
      ensures a + (b + c) == (a + b) + c
    {
    }

    /** What is left to do from character `i` on completes what has been reported to the whole. */
    ghost predicate Underway(
      buf: seq<byte>, i: nat, bh: nat, ss: LocalState, x: State, before: seq<Event>, all: Outcome)
      reads this, name
    {
      && i <= |buf| && name.Length == NAME_SIZE && Matches(ss, name[..], x)
      && before <= calls
      && all == After(calls[|before|..], Run(x, buf[i..], bh, i, nonwsok))
    }

    /** The loop over the characters; it stops early once the text is bad. */
    method LexAllCharacters(buf: seq<byte>, bh: nat) returns (stackstate: LocalState, ghost x: State, threw: bool)
      requires Valid()
      modifies this`calls, name
      ensures calls == old(calls) + Run(abs, buf, bh, 0, nonwsok).events
      ensures threw == Run(abs, buf, bh, 0, nonwsok).Threw?
      ensures !threw ==> Matches(stackstate, name[..], x) && x == Run(abs, buf, bh, 0, nonwsok).state
    {
      stackstate, x, threw := localstate, abs, false;
      ghost var all, before := Run(abs, buf, bh, 0, nonwsok), calls;
      var i := 0;
      assert buf[0..] == buf;
      AfterNothing(all);
      while i < |buf| && stackstate.state != XBad
        invariant Underway(buf, i, bh, stackstate, x, before, all)
      {
        stackstate, x, threw := LexOneCharacter(buf, i, bh, stackstate, x, before, all);
        if threw {
          return;
        }
        i := i + 1;
      }
      BadStays(x, buf[i..], bh, i, nonwsok);
      assert calls[|before|..] + [] == calls[|before|..];
    }

    method LexOneCharacter(
      buf: seq<byte>, i: nat, bh: nat, ss: LocalState, ghost x: State, ghost before: seq<Event>, ghost all: Outcome)
      returns (ss': LocalState, ghost x': State, threw: bool)
      requires i < |buf| && Underway(buf, i, bh, ss, x, before, all) && ss.state != XBad
      modifies this`calls, name
      ensures threw ==> all.Threw? && calls == before + all.events
      ensures !threw ==> Underway(buf, i + 1, bh, ss', x', before, all)
    {
      ghost var o := Step(x, buf[i], Position(bh, i), Position(bh, i + 1), nonwsok);
      ghost var told := calls[|before|..];
      assert buf[i..][0] == buf[i] && buf[i..][1..] == buf[i + 1..];
      ss', threw := AdvanceState(buf[i], i, bh, ss, x);
      assert calls[|before|..] == told + o.events;
      x' := x;
      if o.Went? {
        x' := o.state;
        AfterAfter(told, o.events, Run(o.state, buf[i + 1..], bh, i + 1, nonwsok));
      }
    }

    static lemma {:induction false} BadStays(x: State, text: seq<byte>, bh: nat, i: nat, nonws: bool)
      requires x.Bad? || text == []
      ensures Run(x, text, bh, i, nonws) == Quiet(x)
      decreases |text|
    {
      if text != [] {
        BadStays(x, text[1..], bh, i + 1, nonws);
        AfterNothing(Quiet(x));
      }
    }
  }
}
