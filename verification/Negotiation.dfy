/** Two telnet clients that answer each other's option negotiations, and why they fall silent. */
module Negotiations {
  import opened Basics
  import opened Chunks

  const ECHO: byte := 1
  const SUPGA: byte := 3

  predicate IsTelnetData(c: Chunk) {
    c.SingleChar? || c.OptionNegotiation? || c.Suboption?
  }

  /** What serverWrite puts into the slot to the server. */
  function Answer(c: Chunk): Option<Chunk> {
    if !c.OptionNegotiation? then None
    else if c.request == WILL then
      if c.option != ECHO && c.option != SUPGA then Some(OptionNegotiation(DONT, c.option)) else None
    else if c.request == DO then
      if c.option == SUPGA then Some(OptionNegotiation(WILL, SUPGA)) else Some(OptionNegotiation(WONT, c.option))
    else if c.request == DONT then Some(OptionNegotiation(WONT, c.option))
    else None
  }

  /** The requests WILL, WONT, DO and DONT are 251 to 254. Offers other than echo and suppress-go-ahead are refused, and
      so is everything that is asked for but suppress-go-ahead; a DONT is confirmed; nothing else is answered. */
  lemma AnswerMeans(option: byte)
    ensures Answer(OptionNegotiation(251, option)) ==
            if option == 1 || option == 3 then None else Some(OptionNegotiation(254, option))
    ensures Answer(OptionNegotiation(252, option)) == None
    ensures Answer(OptionNegotiation(253, option)) ==
            if option == 3 then Some(OptionNegotiation(251, 3)) else Some(OptionNegotiation(252, option))
    ensures Answer(OptionNegotiation(254, option)) == Some(OptionNegotiation(252, option))
    ensures forall c: Chunk | Answer(c).Some? :: c.OptionNegotiation? && c.request in {251, 253, 254}
  {
  }

  /** A client as a value. */
  datatype Client = Client(sentDoSupga: bool, sentDoEcho: bool, toserver: Option<Chunk>, touser: Option<Chunk>) {

    predicate Pending() {
      !sentDoSupga || !sentDoEcho
    }

    function DoProtocol(): Client {
      if Pending() && toserver.None? then
        if !sentDoSupga then this.(sentDoSupga := true, toserver := Some(OptionNegotiation(DO, SUPGA)))
        else this.(sentDoEcho := true, toserver := Some(OptionNegotiation(DO, ECHO)))
      else this
    }

    function Reset(): Client {
      this.(sentDoSupga := false, sentDoEcho := false).DoProtocol()
    }

    /** The server plug is writeable. */
    predicate CanWrite() {
      touser.None? && toserver.None?
    }

    function ServerWrite(c: Chunk): Client {
      if IsTelnetData(c) then this.(toserver := Answer(c)) else this.(touser := Some(c))
    }

    /** Reading the server plug empties the slot, and the client's own requests are next. */
    function ServerRead(): Client {
      this.(toserver := None).DoProtocol()
    }

    function UserRead(): Client {
      this.(touser := None)
    }
  }

  function Fresh(): Client {
    Client(false, false, None, None).Reset()
  }

  /** A new client asks for suppress-go-ahead, then for echo, and then for nothing more. */
  lemma AsksTwice()
    ensures Fresh().toserver == Some(OptionNegotiation(253, 3))
    ensures Fresh().ServerRead().toserver == Some(OptionNegotiation(253, 1))
    ensures Fresh().ServerRead().ServerRead().toserver == None
  {
  }

  class SimpleTelnetClient {
    var sentDoSupga: bool
    var sentDoEcho: bool
    var toserver: Option<Chunk>
    var touser: Option<Chunk>

    function Abs(): Client
      reads this
    {
      Client(sentDoSupga, sentDoEcho, toserver, touser)
    }

    constructor ()
      ensures Abs() == Fresh()
    {
      sentDoSupga, sentDoEcho, toserver, touser := false, false, None, None;
      new;
      Reset();
    }

    method Reset()
      modifies this
      ensures Abs() == old(Abs()).Reset()
    {
      sentDoSupga := false;
      sentDoEcho := false;
      var _ := DoProtocol();
    }

    method DoProtocol() returns (placed: bool)
      modifies this
      ensures Abs() == old(Abs()).DoProtocol() && placed == (Abs() != old(Abs()))
    {
      if (!sentDoSupga || !sentDoEcho) && toserver.None? {
        var sendopt := ECHO;
        if !sentDoSupga {
          sendopt := SUPGA;
          sentDoSupga := true;
        } else {
          sentDoEcho := true;
        }
        toserver := Some(OptionNegotiation(DO, sendopt));
        return true;
      }
      placed := false;
    }

    method ServerWrite(ptr: Chunk)
      requires Abs().CanWrite()
      modifies this
      ensures Abs() == old(Abs()).ServerWrite(ptr)
    {
      if IsTelnetData(ptr) {
        if ptr.OptionNegotiation? {
          if ptr.request == WILL {
            if ptr.option != 1 && ptr.option != 3 {
              toserver := Some(OptionNegotiation(DONT, ptr.option));
            }
          } else if ptr.request == DO {
            if ptr.option == 3 {
              toserver := Some(OptionNegotiation(WILL, 3));
            } else {
              toserver := Some(OptionNegotiation(WONT, ptr.option));
            }
          } else if ptr.request == DONT {
            toserver := Some(OptionNegotiation(WONT, ptr.option));
          }
        }
      } else {
        touser := Some(ptr);
      }
    }

    method ServerRead() returns (c: Chunk)
      requires toserver.Some?
      modifies this
      ensures c == old(toserver.value) && Abs() == old(Abs()).ServerRead()
    {
      c := toserver.value;
      toserver := None;
      var _ := DoProtocol();
    }

    method UserRead() returns (c: Option<Chunk>)
      modifies this
      ensures c == old(touser) && Abs() == old(Abs()).UserRead()
    {
      c := touser;
      touser := None;
    }
  }

  // Two clients and the channels between them.

  /** One end: its client, what is on the way to it, what it has taken from there and sent, and what its user has. */
  datatype End = End(
    client: Client, inbox: seq<Chunk>, received: seq<Chunk>, sent: seq<Chunk>, given: seq<Chunk>)

  datatype Net = Net(a: End, b: End)

  datatype Action = Send | Receive | Deliver

  predicate Enabled(e: End, action: Action) {
    match action
    case Send => e.client.toserver.Some?
    case Receive => e.inbox != [] && e.client.CanWrite()
    case Deliver => e.client.touser.Some?
  }

  /** One step at `e`; the second end is the one that `e` talks to. */
  function Act(e: End, other: End, action: Action): (End, End)
    requires Enabled(e, action)
  {
    match action
    case Send =>
      var c := e.client.toserver.value;
      (e.(client := e.client.ServerRead(), sent := e.sent + [c]), other.(inbox := other.inbox + [c]))
    case Receive =>
      (End(e.client.ServerWrite(e.inbox[0]), e.inbox[1..], e.received + [e.inbox[0]], e.sent, e.given), other)
    case Deliver =>
      (e.(client := e.client.UserRead(), given := e.given + [e.client.touser.value]), other)
  }

  datatype Step = Step(ata: bool, action: Action)

  predicate CanStep(n: Net, s: Step) {
    Enabled(if s.ata then n.a else n.b, s.action)
  }

  function Next(n: Net, s: Step): Net
    requires CanStep(n, s)
  {
    if s.ata then var (x, y) := Act(n.a, n.b, s.action); Net(x, y)
    else var (x, y) := Act(n.b, n.a, s.action); Net(y, x)
  }

  predicate IsRun(n: Net, steps: seq<Step>)
    decreases |steps|
  {
    steps == [] || (CanStep(n, steps[0]) && IsRun(Next(n, steps[0]), steps[1..]))
  }

  function After(n: Net, steps: seq<Step>): Net
    requires IsRun(n, steps)
    decreases |steps|
  {
    if steps == [] then n else After(Next(n, steps[0]), steps[1..])
  }

  // Termination.

  /** How many more messages a message can cause, itself included. */
  function Weight(c: Chunk): nat {
    if Answer(c).None? then 1
    else if c.request == WILL then 3 else 2
  }

  function WeightOfAll(cs: seq<Chunk>): nat {
    if cs == [] then 0 else 2 * Weight(cs[0]) + WeightOfAll(cs[1..])
  }

  function ClientRank(c: Client): nat {
    (if c.toserver.Some? then 2 * Weight(c.toserver.value) + 1 else 0)
    + (if c.touser.Some? then 1 else 0)
    + (if c.sentDoSupga then 0 else 5) + (if c.sentDoEcho then 0 else 5)
  }

  function Rank(n: Net): nat {
    ClientRank(n.a.client) + WeightOfAll(n.a.inbox) + ClientRank(n.b.client) + WeightOfAll(n.b.inbox)
  }

  lemma {:induction false} WeightOfAllSnoc(cs: seq<Chunk>, c: Chunk)
    ensures WeightOfAll(cs + [c]) == WeightOfAll(cs) + 2 * Weight(c)
  {
    if cs != [] {
      assert (cs + [c])[1..] == cs[1..] + [c];
      WeightOfAllSnoc(cs[1..], c);
    }
  }

  /** An answer is lighter than what it answers. */
  lemma AnswerIsLighter(c: Chunk)
    requires Answer(c).Some?
    ensures Weight(Answer(c).value) < Weight(c)
  {
  }

  /** Every step of either end lowers the rank. */
  lemma StepLowersRank(n: Net, s: Step)
    requires CanStep(n, s)
    ensures Rank(Next(n, s)) < Rank(n)
  {
    var e, other := if s.ata then n.a else n.b, if s.ata then n.b else n.a;
    match s.action
    case Send =>
      WeightOfAllSnoc(other.inbox, e.client.toserver.value);
    case Receive =>
      if Answer(e.inbox[0]).Some? {
        AnswerIsLighter(e.inbox[0]);
      }
    case Deliver =>
  }

  /** So whatever is on the way at the start, and however the steps interleave, there are only finitely many. */
  lemma {:induction false} RunsAreBounded(n: Net, steps: seq<Step>)
    requires IsRun(n, steps)
    ensures |steps| + Rank(After(n, steps)) <= Rank(n)
    decreases |steps|
  {
    if steps != [] {
      StepLowersRank(n, steps[0]);
      RunsAreBounded(Next(n, steps[0]), steps[1..]);
    }
  }

  /** A client with requests of its own left always has something in the slot. */
  predicate Ready(c: Client) {
    c.Pending() ==> c.toserver.Some?
  }

  predicate Silent(e: End) {
    e.inbox == [] && e.client.toserver.None? && e.client.touser.None? && !e.client.Pending()
  }

  /** And they end in silence: no step is possible exactly if nothing is on the way, in a slot, or pending. */
  lemma StuckExactlyWhenSilent(n: Net)
    requires Ready(n.a.client) && Ready(n.b.client)
    ensures (forall s: Step :: !CanStep(n, s)) <==> Silent(n.a) && Silent(n.b)
  {
    if forall s: Step :: !CanStep(n, s) {
      assert !CanStep(n, Step(true, Send)) && !CanStep(n, Step(true, Receive)) && !CanStep(n, Step(true, Deliver));
      assert !CanStep(n, Step(false, Send)) && !CanStep(n, Step(false, Receive)) && !CanStep(n, Step(false, Deliver));
    }
  }

  // What is said until then.

  function Answers(cs: seq<Chunk>): seq<Chunk> {
    if cs == [] then [] else Answers(cs[..|cs| - 1]) + AnswerTo(cs[|cs| - 1])
  }

  function AnswerTo(c: Chunk): seq<Chunk> {
    if Answer(c).Some? then [Answer(c).value] else []
  }

  function Slot(c: Client): seq<Chunk> {
    if c.toserver.Some? then [c.toserver.value] else []
  }

  function Requests(c: Client): multiset<Chunk> {
    (if c.sentDoSupga then multiset{OptionNegotiation(DO, SUPGA)} else multiset{})
    + (if c.sentDoEcho then multiset{OptionNegotiation(DO, ECHO)} else multiset{})
  }

  /** What an end has sent or is about to send: one answer for each message that asks for one, and each of its
      own requests once. What it has got or is about to get is what was on the way at first and what the
      other end has sent, in that order. */
  ghost predicate Accounted(e: End, other: End, first: seq<Chunk>) {
    Ready(e.client) && Answered(e) && e.received + e.inbox == first + other.sent && HandedOn(e)
  }

  /** Its user has got or is about to get everything that is no telnet command, in order, and nothing else. */
  ghost predicate HandedOn(e: End) {
    e.given + (if e.client.touser.Some? then [e.client.touser.value] else []) == DataOf(e.received)
  }

  function DataOf(cs: seq<Chunk>): seq<Chunk> {
    if cs == [] then []
    else
      var c := cs[|cs| - 1];
      DataOf(cs[..|cs| - 1]) + if c.Buffer? || c.Group? || c.Slice? || c.EndOfFile? then [c] else []
  }

  lemma ReceiveHandsOn(e: End, other: End)
    requires Enabled(e, Receive) && HandedOn(e)
    ensures HandedOn(Act(e, other, Receive).0)
  {
    assert (e.received + [e.inbox[0]])[..|e.received|] == e.received;
    assert e.given + [] == e.given;
  }

  lemma DeliverHandsOn(e: End, other: End)
    requires Enabled(e, Deliver) && HandedOn(e)
    ensures HandedOn(Act(e, other, Deliver).0)
  {
    assert e.given + [e.client.touser.value] + [] == e.given + [e.client.touser.value];
  }

  ghost predicate Answered(e: End) {
    multiset(e.sent) + multiset(Slot(e.client)) == multiset(Answers(e.received)) + Requests(e.client)
  }

  lemma SendKeepsAccounts(e: End, other: End)
    requires Enabled(e, Send) && Answered(e)
    ensures var (x, y) := Act(e, other, Send);
            && Ready(x.client) && Answered(x) && x.received == e.received && x.inbox == e.inbox
            && x.sent == e.sent + Slot(e.client) && y == other.(inbox := other.inbox + Slot(e.client))
  {
    var c, next := e.client.toserver.value, e.client.ServerRead();
    assert Requests(next) == Requests(e.client) + multiset(Slot(next));
    assert multiset(e.sent + [c]) == multiset(e.sent) + multiset(Slot(e.client));
  }

  lemma ReceiveKeepsAccounts(e: End, other: End)
    requires Enabled(e, Receive) && Answered(e) && Ready(e.client)
    ensures var (x, y) := Act(e, other, Receive);
            && Ready(x.client) && Answered(x) && y == other
            && x.received + x.inbox == e.received + e.inbox && x.sent == e.sent
  {
    var c := e.inbox[0];
    var x := Act(e, other, Receive).0;
    assert e.received + e.inbox == (e.received + [c]) + e.inbox[1..];
    AnswersSnoc(e.received, c);
    OneMoreAnswer(e.client, c);
    assert Slot(e.client) == [];
    Balanced(multiset(e.sent), multiset(Answers(e.received)), Requests(e.client), multiset(AnswerTo(c)));
  }

  lemma Balanced(sent: multiset<Chunk>, answers: multiset<Chunk>, requests: multiset<Chunk>, more: multiset<Chunk>)
    requires sent + multiset{} == answers + requests
    ensures sent + more == (answers + more) + requests
  {
    assert sent == sent + multiset{};
  }

  lemma AnswersSnoc(cs: seq<Chunk>, c: Chunk)
    ensures Answers(cs + [c]) == Answers(cs) + AnswerTo(c)
  {
    assert (cs + [c])[..|cs|] == cs;
  }

  lemma OneMoreAnswer(client: Client, c: Chunk)
    requires client.CanWrite()
    ensures Slot(client.ServerWrite(c)) == AnswerTo(c) && Requests(client.ServerWrite(c)) == Requests(client)
  {
  }

  lemma ActKeepsAccounts(e: End, other: End, action: Action, firste: seq<Chunk>, firsto: seq<Chunk>)
    requires Enabled(e, action) && Accounted(e, other, firste) && Accounted(other, e, firsto)
    ensures var (x, y) := Act(e, other, action); Accounted(x, y, firste) && Accounted(y, x, firsto)
  {
    match action
    case Send =>
      SendKeepsAccounts(e, other);
      Rebracketed(other.received, other.inbox, Slot(e.client));
      Rebracketed(firsto, e.sent, Slot(e.client));
    case Receive =>
      ReceiveKeepsAccounts(e, other);
      ReceiveHandsOn(e, other);
    case Deliver =>
      DeliverHandsOn(e, other);
  }

  lemma Rebracketed(a: seq<Chunk>, b: seq<Chunk>, c: seq<Chunk>)
    ensures a + b + c == a + (b + c)
  {
  }

  lemma {:induction false} RunKeepsAccounts(n: Net, steps: seq<Step>, firsta: seq<Chunk>, firstb: seq<Chunk>)
    requires IsRun(n, steps) && Accounted(n.a, n.b, firsta) && Accounted(n.b, n.a, firstb)
    ensures var t := After(n, steps); Accounted(t.a, t.b, firsta) && Accounted(t.b, t.a, firstb)
    decreases |steps|
  {
    if steps != [] {
      if steps[0].ata {
        ActKeepsAccounts(n.a, n.b, steps[0].action, firsta, firstb);
      } else {
        ActKeepsAccounts(n.b, n.a, steps[0].action, firstb, firsta);
      }
      RunKeepsAccounts(Next(n, steps[0]), steps[1..], firsta, firstb);
    }
  }

  /** A client that is just made and has `inbox` on the way to it. */
  function Started(inbox: seq<Chunk>): End {
    End(Fresh(), inbox, [], [], [])
  }

  /** How many answers of each kind belong to the messages in `asked`. */
  ghost predicate CountsMatch(answers: multiset<Chunk>, asked: multiset<Chunk>, x: byte) {
    && answers[OptionNegotiation(253, x)] == 0
    && answers[OptionNegotiation(251, x)] == (if x == 3 then asked[OptionNegotiation(253, 3)] else 0)
    && answers[OptionNegotiation(254, x)] == (if x != 1 && x != 3 then asked[OptionNegotiation(251, x)] else 0)
    && answers[OptionNegotiation(252, x)] ==
       asked[OptionNegotiation(254, x)] + (if x != 3 then asked[OptionNegotiation(253, x)] else 0)
    && forall c | c in answers :: c.OptionNegotiation? && 251 <= c.request <= 254
  }

  lemma OneAnswerCounts(c: Chunk, x: byte)
    ensures CountsMatch(multiset(AnswerTo(c)), multiset([c]), x)
  {
  }

  lemma {:induction false} AnswersCount(cs: seq<Chunk>, x: byte)
    ensures CountsMatch(multiset(Answers(cs)), multiset(cs), x)
    decreases |cs|
  {
    if cs != [] {
      var front, last := cs[..|cs| - 1], cs[|cs| - 1];
      assert cs == front + [last];
      AnswersCount(front, x);
      OneAnswerCounts(last, x);
      assert multiset(Answers(cs)) == multiset(Answers(front)) + multiset(AnswerTo(last));
    }
  }

  /** When both ends are silent, what one of them has sent is settled by what was on the way at first, however
      the steps were interleaved: its two requests, an acceptance of suppress-go-ahead for each time it was
      asked, a refusal for everything else it was asked to do or not to do, and a refusal of every other offer. */
  lemma Outcome(steps: seq<Step>, firsta: seq<Chunk>, firstb: seq<Chunk>, x: byte)
    requires var n := Net(Started(firsta), Started(firstb));
             IsRun(n, steps) && Silent(After(n, steps).a) && Silent(After(n, steps).b)
    ensures Settled(multiset(After(Net(Started(firsta), Started(firstb)), steps).a.sent),
              multiset(firsta), multiset(firstb), x)
  {
    var n := Net(Started(firsta), Started(firstb));
    StartedIsAccounted(firsta, firstb);
    StartedIsAccounted(firstb, firsta);
    RunKeepsAccounts(n, steps, firsta, firstb);
    var t := After(n, steps);
    SilentMeansAllAnswered(t.a, t.b, firsta);
    SilentMeansAllAnswered(t.b, t.a, firstb);
    AnswersCount(t.a.received, x);
    AnswersCount(t.b.received, x);
    AnswersCount(t.b.received, SUPGA);
    SettledByCounts(multiset(t.a.sent), multiset(t.b.sent), multiset(Answers(t.a.received)),
      multiset(Answers(t.b.received)), multiset(firsta), multiset(firstb), x);
  }

  lemma {:induction false} DataOfJoin(a: seq<Chunk>, b: seq<Chunk>)
    ensures DataOf(a + b) == DataOf(a) + DataOf(b)
    decreases |b|
  {
    if b == [] {
      assert a + b == a;
    } else {
      assert (a + b)[..|a + b| - 1] == a + b[..|b| - 1];
      DataOfJoin(a, b[..|b| - 1]);
    }
  }

  lemma {:induction false} NoDataAmong(cs: seq<Chunk>)
    requires forall c | c in multiset(cs) :: c.OptionNegotiation?
    ensures DataOf(cs) == []
    decreases |cs|
  {
    if cs != [] {
      var front, last := cs[..|cs| - 1], cs[|cs| - 1];
      assert cs == front + [last] && last in multiset(cs);
      assert multiset(cs) == multiset(front) + multiset{last};
      NoDataAmong(front);
    }
  }

  lemma GivenAtTheEnd(e: End, other: End, first: seq<Chunk>, otherfirst: seq<Chunk>)
    requires Accounted(e, other, first) && Accounted(other, e, otherfirst) && Silent(e) && Silent(other)
    ensures e.given == DataOf(first)
  {
    SilentMeansAllAnswered(other, e, otherfirst);
    AnswersCount(other.received, 0);
    NoDataAmong(other.sent);
    assert e.received == first + other.sent && e.given + [] == e.given;
    DataOfJoin(first, other.sent);
  }

  /** And the users have got the data that was on the way at first, in order, and nothing else. */
  lemma UsersGetTheData(steps: seq<Step>, firsta: seq<Chunk>, firstb: seq<Chunk>)
    requires var n := Net(Started(firsta), Started(firstb));
             IsRun(n, steps) && Silent(After(n, steps).a) && Silent(After(n, steps).b)
    ensures var t := After(Net(Started(firsta), Started(firstb)), steps);
            t.a.given == DataOf(firsta) && t.b.given == DataOf(firstb)
  {
    var n := Net(Started(firsta), Started(firstb));
    StartedIsAccounted(firsta, firstb);
    StartedIsAccounted(firstb, firsta);
    RunKeepsAccounts(n, steps, firsta, firstb);
    var t := After(n, steps);
    GivenAtTheEnd(t.a, t.b, firsta, firstb);
    GivenAtTheEnd(t.b, t.a, firstb, firsta);
  }

  /** Every run of two new clients, whatever is on the way at first, can go on until both are silent, and has
      at most as many steps as its rank says: ten for each client, and two, four or six for each message. */
  lemma EndsInSilence(steps: seq<Step>, firsta: seq<Chunk>, firstb: seq<Chunk>)
    requires IsRun(Net(Started(firsta), Started(firstb)), steps)
    ensures |steps| <= 20 + WeightOfAll(firsta) + WeightOfAll(firstb)
    ensures var t := After(Net(Started(firsta), Started(firstb)), steps);
            (exists s: Step :: CanStep(t, s)) || (Silent(t.a) && Silent(t.b))
  {
    var n := Net(Started(firsta), Started(firstb));
    StartedIsAccounted(firsta, firstb);
    StartedIsAccounted(firstb, firsta);
    RunKeepsAccounts(n, steps, firsta, firstb);
    RunsAreBounded(n, steps);
    StuckExactlyWhenSilent(After(n, steps));
    assert Weight(OptionNegotiation(DO, SUPGA)) == 2;
    assert Rank(n) == 20 + WeightOfAll(firsta) + WeightOfAll(firstb);
  }

  /** What an end has sent if `first` was on the way to it, and `others` on the way to the other end. */
  ghost predicate Settled(sent: multiset<Chunk>, first: multiset<Chunk>, others: multiset<Chunk>, x: byte) {
    && sent[OptionNegotiation(253, x)] == (if x == 1 || x == 3 then 1 else 0)
    && sent[OptionNegotiation(251, x)] == (if x == 3 then first[OptionNegotiation(253, 3)] + 1 else 0)
    && sent[OptionNegotiation(254, x)] == (if x != 1 && x != 3 then first[OptionNegotiation(251, x)] else 0)
    && sent[OptionNegotiation(252, x)] ==
       first[OptionNegotiation(254, x)]
       + (if x != 1 && x != 3 then others[OptionNegotiation(251, x)] else 0)
       + (if x != 3 then first[OptionNegotiation(253, x)] else 0) + (if x == 1 then 1 else 0)
    && forall c | c in sent :: c.OptionNegotiation? && 251 <= c.request <= 254
  }

  function OwnRequests(): multiset<Chunk> {
    multiset{OptionNegotiation(DO, SUPGA), OptionNegotiation(DO, ECHO)}
  }

  lemma SettledByCounts(senta: multiset<Chunk>, sentb: multiset<Chunk>, answersa: multiset<Chunk>,
                        answersb: multiset<Chunk>, firsta: multiset<Chunk>, firstb: multiset<Chunk>, x: byte)
    requires senta == answersa + OwnRequests() && sentb == answersb + OwnRequests()
    requires CountsMatch(answersa, firsta + sentb, x)
    requires CountsMatch(answersb, firstb + senta, x) && CountsMatch(answersb, firstb + senta, SUPGA)
    ensures Settled(senta, firsta, firstb, x)
  {
    assert answersb[OptionNegotiation(DO, SUPGA)] == 0;
    assert x != SUPGA ==> answersb[OptionNegotiation(WILL, x)] == 0;
    assert x != ECHO && x != SUPGA ==> senta[OptionNegotiation(WILL, x)] == answersa[OptionNegotiation(WILL, x)] == 0;
  }

  lemma StartedIsAccounted(first: seq<Chunk>, other: seq<Chunk>)
    ensures Accounted(Started(first), Started(other), first)
  {
    assert [] + first == first + [];
    assert Slot(Fresh()) == [OptionNegotiation(DO, SUPGA)];
    assert multiset([OptionNegotiation(DO, SUPGA)]) == Requests(Fresh());
  }

  lemma SilentMeansAllAnswered(e: End, other: End, first: seq<Chunk>)
    requires Accounted(e, other, first) && Silent(e)
    ensures multiset(e.received) == multiset(first) + multiset(other.sent)
    ensures multiset(e.sent) == multiset(Answers(e.received)) + OwnRequests()
  {
    assert e.received + e.inbox == e.received;
    assert multiset(e.received) == multiset(first + other.sent);
    assert Slot(e.client) == [] && Requests(e.client) == OwnRequests();
  }
}
