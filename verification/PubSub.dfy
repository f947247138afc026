/** The in-memory pub/sub of go/memory.go:237-292. Publishers share a read lock, so any number of them
    walk the subscriber sets at once while subscribers drain their channels; Subscribe and Unsubscribe
    take the write lock and run alone. */
module PubSub {
  import opened Wrappers

  type Channel = string

  type Publisher = nat
  type Subscriber = nat

  /** The capacity of a subscriber's channel. */
  const CAPACITY := 100

  /** `number` counts the messages of one publisher. */
  datatype Message = Message(publisher: Publisher, number: nat, channel: Channel, payload: string)

  /** One subscriber: its Go channel, and what became of the messages sent to its channels. */
  datatype Inbox = Inbox(buffer: seq<Message>, received: seq<Message>, dropped: seq<Message>, addressed: seq<Message>)

  /** A Publish under way: the subscribers its loop has not visited yet. */
  datatype Publishing = Publishing(msg: Message, pending: set<Subscriber>)

  datatype State = State(subscribers: map<Channel, set<Subscriber>>, inboxes: map<Subscriber, Inbox>,
                         active: map<Publisher, Publishing>, sent: map<Publisher, nat>)

  const INIT := State(map[], map[], map[], map[])

  datatype Action =
    | Begin(p: Publisher, channel: Channel, payload: string)
    | Send(p: Publisher, s: Subscriber)
    | End(p: Publisher)
    | Receive(s: Subscriber)
    | Subscribe(s: Subscriber, channels: seq<Channel>)
    | Unsubscribe(channels: seq<Channel>)

  function Sent(st: State, p: Publisher): nat {
    if p in st.sent then st.sent[p] else 0
  }

  function Subscribed(st: State, c: Channel): set<Subscriber> {
    if c in st.subscribers then st.subscribers[c] else {}
  }

  /** The non-blocking send: into the buffer if there is room, else dropped. */
  function Delivered(b: Inbox, m: Message): Inbox {
    if |b.buffer| < CAPACITY then b.(buffer := b.buffer + [m]) else b.(dropped := b.dropped + [m])
  }

  /** Every inbox of `to` notes that the message is addressed to it. */
  function Addressed(inboxes: map<Subscriber, Inbox>, to: set<Subscriber>, m: Message): map<Subscriber, Inbox> {
    map s | s in inboxes :: if s in to then inboxes[s].(addressed := inboxes[s].addressed + [m]) else inboxes[s]
  }

  function AddTo(subscribers: map<Channel, set<Subscriber>>, s: Subscriber, channels: seq<Channel>): map<Channel, set<Subscriber>>
    decreases |channels|
  {
    if channels == [] then subscribers
    else
      var c := channels[0];
      AddTo(subscribers[c := (if c in subscribers then subscribers[c] else {}) + {s}], s, channels[1..])
  }

  predicate Enabled(st: State, a: Action) {
    match a
    case Begin(p, _, _) => p !in st.active
    case Send(p, s) => p in st.active && s in st.active[p].pending && s in st.inboxes
    case End(p) => p in st.active && st.active[p].pending == {}
    case Receive(s) => s in st.inboxes && st.inboxes[s].buffer != []
    case Subscribe(s, _) => st.active == map[] && s !in st.inboxes
    case Unsubscribe(_) => st.active == map[]
  }

  function Next(st: State, a: Action): State
    requires Enabled(st, a)
  {
    match a
    case Begin(p, c, payload) =>
      var msg := Message(p, Sent(st, p), c, payload);
      var to := Subscribed(st, c);
      st.(active := st.active[p := Publishing(msg, to)],
          sent := st.sent[p := Sent(st, p) + 1],
          inboxes := Addressed(st.inboxes, to, msg))
    case Send(p, s) =>
      var w := st.active[p];
      st.(active := st.active[p := w.(pending := w.pending - {s})],
          inboxes := st.inboxes[s := Delivered(st.inboxes[s], w.msg)])
    case End(p) => st.(active := st.active - {p})
    case Receive(s) =>
      var b := st.inboxes[s];
      st.(inboxes := st.inboxes[s := b.(buffer := b.buffer[1..], received := b.received + [b.buffer[0]])])
    case Subscribe(s, channels) =>
      st.(subscribers := AddTo(st.subscribers, s, channels), inboxes := st.inboxes[s := Inbox([], [], [], [])])
    case Unsubscribe(channels) => st.(subscribers := st.subscribers - (set c | c in channels))
  }

  /** The state after a run of actions, if each could be taken. */
  function Run(actions: seq<Action>): Option<State>
    decreases |actions|
  {
    if actions == [] then Some(INIT)
    else
      var before, a := Run(actions[..|actions| - 1]), actions[|actions| - 1];
      if before.Some? && Enabled(before.value, a) then Some(Next(before.value, a)) else None
  }

  // ---------- The invariant ----------

  /** What a subscriber's channel has accepted so far, in order. */
  function Accepted(b: Inbox): seq<Message> {
    b.received + b.buffer
  }

  function Settled(b: Inbox): multiset<Message> {
    multiset(b.received) + multiset(b.buffer) + multiset(b.dropped)
  }

  /** Two accepted messages of one publisher are in the order it sent them. */
  predicate InOrder(ms: seq<Message>) {
    forall i, j | 0 <= i < j < |ms| && ms[i].publisher == ms[j].publisher :: ms[i].number < ms[j].number
  }

  /** m is on its way to s: its publisher has not visited s yet. */
  predicate OnItsWay(st: State, m: Message, s: Subscriber) {
    m.publisher in st.active && st.active[m.publisher].msg == m && s in st.active[m.publisher].pending
  }

  /** A message addressed to s was addressed once, was numbered in its turn, and is exactly one of
      settled and on its way. */
  predicate AccountedOne(st: State, s: Subscriber, b: Inbox, m: Message) {
    && multiset(b.addressed)[m] == Settled(b)[m] + (if OnItsWay(st, m, s) then 1 else 0)
    && multiset(b.addressed)[m] <= 1
    && (multiset(b.addressed)[m] > 0 ==>
          && m.number < Sent(st, m.publisher)
          && (m.publisher in st.active ==> m == st.active[m.publisher].msg || m.number < st.active[m.publisher].msg.number))
  }

  ghost predicate Accounted(st: State, s: Subscriber, b: Inbox) {
    forall m :: AccountedOne(st, s, b, m)
  }

  ghost predicate InboxInv(st: State, s: Subscriber, b: Inbox) {
    |b.buffer| <= CAPACITY && InOrder(Accepted(b)) && Accounted(st, s, b)
  }

  ghost predicate Linked(st: State) {
    && (forall c | c in st.subscribers :: st.subscribers[c] <= st.inboxes.Keys)
    && forall p | p in st.active ::
         && st.active[p].msg.publisher == p
         && st.active[p].msg.number + 1 == Sent(st, p)
         && st.active[p].pending <= st.inboxes.Keys
  }

  ghost predicate Inv(st: State) {
    Linked(st) && forall s | s in st.inboxes :: InboxInv(st, s, st.inboxes[s])
  }

  /** A subscriber that a step does not concern. */
  lemma Untouched(st: State, st': State, s: Subscriber, b: Inbox, b': Inbox)
    requires InboxInv(st, s, b)
    requires |b'.buffer| <= CAPACITY && Accepted(b') == Accepted(b) && Settled(b') == Settled(b) && b'.addressed == b.addressed
    requires forall m :: OnItsWay(st', m, s) <==> OnItsWay(st, m, s)
    requires st'.sent == st.sent
    requires forall p | p in st'.active :: p in st.active && st'.active[p].msg == st.active[p].msg
    ensures InboxInv(st', s, b')
  {
    hide Settled, Accepted, InOrder, OnItsWay;
    forall m ensures AccountedOne(st', s, b', m) {
      assert AccountedOne(st, s, b, m);
    }
  }

  lemma BeginKeepsInbox(st: State, p: Publisher, c: Channel, payload: string, s: Subscriber)
    requires Inv(st) && p !in st.active && s in st.inboxes
    ensures var st' := Next(st, Begin(p, c, payload)); InboxInv(st', s, st'.inboxes[s])
  {
    var st' := Next(st, Begin(p, c, payload));
    var msg, to := st'.active[p].msg, st'.active[p].pending;
    var b, b' := st.inboxes[s], st'.inboxes[s];
    assert InboxInv(st, s, b);
    assert Accepted(b') == Accepted(b) && Settled(b') == Settled(b);
    assert multiset(b'.addressed) == multiset(b.addressed) + (if s in to then multiset{msg} else multiset{});
    assert forall m :: OnItsWay(st', m, s) <==> OnItsWay(st, m, s) || (m == msg && s in to);
    AccountedAfterBegin(st, st', s, b, b', p);
  }

  lemma AccountedAfterBegin(st: State, st': State, s: Subscriber, b: Inbox, b': Inbox, p: Publisher)
    requires Accounted(st, s, b) && Settled(b') == Settled(b)
    requires p !in st.active && st'.active.Keys == st.active.Keys + {p}
    requires forall q | q in st.active :: st'.active[q] == st.active[q]
    requires st'.active[p].msg.publisher == p && st'.active[p].msg.number == Sent(st, p)
    requires st'.sent == st.sent[p := Sent(st, p) + 1]
    requires var msg, to := st'.active[p].msg, st'.active[p].pending;
             && multiset(b'.addressed) == multiset(b.addressed) + (if s in to then multiset{msg} else multiset{})
             && forall m :: OnItsWay(st', m, s) <==> OnItsWay(st, m, s) || (m == msg && s in to)
    ensures Accounted(st', s, b')
  {
    assert !OnItsWay(st, st'.active[p].msg, s);
    hide Settled, OnItsWay;
    forall m ensures AccountedOne(st', s, b', m) {
      assert AccountedOne(st, s, b, m);
    }
  }

  lemma BeginKeepsInv(st: State, p: Publisher, c: Channel, payload: string)
    requires Inv(st) && p !in st.active
    ensures Inv(Next(st, Begin(p, c, payload)))
  {
    var st' := Next(st, Begin(p, c, payload));
    forall s | s in st'.inboxes ensures InboxInv(st', s, st'.inboxes[s]) {
      BeginKeepsInbox(st, p, c, payload, s);
    }
  }

  lemma DeliveredSettles(b: Inbox, m: Message)
    ensures Settled(Delivered(b, m)) == Settled(b) + multiset{m}
  {
  }

  /** A message on its way goes behind every accepted message of its publisher. */
  lemma DeliveredInOrder(st: State, s: Subscriber, b: Inbox, msg: Message)
    requires Accounted(st, s, b) && OnItsWay(st, msg, s) && InOrder(Accepted(b))
    ensures InOrder(Accepted(Delivered(b, msg)))
  {
    assert AccountedOne(st, s, b, msg);
    forall m | m in Accepted(b) && m.publisher == msg.publisher ensures m.number < msg.number {
      assert AccountedOne(st, s, b, m);
      assert m in Settled(b) && msg !in Settled(b);
    }
    assert Accepted(b.(buffer := b.buffer + [msg])) == Accepted(b) + [msg];
    var a := Accepted(b);
    assert forall i | 0 <= i < |a| :: a[i] in a;
  }

  lemma SendKeepsInbox(st: State, p: Publisher, s: Subscriber)
    requires Inv(st) && Enabled(st, Send(p, s))
    ensures var st' := Next(st, Send(p, s)); InboxInv(st', s, st'.inboxes[s])
  {
    var st' := Next(st, Send(p, s));
    var msg, b := st.active[p].msg, st.inboxes[s];
    var b' := Delivered(b, msg);
    assert InboxInv(st, s, b) && OnItsWay(st, msg, s);
    DeliveredSettles(b, msg);
    DeliveredInOrder(st, s, b, msg);
    assert |b'.buffer| <= CAPACITY && b'.addressed == b.addressed;
    hide Settled, Accepted, InOrder, Delivered;
    forall m ensures AccountedOne(st', s, b', m) {
      assert AccountedOne(st, s, b, m);
      assert OnItsWay(st', m, s) <==> OnItsWay(st, m, s) && m != msg;
    }
  }

  lemma SendKeepsInv(st: State, p: Publisher, s: Subscriber)
    requires Inv(st) && Enabled(st, Send(p, s))
    ensures Inv(Next(st, Send(p, s)))
  {
    var st' := Next(st, Send(p, s));
    SendKeepsInbox(st, p, s);
    hide InboxInv, Delivered;
    forall u | u in st'.inboxes ensures InboxInv(st', u, st'.inboxes[u]) {
      if u != s {
        SmallInbox(st, u);
        Untouched(st, st', u, st.inboxes[u], st'.inboxes[u]);
      }
    }
  }

  lemma SmallInbox(st: State, s: Subscriber)
    requires Inv(st) && s in st.inboxes
    ensures |st.inboxes[s].buffer| <= CAPACITY && InboxInv(st, s, st.inboxes[s])
  {
  }

  lemma EndKeepsInv(st: State, p: Publisher)
    requires Inv(st) && Enabled(st, End(p))
    ensures Inv(Next(st, End(p)))
  {
    var st' := Next(st, End(p));
    hide InboxInv;
    forall s | s in st'.inboxes ensures InboxInv(st', s, st'.inboxes[s]) {
      SmallInbox(st, s);
      Untouched(st, st', s, st.inboxes[s], st'.inboxes[s]);
    }
  }

  lemma ReceivedSame(b: Inbox, b': Inbox)
    requires b.buffer != [] && b' == b.(buffer := b.buffer[1..], received := b.received + [b.buffer[0]])
    ensures Accepted(b') == Accepted(b) && Settled(b') == Settled(b)
  {
    assert b.buffer == [b.buffer[0]] + b.buffer[1..];
  }

  lemma ReceiveKeepsInv(st: State, s: Subscriber)
    requires Inv(st) && Enabled(st, Receive(s))
    ensures Inv(Next(st, Receive(s)))
  {
    var st' := Next(st, Receive(s));
    ReceivedSame(st.inboxes[s], st'.inboxes[s]);
    hide InboxInv, Settled, Accepted;
    forall u | u in st'.inboxes ensures InboxInv(st', u, st'.inboxes[u]) {
      SmallInbox(st, u);
      Untouched(st, st', u, st.inboxes[u], st'.inboxes[u]);
    }
  }

  lemma {:induction false} AddToMembers(subscribers: map<Channel, set<Subscriber>>, s: Subscriber, channels: seq<Channel>)
    ensures var r := AddTo(subscribers, s, channels);
            && r.Keys == subscribers.Keys + (set c | c in channels)
            && forall c | c in r :: r[c] == (if c in subscribers then subscribers[c] else {}) + (if c in channels then {s} else {})
    decreases |channels|
  {
    if channels != [] {
      var c := channels[0];
      AddToMembers(subscribers[c := (if c in subscribers then subscribers[c] else {}) + {s}], s, channels[1..]);
      assert channels == [c] + channels[1..];
    }
  }

  lemma AddToStep(subscribers: map<Channel, set<Subscriber>>, s: Subscriber, channels: seq<Channel>, i: nat)
    requires i < |channels|
    ensures var c := channels[i];
            AddTo(subscribers, s, channels[i..]) ==
            AddTo(subscribers[c := (if c in subscribers then subscribers[c] else {}) + {s}], s, channels[i + 1..])
  {
    assert channels[i..][1..] == channels[i + 1..];
  }

  lemma SubscribeKeepsInv(st: State, s: Subscriber, channels: seq<Channel>)
    requires Inv(st) && Enabled(st, Subscribe(s, channels))
    ensures Inv(Next(st, Subscribe(s, channels)))
  {
    var st' := Next(st, Subscribe(s, channels));
    AddToMembers(st.subscribers, s, channels);
    EmptyInbox(st', s);
    hide InboxInv;
    forall u | u in st'.inboxes ensures InboxInv(st', u, st'.inboxes[u]) {
      if u != s {
        SmallInbox(st, u);
        Untouched(st, st', u, st.inboxes[u], st'.inboxes[u]);
      }
    }
  }

  lemma EmptyInbox(st: State, s: Subscriber)
    requires st.active == map[]
    ensures InboxInv(st, s, Inbox([], [], [], []))
  {
    var b := Inbox([], [], [], []);
    forall m ensures AccountedOne(st, s, b, m) { }
  }

  lemma InvKept(st: State, a: Action)
    requires Inv(st) && Enabled(st, a)
    ensures Inv(Next(st, a))
  {
    hide InboxInv;
    match a {
      case Begin(p, c, payload) => BeginKeepsInv(st, p, c, payload);
      case Send(p, s) => SendKeepsInv(st, p, s);
      case End(p) => EndKeepsInv(st, p);
      case Receive(s) => ReceiveKeepsInv(st, s);
      case Subscribe(s, channels) => SubscribeKeepsInv(st, s, channels);
      case Unsubscribe(channels) => UnsubscribeKeepsInv(st, channels);
    }
  }

  lemma UnsubscribeKeepsInv(st: State, channels: seq<Channel>)
    requires Inv(st) && Enabled(st, Unsubscribe(channels))
    ensures Inv(Next(st, Unsubscribe(channels)))
  {
    var st' := Next(st, Unsubscribe(channels));
    hide InboxInv;
    forall s | s in st'.inboxes ensures InboxInv(st', s, st'.inboxes[s]) {
      SmallInbox(st, s);
      Untouched(st, st', s, st.inboxes[s], st'.inboxes[s]);
    }
  }

  lemma {:induction false} InvReached(actions: seq<Action>)
    requires Run(actions).Some?
    ensures Inv(Run(actions).value)
    decreases |actions|
  {
    if actions != [] {
      InvReached(actions[..|actions| - 1]);
      InvKept(Run(actions[..|actions| - 1]).value, actions[|actions| - 1]);
    }
  }

  // ---------- What a subscriber can rely on ----------

  /** Fan-out with interleaved publishers: at any moment each message addressed to a subscriber is
      exactly one of received, buffered, dropped and still on its way; none is accepted twice; the
      buffer holds at most 100; and two accepted messages of one publisher are in sending order. */
  lemma FanOut(actions: seq<Action>, s: Subscriber)
    requires Run(actions).Some? && s in Run(actions).value.inboxes
    ensures var st := Run(actions).value;
            var b := st.inboxes[s];
            && |b.buffer| <= 100
            && (var ms := b.received + b.buffer;
                forall i, j | 0 <= i < j < |ms| && ms[i].publisher == ms[j].publisher :: ms[i].number < ms[j].number)
            && (forall m :: multiset(b.addressed)[m] ==
                  multiset(b.received)[m] + multiset(b.buffer)[m] + multiset(b.dropped)[m] + if OnItsWay(st, m, s) then 1 else 0)
            && forall m :: multiset(b.received)[m] + multiset(b.buffer)[m] <= 1
  {
    InvReached(actions);
    var st := Run(actions).value;
    var b := st.inboxes[s];
    assert InboxInv(st, s, b);
    forall m: Message
      ensures multiset(b.addressed)[m] ==
                multiset(b.received)[m] + multiset(b.buffer)[m] + multiset(b.dropped)[m] + (if OnItsWay(st, m, s) then 1 else 0)
      ensures multiset(b.received)[m] + multiset(b.buffer)[m] <= 1
    {
      assert AccountedOne(st, s, b, m);
      assert Settled(b)[m] == multiset(b.received)[m] + multiset(b.buffer)[m] + multiset(b.dropped)[m];
    }
  }

  /** With no publish under way, the messages sent to a subscriber's channels are exactly those it
      received, those in its buffer and those dropped. */
  lemma NothingIsLostTwice(actions: seq<Action>, s: Subscriber)
    requires Run(actions).Some? && s in Run(actions).value.inboxes && Run(actions).value.active == map[]
    ensures var b := Run(actions).value.inboxes[s];
            && multiset(b.addressed) == multiset(b.received) + multiset(b.buffer) + multiset(b.dropped)
            && |b.addressed| == |b.received| + |b.buffer| + |b.dropped|
  {
    InvReached(actions);
    var st := Run(actions).value;
    var b := st.inboxes[s];
    assert InboxInv(st, s, b);
    forall m: Message ensures multiset(b.addressed)[m] == Settled(b)[m] {
      assert AccountedOne(st, s, b, m);
    }
    assert multiset(b.addressed) == Settled(b);
    assert |multiset(b.addressed)| == |multiset(b.received)| + |multiset(b.buffer)| + |multiset(b.dropped)|;
  }

  /** A message is dropped only when the buffer holds exactly 100. */
  lemma DropsOnlyWhenFull(actions: seq<Action>, a: Action, s: Subscriber)
    requires Run(actions).Some? && Enabled(Run(actions).value, a) && s in Run(actions).value.inboxes
    ensures var st := Run(actions).value;
            var st' := Next(st, a);
            && s in st'.inboxes
            && (st'.inboxes[s].dropped != st.inboxes[s].dropped ==>
                  && a.Send? && a.s == s
                  && |st.inboxes[s].buffer| == 100
                  && st'.inboxes[s].dropped == st.inboxes[s].dropped + [st.active[a.p].msg])
  {
    InvReached(actions);
    SmallInbox(Run(actions).value, s);
    hide InboxInv, Run;
  }

  /** What one step does to a subscriber: only its own Receive hands it a message, the oldest in its
      buffer; only a Send to it fills its buffer, with that message at the end as long as there are fewer
      than 100, or else notes it as dropped. */
  lemma StepOnInbox(actions: seq<Action>, a: Action, s: Subscriber)
    requires Run(actions).Some? && Enabled(Run(actions).value, a) && s in Run(actions).value.inboxes
    ensures var st := Run(actions).value;
            var b, b' := st.inboxes[s], Next(st, a).inboxes[s];
            if a == Receive(s) then
              b.buffer != [] && b'.received == b.received + [b.buffer[0]] && b'.buffer == b.buffer[1..] && b'.dropped == b.dropped
            else if a.Send? && a.s == s then
              && b'.received == b.received
              && b'.buffer == (if |b.buffer| < 100 then b.buffer + [st.active[a.p].msg] else b.buffer)
              && b'.dropped == (if |b.buffer| < 100 then b.dropped else b.dropped + [st.active[a.p].msg])
            else b'.received == b.received && b'.buffer == b.buffer && b'.dropped == b.dropped
  {
    hide Run;
  }

  /** The messages sent to s so far, in the order of the sends. */
  function SentTo(actions: seq<Action>, s: Subscriber): seq<Message>
    requires Run(actions).Some?
    decreases |actions|
  {
    if actions == [] then []
    else
      var before, a := actions[..|actions| - 1], actions[|actions| - 1];
      SentTo(before, s) + if a.Send? && a.s == s then [Run(before).value.active[a.p].msg] else []
  }

  lemma {:induction false} NothingSentBefore(actions: seq<Action>, s: Subscriber)
    requires Run(actions).Some? && s !in Run(actions).value.inboxes
    ensures SentTo(actions, s) == []
    decreases |actions|
  {
    if actions != [] {
      NothingSentBefore(actions[..|actions| - 1], s);
    }
  }

  lemma LastAction(actions: seq<Action>)
    requires actions != [] && Run(actions).Some?
    ensures var before, a := Run(actions[..|actions| - 1]), actions[|actions| - 1];
            before.Some? && Enabled(before.value, a) && Run(actions) == Some(Next(before.value, a))
    decreases |actions|
  {
  }

  lemma NewInbox(st: State, a: Action, s: Subscriber)
    requires Enabled(st, a) && s !in st.inboxes && s in Next(st, a).inboxes
    ensures a.Subscribe? && Next(st, a).inboxes[s] == Inbox([], [], [], [])
  {
  }

  /** The first 100 of the messages sent are buffered and the later ones dropped. */
  predicate FirstHundred(b: Inbox, sent: seq<Message>) {
    && b.received == []
    && b.buffer == (if |sent| <= 100 then sent else sent[..100])
    && b.dropped == (if |sent| <= 100 then [] else sent[100..])
  }

  lemma OneMoreSent(b: Inbox, b': Inbox, sent: seq<Message>, m: Message)
    requires FirstHundred(b, sent) && b'.received == b.received
    requires b'.buffer == (if |b.buffer| < 100 then b.buffer + [m] else b.buffer)
    requires b'.dropped == (if |b.buffer| < 100 then b.dropped else b.dropped + [m])
    ensures FirstHundred(b', sent + [m])
  {
  }

  /** A subscriber that has not received anything yet holds the first 100 messages sent to it, or all if
      there were fewer, and exactly the later ones were dropped. */
  lemma {:induction false} IdleKeepsFirstHundred(actions: seq<Action>, s: Subscriber)
    requires Run(actions).Some? && s in Run(actions).value.inboxes
    requires Receive(s) !in actions
    ensures FirstHundred(Run(actions).value.inboxes[s], SentTo(actions, s))
    decreases |actions|
  {
    if actions != [] {
      LastAction(actions);
      hide Run, FirstHundred;
      var before, a := actions[..|actions| - 1], actions[|actions| - 1];
      var st := Run(before).value;
      if s in st.inboxes {
        IdleKeepsFirstHundred(before, s);
        StepOnInbox(before, a, s);
        hide Next, Enabled;
        if a.Send? && a.s == s {
          OneMoreSent(st.inboxes[s], Run(actions).value.inboxes[s], SentTo(before, s), st.active[a.p].msg);
        } else {
          SameInbox(st.inboxes[s], Run(actions).value.inboxes[s], SentTo(before, s));
        }
      } else {
        NothingSentBefore(before, s);
        NewInbox(st, a, s);
        NothingYet();
      }
    }
  }

  lemma NothingYet()
    ensures FirstHundred(Inbox([], [], [], []), [])
  {
  }

  lemma SameInbox(b: Inbox, b': Inbox, sent: seq<Message>)
    requires FirstHundred(b, sent) && b'.received == b.received && b'.buffer == b.buffer && b'.dropped == b.dropped
    ensures FirstHundred(b', sent + [])
  {
    assert sent + [] == sent;
  }

  /** A non-blocking send in numbers. */
  lemma DeliveredInNumbers(b: Inbox, m: Message)
    ensures var b' := Delivered(b, m);
            && b'.received == b.received && b'.addressed == b.addressed
            && b'.buffer == (if |b.buffer| < 100 then b.buffer + [m] else b.buffer)
            && b'.dropped == (if |b.buffer| < 100 then b.dropped else b.dropped + [m])
  {
  }

  // ---------- The store as an object ----------

  lemma RunOneMore(actions: seq<Action>, a: Action)
    requires Run(actions).Some? && Enabled(Run(actions).value, a)
    ensures Run(actions + [a]) == Some(Next(Run(actions).value, a))
  {
    assert (actions + [a])[..|actions|] == actions;
  }

  lemma BeginStep(trace: seq<Action>, subscribers: map<Channel, set<Subscriber>>, inboxes: map<Subscriber, Inbox>,
                  sent: map<Publisher, nat>, m: Message, to: set<Subscriber>)
    requires Run(trace) == Some(State(subscribers, inboxes, map[], sent))
    requires m.number == Sent(Run(trace).value, m.publisher) && to == Subscribed(Run(trace).value, m.channel)
    ensures to <= inboxes.Keys
    ensures Run(trace + [Begin(m.publisher, m.channel, m.payload)]) ==
            Some(State(subscribers, Addressed(inboxes, to, m), map[m.publisher := Publishing(m, to)],
                       sent[m.publisher := m.number + 1]))
  {
    InvReached(trace);
    hide Run, InboxInv;
    RunOneMore(trace, Begin(m.publisher, m.channel, m.payload));
  }

  lemma SendStep(trace: seq<Action>, subscribers: map<Channel, set<Subscriber>>, inboxes: map<Subscriber, Inbox>,
                 sent: map<Publisher, nat>, m: Message, todo: set<Subscriber>, s: Subscriber)
    requires Run(trace) == Some(State(subscribers, inboxes, map[m.publisher := Publishing(m, todo)], sent))
    requires s in todo && s in inboxes
    ensures Run(trace + [Send(m.publisher, s)]) ==
            Some(State(subscribers, inboxes[s := Delivered(inboxes[s], m)],
                       map[m.publisher := Publishing(m, todo - {s})], sent))
  {
    hide Run, Delivered;
    RunOneMore(trace, Send(m.publisher, s));
    assert map[m.publisher := Publishing(m, todo)][m.publisher := Publishing(m, todo - {s})] ==
           map[m.publisher := Publishing(m, todo - {s})];
  }

  lemma EndStep(trace: seq<Action>, subscribers: map<Channel, set<Subscriber>>, inboxes: map<Subscriber, Inbox>,
                sent: map<Publisher, nat>, m: Message)
    requires Run(trace) == Some(State(subscribers, inboxes, map[m.publisher := Publishing(m, {})], sent))
    ensures Run(trace + [End(m.publisher)]) == Some(State(subscribers, inboxes, map[], sent))
  {
    hide Run;
    RunOneMore(trace, End(m.publisher));
    assert map[m.publisher := Publishing(m, {})] - {m.publisher} == map[];
  }

  lemma RemovedOneMore(subscribers: map<Channel, set<Subscriber>>, before: seq<Channel>, last: Channel, all: seq<Channel>)
    requires all == before + [last]
    ensures subscribers - (set c | c in before) - {last} == subscribers - (set c | c in all)
  {
  }

  lemma SubscribeStep(trace: seq<Action>, subscribers: map<Channel, set<Subscriber>>, inboxes: map<Subscriber, Inbox>,
                      sent: map<Publisher, nat>, s: Subscriber, channels: seq<Channel>)
    requires Run(trace) == Some(State(subscribers, inboxes, map[], sent)) && s !in inboxes
    ensures Run(trace + [Subscribe(s, channels)]) ==
            Some(State(AddTo(subscribers, s, channels), inboxes[s := Inbox([], [], [], [])], map[], sent))
  {
    hide Run, AddTo;
    RunOneMore(trace, Subscribe(s, channels));
  }

  /** The store used by one caller at a time: every method is a run of the actions above, so all that
      is proved of runs holds of it. */
  class MemoryPubSub {
    var subscribers: map<Channel, set<Subscriber>>
    var inboxes: map<Subscriber, Inbox>
    var sent: map<Publisher, nat>
    ghost var trace: seq<Action>

    ghost predicate Valid()
      reads this
    {
      Run(trace) == Some(State(subscribers, inboxes, map[], sent))
    }

    constructor ()
      ensures Valid() && subscribers == map[] && inboxes == map[]
    {
      subscribers, inboxes, sent, trace := map[], map[], map[], [];
    }

    /** The loop over the subscribers of the channel, in any order. */
    method SendAll(msg: Message, to: set<Subscriber>)
      requires to <= inboxes.Keys
      requires Run(trace) == Some(State(subscribers, inboxes, map[msg.publisher := Publishing(msg, to)], sent))
      modifies `inboxes, `trace
      ensures Run(trace) == Some(State(subscribers, inboxes, map[msg.publisher := Publishing(msg, {})], sent))
      ensures inboxes.Keys == old(inboxes).Keys && old(trace) <= trace
      ensures forall s | s in inboxes :: inboxes[s] == if s in to then Delivered(old(inboxes)[s], msg) else old(inboxes)[s]
    {
      hide Run, Delivered;
      var todo := to;
      while todo != {}
        invariant todo <= to && inboxes.Keys == old(inboxes).Keys && old(trace) <= trace
        invariant Run(trace) == Some(State(subscribers, inboxes, map[msg.publisher := Publishing(msg, todo)], sent))
        invariant forall s | s in inboxes ::
                    inboxes[s] == if s in to && s !in todo then Delivered(old(inboxes)[s], msg) else old(inboxes)[s]
        decreases todo
      {
        var s :| s in todo;
        SendStep(trace, subscribers, inboxes, sent, msg, todo, s);
        trace := trace + [Send(msg.publisher, s)];
        inboxes := inboxes[s := Delivered(inboxes[s], msg)];
        todo := todo - {s};
      }
    }

    /** Every subscriber of the channel is sent the message once, in whatever order the loop visits
        them; nobody else is. */
    method Publish(p: Publisher, channel: Channel, payload: string)
      requires Valid()
      modifies this
      ensures Valid() && old(trace) <= trace && subscribers == old(subscribers)
      ensures inboxes.Keys == old(inboxes).Keys
      ensures var msg := Message(p, if p in old(sent) then old(sent)[p] else 0, channel, payload);
              forall s | s in inboxes ::
                inboxes[s] ==
                if channel in subscribers && s in subscribers[channel]
                then Delivered(old(inboxes)[s].(addressed := old(inboxes)[s].addressed + [msg]), msg)
                else old(inboxes)[s]
      ensures var msg := Message(p, if p in old(sent) then old(sent)[p] else 0, channel, payload);
              forall s | s in inboxes && channel in subscribers && s in subscribers[channel] ::
                var b, b' := old(inboxes)[s], inboxes[s];
                && b'.addressed == b.addressed + [msg]
                && b'.received == b.received
                && b'.buffer == (if |b.buffer| < 100 then b.buffer + [msg] else b.buffer)
                && b'.dropped == (if |b.buffer| < 100 then b.dropped else b.dropped + [msg])
      ensures sent == old(sent)[p := if p in old(sent) then old(sent)[p] + 1 else 1]
    {
      hide Run, Delivered;
      var number := if p in sent then sent[p] else 0;
      var msg := Message(p, number, channel, payload);
      var to := if channel in subscribers then subscribers[channel] else {};
      BeginStep(trace, subscribers, inboxes, sent, msg, to);
      trace := trace + [Begin(p, channel, payload)];
      inboxes := Addressed(inboxes, to, msg);
      sent := sent[p := number + 1];
      SendAll(msg, to);
      EndStep(trace, subscribers, inboxes, sent, msg);
      trace := trace + [End(p)];
      forall s | s in inboxes && s in to
        ensures var b := old(inboxes)[s];
                && inboxes[s].received == b.received && inboxes[s].addressed == b.addressed + [msg]
                && inboxes[s].buffer == (if |b.buffer| < 100 then b.buffer + [msg] else b.buffer)
                && inboxes[s].dropped == (if |b.buffer| < 100 then b.dropped else b.dropped + [msg])
      {
        DeliveredInNumbers(old(inboxes)[s].(addressed := old(inboxes)[s].addressed + [msg]), msg);
      }
    }

    /** A subscriber takes the oldest message of its buffer. */
    method Receive(s: Subscriber) returns (m: Option<Message>)
      requires Valid() && s in inboxes
      modifies this
      ensures Valid() && old(trace) <= trace && subscribers == old(subscribers) && inboxes.Keys == old(inboxes).Keys
      ensures m == if old(inboxes)[s].buffer == [] then None else Some(old(inboxes)[s].buffer[0])
      ensures inboxes[s].received == old(inboxes)[s].received + (if m.Some? then [m.value] else [])
      ensures inboxes[s].buffer == if m.Some? then old(inboxes)[s].buffer[1..] else []
      ensures inboxes[s].addressed == old(inboxes)[s].addressed && inboxes[s].dropped == old(inboxes)[s].dropped
      ensures forall u | u in inboxes && u != s :: inboxes[u] == old(inboxes)[u]
    {
      var b := inboxes[s];
      if b.buffer == [] {
        return None;
      }
      RunOneMore(trace, Action.Receive(s));
      trace := trace + [Action.Receive(s)];
      m := Some(b.buffer[0]);
      inboxes := inboxes[s := b.(buffer := b.buffer[1..], received := b.received + [b.buffer[0]])];
      ReceivedSame(b, inboxes[s]);
    }

    /** A new subscriber joins every listed channel. */
    method Subscribe(s: Subscriber, channels: seq<Channel>)
      requires Valid() && s !in inboxes
      modifies this`inboxes, this`subscribers, this`trace
      ensures Valid() && old(trace) <= trace && inboxes == old(inboxes)[s := Inbox([], [], [], [])]
      ensures forall c :: c in subscribers <==> c in old(subscribers) || c in channels
      ensures forall c | c in subscribers ::
                subscribers[c] == (if c in old(subscribers) then old(subscribers)[c] else {}) + (if c in channels then {s} else {})
    {
      SubscribeStep(trace, subscribers, inboxes, sent, s, channels);
      hide Run;
      trace := trace + [Action.Subscribe(s, channels)];
      inboxes := inboxes[s := Inbox([], [], [], [])];
      for i := 0 to |channels|
        modifies `subscribers
        invariant AddTo(subscribers, s, channels[i..]) == AddTo(old(subscribers), s, channels)
      {
        hide AddTo;
        var c := channels[i];
        AddToStep(subscribers, s, channels, i);
        ghost var added := subscribers[c := (if c in subscribers then subscribers[c] else {}) + {s}];
        if c !in subscribers {
          subscribers := subscribers[c := {}];
        }
        subscribers := subscribers[c := subscribers[c] + {s}];
        assert subscribers == added;
      }
      AddToMembers(old(subscribers), s, channels);
    }

    /** Unsubscribing from a channel drops all of its subscribers, not only the caller. */
    method Unsubscribe(channels: seq<Channel>)
      requires Valid()
      modifies this
      ensures Valid() && old(trace) <= trace && inboxes == old(inboxes)
      ensures subscribers == old(subscribers) - (set c | c in channels)
    {
      RunOneMore(trace, Action.Unsubscribe(channels));
      hide Run;
      trace := trace + [Action.Unsubscribe(channels)];
      for i := 0 to |channels|
        modifies `subscribers
        invariant subscribers == old(subscribers) - (set c | c in channels[..i])
      {
        RemovedOneMore(old(subscribers), channels[..i], channels[i], channels[..i + 1]);
        subscribers := subscribers - {channels[i]};
      }
      assert channels[..|channels|] == channels;
    }
  }
}
