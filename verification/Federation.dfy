/** Replay protection of `legacy/v1/scoped/connector/protocol.py`: one sender with a counter per connector,
    one receiver with a ledger, and a network that may lose, repeat, reorder and invent messages. */
module Federation {
  import opened SignedMessages
  import opened Text

  type Key = (string, string, int)

  function KeyOf(m: Message): Key {
    (m.connector, m.sender, m.sequence)
  }

  function Last(counters: map<string, nat>, connector: string): nat {
    if connector in counters then counters[connector] else 0
  }

  /** A keyed authentication code; section 2 of RFC 2104 gives the one in use. */
  type Mac = string -> string

  function Signed(mac: Mac, m: Message): Message {
    m.(signature := mac(SigningPayload(m)))
  }

  predicate Authentic(mac: Mac, m: Message) {
    m.signature == mac(SigningPayload(m))
  }

  /** The same object serves as sender and as receiver. */
  class FederationProtocol {
    const mac: Mac
    var sequences: map<string, nat>
    var seen: set<Key>

    constructor (mac: Mac)
      ensures this.mac == mac && sequences == map[] && seen == {}
    {
      this.mac := mac;
      sequences, seen := map[], {};
    }

    method NextSequence(connector: string) returns (seq_: nat)
      modifies this
      ensures seq_ == Last(old(sequences), connector) + 1
      ensures sequences == old(sequences)[connector := seq_] && seen == old(seen)
    {
      seq_ := (if connector in sequences then sequences[connector] else 0) + 1;
      sequences := sequences[connector := seq_];
    }

    /** The id and the timestamp come from the system. */
    method CreateMessage(id: string, sender: string, receiver: string, connector: string, messageType: string,
                         payload: Json, timestamp: Timestamp)
      returns (m: Message)
      modifies this
      ensures m == NewMessage(mac, old(sequences), Draft(id, sender, receiver, connector, messageType, payload, timestamp))
      ensures m.id == id && m.sender == sender && m.receiver == receiver && m.connector == connector
      ensures m.messageType == messageType && m.payload == payload && m.timestamp == timestamp
      ensures m.sequence == if connector in old(sequences) then old(sequences)[connector] + 1 else 1
      ensures m.signature == mac(JoinBars([id, sender, receiver, connector, messageType, payload, timestamp, Show(m.sequence)]))
      ensures sequences == old(sequences)[connector := m.sequence] && seen == old(seen)
    {
      var n := NextSequence(connector);
      var unsigned := Message(id, sender, receiver, connector, messageType, payload, timestamp, n, "");
      var signature := mac(SigningPayload(unsigned));
      m := unsigned.(signature := signature);
      SigningJoins(m);
    }

    method VerifyMessage(m: Message) returns (valid: bool)
      ensures valid <==> Authentic(mac, m)
    {
      var expected := mac(SigningPayload(m));
      valid := expected == m.signature;
    }

    /** False when the message is a replay. */
    method RecordSeen(connector: string, sender: string, sequence: int) returns (recorded: bool)
      modifies this
      ensures recorded <==> (connector, sender, sequence) !in old(seen)
      ensures seen == old(seen) + {(connector, sender, sequence)} && sequences == old(sequences)
    {
      recorded := (connector, sender, sequence) !in seen;
      if recorded {
        seen := seen + {(connector, sender, sequence)};
      }
    }

    method AcceptMessage(m: Message) returns (accepted: bool)
      modifies this
      ensures accepted <==> Accepts(mac, old(seen), m)
      ensures accepted <==>
        && m.signature == mac(JoinBars([m.id, m.sender, m.receiver, m.connector, m.messageType, m.payload, m.timestamp, Show(m.sequence)]))
        && (m.connector, m.sender, m.sequence) !in old(seen)
      ensures accepted ==> seen == old(seen) + {(m.connector, m.sender, m.sequence)}
      ensures seen == (if accepted then old(seen) + {KeyOf(m)} else old(seen)) && sequences == old(sequences)
    {
      SigningJoins(m);
      accepted := VerifyMessage(m);
      if accepted {
        accepted := RecordSeen(m.connector, m.sender, m.sequence);
      }
    }
  }

  datatype Draft = Draft(id: string, sender: string, receiver: string, connector: string, messageType: string,
                         payload: Json, timestamp: Timestamp)

  function NewMessage(mac: Mac, counters: map<string, nat>, d: Draft): Message {
    Signed(mac, Message(d.id, d.sender, d.receiver, d.connector, d.messageType, d.payload, d.timestamp,
                        Last(counters, d.connector) + 1, ""))
  }

  predicate Accepts(mac: Mac, seen: set<Key>, m: Message) {
    Authentic(mac, m) && KeyOf(m) !in seen
  }

  /** A sender, a receiver, and the record of what was created and what was accepted. */
  datatype System = System(counters: map<string, nat>, created: seq<Message>, seen: set<Key>, accepted: seq<Message>)

  datatype Event = Create(draft: Draft) | Deliver(message: Message)

  function Step(mac: Mac, s: System, e: Event): System {
    match e
    case Create(d) =>
      var m := NewMessage(mac, s.counters, d);
      s.(counters := s.counters[d.connector := m.sequence], created := s.created + [m])
    case Deliver(m) =>
      if Accepts(mac, s.seen, m) then s.(seen := s.seen + {KeyOf(m)}, accepted := s.accepted + [m]) else s
  }

  /** Drafts have bar-free ids and types.  The network delivers anything at all, short of a valid code on a
      string the sender has not signed: the unforgeability assumed of the code. */
  ghost predicate Possible(mac: Mac, s: System, e: Event) {
    match e
    case Create(d) => Clean(NewMessage(mac, s.counters, d))
    case Deliver(m) => Authentic(mac, m) ==> exists c :: c in s.created && SigningPayload(c) == SigningPayload(m)
  }

  function Run(mac: Mac, events: seq<Event>): System {
    if events == [] then System(map[], [], {}, [])
    else Step(mac, Run(mac, events[..|events| - 1]), events[|events| - 1])
  }

  lemma RunOneMore(mac: Mac, events: seq<Event>, e: Event)
    ensures Run(mac, events + [e]) == Step(mac, Run(mac, events), e)
    ensures AllPossible(mac, events + [e]) <==> AllPossible(mac, events) && Possible(mac, Run(mac, events), e)
  {
    var longer := events + [e];
    assert longer[..|longer| - 1] == events;
  }

  ghost predicate AllPossible(mac: Mac, events: seq<Event>) {
    events != [] ==>
      AllPossible(mac, events[..|events| - 1]) && Possible(mac, Run(mac, events[..|events| - 1]), events[|events| - 1])
  }

  /** Created messages are clean, signed, and numbered upwards on each connector, up to its counter. */
  ghost predicate Sending(mac: Mac, s: System) {
    && (forall c | c in s.created :: Clean(c) && Authentic(mac, c) && 1 <= c.sequence <= Last(s.counters, c.connector))
    && (forall i, j | 0 <= i < j < |s.created| && s.created[i].connector == s.created[j].connector ::
          s.created[i].sequence < s.created[j].sequence)
  }

  /** Accepted messages were created, and the ledger holds their keys, each once. */
  ghost predicate Receiving(s: System) {
    && (forall m | m in s.accepted :: m in s.created && KeyOf(m) in s.seen)
    && (forall k | k in s.seen :: exists m :: m in s.accepted && KeyOf(m) == k)
    && (forall i, j | 0 <= i < j < |s.accepted| :: KeyOf(s.accepted[i]) != KeyOf(s.accepted[j]))
  }

  lemma DeliveredWasCreated(mac: Mac, s: System, m: Message)
    requires Sending(mac, s) && Possible(mac, s, Deliver(m)) && Authentic(mac, m)
    ensures m in s.created
  {
    var c :| c in s.created && SigningPayload(c) == SigningPayload(m);
    SigningDetermines(c, m);
    assert m == c;
  }

  lemma StepSends(mac: Mac, s: System, d: Draft)
    requires Sending(mac, s) && Possible(mac, s, Create(d))
    ensures Sending(mac, Step(mac, s, Create(d)))
  {
    var m, s' := NewMessage(mac, s.counters, d), Step(mac, s, Create(d));
    assert SigningPayload(m) == SigningPayload(m.(signature := ""));
    forall i, j | 0 <= i < j < |s'.created| && s'.created[i].connector == s'.created[j].connector
      ensures s'.created[i].sequence < s'.created[j].sequence
    {
      if j == |s.created| {
        assert s.created[i] in s.created;
      }
    }
  }

  lemma StepReceives(mac: Mac, s: System, m: Message)
    requires Sending(mac, s) && Receiving(s) && Possible(mac, s, Deliver(m))
    ensures Receiving(Step(mac, s, Deliver(m)))
  {
    if Accepts(mac, s.seen, m) {
      DeliveredWasCreated(mac, s, m);
      var s' := Step(mac, s, Deliver(m));
      forall k | k in s'.seen ensures exists a :: a in s'.accepted && KeyOf(a) == k {
        if k in s.seen {
          var a :| a in s.accepted && KeyOf(a) == k;
          assert a in s'.accepted;
        } else {
          assert m in s'.accepted;
        }
      }
      forall i, j | 0 <= i < j < |s'.accepted| ensures KeyOf(s'.accepted[i]) != KeyOf(s'.accepted[j]) {
        assert s.accepted[i] in s.accepted;
      }
    }
  }

  lemma {:induction false} RunKeeps(mac: Mac, events: seq<Event>)
    requires AllPossible(mac, events)
    ensures Sending(mac, Run(mac, events)) && Receiving(Run(mac, events))
    decreases |events|
  {
    if events != [] {
      var before := events[..|events| - 1];
      RunKeeps(mac, before);
      match events[|events| - 1] {
        case Create(d) => StepSends(mac, Run(mac, before), d);
        case Deliver(m) => StepReceives(mac, Run(mac, before), m);
      }
    }
  }

  /** Whatever the network does, the receiver accepts only created messages and each at most once. */
  lemma {:induction false} AcceptedOnceAndCreated(mac: Mac, events: seq<Event>, s: System)
    requires AllPossible(mac, events) && s == Run(mac, events)
    ensures forall m | m in s.accepted :: m in s.created
    ensures forall i, j | 0 <= i < j < |s.accepted| :: s.accepted[i] != s.accepted[j]
  {
    RunKeeps(mac, events);
  }

  /** Sequences on one connector strictly increase in the order of creation. */
  lemma {:induction false} SequencesIncrease(mac: Mac, events: seq<Event>, s: System, i: nat, j: nat)
    requires AllPossible(mac, events) && s == Run(mac, events)
    requires i < j < |s.created| && s.created[i].connector == s.created[j].connector
    ensures s.created[i].sequence < s.created[j].sequence
  {
    RunKeeps(mac, events);
  }

  lemma CreatedKeysDiffer(mac: Mac, s: System, m: Message, a: Message)
    requires Sending(mac, s) && m in s.created && a in s.created && KeyOf(a) == KeyOf(m)
    ensures a == m
  {
    var i :| 0 <= i < |s.created| && s.created[i] == a;
    var j :| 0 <= j < |s.created| && s.created[j] == m;
  }

  lemma CreatedIsNotRefused(mac: Mac, s: System, m: Message)
    requires Sending(mac, s) && Receiving(s) && m in s.created
    ensures Possible(mac, s, Deliver(m)) && (Accepts(mac, s.seen, m) <==> m !in s.accepted)
  {
    if KeyOf(m) in s.seen {
      var a :| a in s.accepted && KeyOf(a) == KeyOf(m);
      CreatedKeysDiffer(mac, s, m, a);
    }
  }

  /** A created message is accepted when it is delivered, unless it was accepted before: replay protection
      turns nothing else away. */
  lemma {:induction false} CreatedIsAcceptedWhenDelivered(mac: Mac, events: seq<Event>, s: System, m: Message)
    requires AllPossible(mac, events) && s == Run(mac, events) && m in s.created
    ensures AllPossible(mac, events + [Deliver(m)])
    ensures m in Run(mac, events + [Deliver(m)]).accepted
    ensures m in s.accepted ==> Run(mac, events + [Deliver(m)]) == s
  {
    RunKeeps(mac, events);
    RunOneMore(mac, events, Deliver(m));
    CreatedIsNotRefused(mac, s, m);
  }

  /** The rule on bars is needed for every draft: of any message with a bar in an id or its type the
      network can deliver a twin nobody created, and the receiver accepts it. */
  lemma BarsForge(mac: Mac, draft: Draft, s: System) returns (forged: Message)
    requires s == Step(mac, System(map[], [], {}, []), Create(draft))
    requires !Clean(NewMessage(mac, map[], draft))
    ensures Possible(mac, s, Deliver(forged))
    ensures forged in Step(mac, s, Deliver(forged)).accepted && forged !in Step(mac, s, Deliver(forged)).created
  {
    var m := NewMessage(mac, map[], draft);
    forged := BarsAreAmbiguous(m);
    assert m in s.created && SigningPayload(m) == SigningPayload(forged);
    assert SigningPayload(m) == SigningPayload(m.(signature := ""));
    assert Authentic(mac, m) && Accepts(mac, {}, forged);
  }
}
