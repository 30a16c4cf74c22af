/** The canonical signing string of `legacy/v1/scoped/connector/protocol.py`: eight fields joined by bars. */
module SignedMessages {
  import opened Text

  /** Where a scan of JSON text is: between tokens, inside a string literal, after a backslash there, or stuck. */
  datatype Scan = Outside | Inside | Escaped | Stuck

  /** Bars and backslashes occur only inside string literals (section 7 of RFC 8259). */
  function Next(state: Scan, c: char): Scan {
    match state
    case Outside => if c == '"' then Inside else if c == '|' || c == '\\' then Stuck else Outside
    case Inside => if c == '"' then Outside else if c == '\\' then Escaped else Inside
    case Escaped => Inside
    case Stuck => Stuck
  }

  function ScanFrom(state: Scan, s: string): Scan
    decreases |s|
  {
    if s == [] then state else ScanFrom(Next(state, s[0]), s[1..])
  }

  /** A property of every text that `json.dumps` writes for a dictionary. */
  predicate JsonText(s: string) {
    ScanFrom(Outside, s) == Outside
  }

  /** Inside a string literal anything may follow a backslash, and any other character but a quote stands
      for itself, bars included. */
  lemma LiteralsHoldAnything(c: char, rest: string)
    ensures ScanFrom(Inside, ['\\', c] + rest) == ScanFrom(Inside, rest)
    ensures c != '"' && c != '\\' ==> ScanFrom(Inside, [c] + rest) == ScanFrom(Inside, rest)
    ensures ScanFrom(Inside, "\"" + rest) == ScanFrom(Outside, rest) && ScanFrom(Outside, "\"" + rest) == ScanFrom(Inside, rest)
    ensures c != '"' && c != '\\' && c != '|' ==> ScanFrom(Outside, [c] + rest) == ScanFrom(Outside, rest)
  {
    assert (['\\', c] + rest)[1..] == [c] + rest && ([c] + rest)[1..] == rest && ("\"" + rest)[1..] == rest;
  }

  type Json = s: string | JsonText(s) witness "{}"

  /** ISO timestamps contain no bar. */
  type Timestamp = s: string | '|' !in s witness "1970-01-01"

  datatype Message = Message(id: string, sender: string, receiver: string, connector: string, messageType: string,
                             payload: Json, timestamp: Timestamp, sequence: int, signature: string)

  /** The ids and the type, as the signing string begins. */
  function Envelope(m: Message): string {
    m.id + "|" + m.sender + "|" + m.receiver + "|" + m.connector + "|" + m.messageType
  }

  function SigningPayload(m: Message): string {
    Envelope(m) + "|" + m.payload + "|" + m.timestamp + "|" + Show(m.sequence)
  }

  /** The eight fields in their order, a bar between any two. */
  lemma SigningJoins(m: Message)
    ensures SigningPayload(m) == JoinBars([m.id, m.sender, m.receiver, m.connector, m.messageType, m.payload, m.timestamp, Show(m.sequence)])
  {
    var ids := [m.id, m.sender, m.receiver, m.connector];
    var rest := [m.messageType, m.payload, m.timestamp, Show(m.sequence)];
    JoinBarsFour(ids[0], ids[1], ids[2], ids[3]);
    JoinBarsFour(rest[0], rest[1], rest[2], rest[3]);
    JoinBarsAdd(ids, rest);
    BarsRegroup(m.id, m.sender, m.receiver, m.connector, m.messageType, m.payload, m.timestamp, Show(m.sequence));
    assert ids + rest == [m.id, m.sender, m.receiver, m.connector, m.messageType, m.payload, m.timestamp, Show(m.sequence)];
  }

  lemma BarsRegroup(a: string, b: string, c: string, d: string, e: string, f: string, g: string, h: string)
    ensures a + "|" + b + "|" + c + "|" + d + "|" + e + "|" + f + "|" + g + "|" + h
         == (a + "|" + (b + "|" + (c + "|" + d))) + "|" + (e + "|" + (f + "|" + (g + "|" + h)))
  {
    var left := a + "|" + b + "|" + c + "|" + d;
    assert left == a + "|" + (b + "|" + (c + "|" + d));
    assert left + "|" + e + "|" + f + "|" + g + "|" + h == left + "|" + (e + "|" + (f + "|" + (g + "|" + h)));
  }

  /** No id contains a bar, nor does the message type. */
  predicate Clean(m: Message) {
    '|' !in m.id && '|' !in m.sender && '|' !in m.receiver && '|' !in m.connector && '|' !in m.messageType
  }

  lemma {:induction false} ScanJoin(state: Scan, a: string, b: string)
    ensures ScanFrom(state, a + b) == ScanFrom(ScanFrom(state, a), b)
    decreases |a|
  {
    if a == [] {
      assert a + b == b;
    } else {
      assert (a + b)[1..] == a[1..] + b;
      ScanJoin(Next(state, a[0]), a[1..], b);
    }
  }

  lemma {:induction false} StuckStays(s: string)
    ensures ScanFrom(Stuck, s) == Stuck
  {
    if s != [] {
      StuckStays(s[1..]);
    }
  }

  /** One text cannot complete both from outside and from inside a string literal: the two scans stay opposite. */
  lemma {:induction false} OppositeScans(s: string)
    ensures ScanFrom(Outside, s) == Outside ==> ScanFrom(Inside, s) != Outside
    ensures ScanFrom(Inside, s) == Outside ==> ScanFrom(Outside, s) != Outside
  {
    if s != [] {
      if s[0] == '\\' {
        StuckStays(s[1..]);
      } else if s[0] == '|' {
        StuckStays(s[1..]);
      } else {
        OppositeScans(s[1..]);
      }
    }
  }

  /** No JSON text continues another part of text after a bar. */
  lemma NoJsonAfterBar(front: string, tail: string)
    requires JsonText(front + "|" + tail)
    ensures !JsonText(tail)
  {
    ScanJoin(Outside, front + "|", tail);
    ScanJoin(Outside, front, "|");
    var state := ScanFrom(Outside, front);
    assert ScanFrom(state, "|") == Next(state, '|') by {
      assert "|"[1..] == [];
    }
    StuckStays(tail);
    OppositeScans(tail);
  }

  /** Splitting at the bar before the payload is unambiguous. */
  lemma PayloadSplits(a: string, p: Json, b: string, q: Json)
    requires a + "|" + p == b + "|" + q
    ensures a == b && p == q
  {
    var s := a + "|" + p;
    assert s == b + "|" + q;
    if |a| < |b| {
      var gap := s[|a| + 1..|b|];
      assert p == s[|a| + 1..] == gap + "|" + q;
      NoJsonAfterBar(gap, q);
    } else if |b| < |a| {
      var gap := s[|b| + 1..|a|];
      assert q == s[|b| + 1..] == gap + "|" + p;
      NoJsonAfterBar(gap, p);
    } else {
      assert a == s[..|a|] == b;
      assert p == s[|a| + 1..] == q;
    }
  }

  lemma EnvelopeBars(m: Message)
    ensures Bars(Envelope(m))
         == Bars(m.id) + Bars(m.sender) + Bars(m.receiver) + Bars(m.connector) + Bars(m.messageType) + 4
  {
    BarsInJoin(m.id, m.sender);
    BarsInJoin(m.id + "|" + m.sender, m.receiver);
    BarsInJoin(m.id + "|" + m.sender + "|" + m.receiver, m.connector);
    BarsInJoin(m.id + "|" + m.sender + "|" + m.receiver + "|" + m.connector, m.messageType);
  }

  lemma CleanMeansFourBars(m: Message)
    ensures Clean(m) <==> Bars(Envelope(m)) == 4
  {
    EnvelopeBars(m);
    BarsZero(m.id);
    BarsZero(m.sender);
    BarsZero(m.receiver);
    BarsZero(m.connector);
    BarsZero(m.messageType);
  }

  lemma CleanEnvelopesSplit(a: Message, b: Message)
    requires Clean(a) && Clean(b) && Envelope(a) == Envelope(b)
    ensures a.id == b.id && a.sender == b.sender && a.receiver == b.receiver
    ensures a.connector == b.connector && a.messageType == b.messageType
  {
    SplitAtLast(a.id + "|" + a.sender + "|" + a.receiver + "|" + a.connector, a.messageType,
                b.id + "|" + b.sender + "|" + b.receiver + "|" + b.connector, b.messageType, '|');
    SplitAtLast(a.id + "|" + a.sender + "|" + a.receiver, a.connector, b.id + "|" + b.sender + "|" + b.receiver, b.connector, '|');
    SplitAtLast(a.id + "|" + a.sender, a.receiver, b.id + "|" + b.sender, b.receiver, '|');
    SplitAtLast(a.id, a.sender, b.id, b.sender, '|');
  }

  /** The signing string determines the whole message as soon as one of the two has bar-free ids; the
      payloads, and the other message's ids, may contain bars. */
  lemma SigningDetermines(a: Message, b: Message)
    requires Clean(a) && SigningPayload(a) == SigningPayload(b)
    ensures b == a.(signature := b.signature)
  {
    ShowHasNo(a.sequence, '|');
    ShowHasNo(b.sequence, '|');
    SplitAtLast(Envelope(a) + "|" + a.payload + "|" + a.timestamp, Show(a.sequence),
                Envelope(b) + "|" + b.payload + "|" + b.timestamp, Show(b.sequence), '|');
    ShowInjective(a.sequence, b.sequence);
    SplitAtLast(Envelope(a) + "|" + a.payload, a.timestamp, Envelope(b) + "|" + b.payload, b.timestamp, '|');
    PayloadSplits(Envelope(a), a.payload, Envelope(b), b.payload);
    CleanMeansFourBars(a);
    CleanMeansFourBars(b);
    CleanEnvelopesSplit(a, b);
  }

  /** Every other message shares its signing string with a different one: a bar in one of its ids, or in its
      type, can be read as the end of that field. */
  lemma BarsAreAmbiguous(a: Message) returns (b: Message)
    requires !Clean(a)
    ensures SigningPayload(b) == SigningPayload(a) && b.signature == a.signature && b != a
  {
    if '|' in a.id {
      var x, y := BarSplits(a.id);
      b := a.(id := x, sender := y + "|" + a.sender);
      BarsAssociate(x, y, a.sender);
    } else if '|' in a.sender {
      var x, y := BarSplits(a.sender);
      b := a.(sender := x, receiver := y + "|" + a.receiver);
      BarsAssociate(a.id + "|" + x, y, a.receiver);
      BarsAssociate(a.id, x, y);
    } else if '|' in a.receiver {
      var x, y := BarSplits(a.receiver);
      b := a.(receiver := x, connector := y + "|" + a.connector);
      BarsAssociate(a.id + "|" + a.sender + "|" + x, y, a.connector);
      BarsAssociate(a.id + "|" + a.sender, x, y);
    } else if '|' in a.connector {
      var x, y := BarSplits(a.connector);
      b := a.(connector := x, messageType := y + "|" + a.messageType);
      BarsAssociate(a.id + "|" + a.sender + "|" + a.receiver + "|" + x, y, a.messageType);
      BarsAssociate(a.id + "|" + a.sender + "|" + a.receiver, x, y);
    } else {
      var x, y := BarSplits(a.messageType);
      b := a.(connector := a.connector + "|" + x, messageType := y);
      BarsAssociate(a.id + "|" + a.sender + "|" + a.receiver, a.connector, x);
      BarsAssociate(a.id + "|" + a.sender + "|" + a.receiver + "|" + a.connector, x, y);
    }
    assert Envelope(b) == Envelope(a);
  }

  ghost predicate Determined(a: Message) {
    forall b :: SigningPayload(b) == SigningPayload(a) ==> b == a.(signature := b.signature)
  }

  /** The signing string determines exactly the messages whose ids and type contain no bar. */
  lemma SigningDeterminesExactly(a: Message)
    ensures Determined(a) <==> Clean(a)
  {
    if Clean(a) {
      forall b | SigningPayload(b) == SigningPayload(a) ensures b == a.(signature := b.signature) {
        SigningDetermines(a, b);
      }
    } else {
      var b := BarsAreAmbiguous(a);
      assert b != a.(signature := b.signature);
    }
  }
}
