/**
 The hash-linked event list of one resource, from `pyscoped/audit.py` (`event_digest`,
 `append_event`) and `pyscoped/history.py` (`verify_history`).

 The digest is a function parameter: SHA-256 of the canonical JSON of an event's content together
 with its resource's label and key.  Nothing is assumed of it except where a lemma says so.
 */
module EventChain {
  import opened Wrappers

  datatype Key = Key(model: string, pk: string)

  /** An encoded field value: what `plain` leaves of it after the JSON round trip. */
  type Json = string

  type Snapshot = map<string, Json>

  /** The fields of an event that its digest covers, besides the key of its resource. */
  datatype Body = Body(revision: nat, scope: string, actor: string, action: string,
                       before: Option<Snapshot>, after: Option<Snapshot>, occurredAt: int,
                       reason: string, requestId: string, previousDigest: string)

  datatype Event = Event(body: Body, digest: string)

  datatype Resource = Resource(scope: string, revision: nat, digest: string)

  type Digest = (Key, Body) -> string

  ghost predicate CollisionFree(hash: Digest) {
    forall k, b, k', b' :: hash(k, b) == hash(k', b') ==> k == k' && b == b'
  }

  /** The digest the next event must name: that of the last of the first `n` events. */
  function HeadDigest(events: seq<Event>, n: nat): string
    requires n <= |events|
  {
    if n == 0 then "" else events[n - 1].digest
  }

  predicate Linked(hash: Digest, key: Key, scope: string, events: seq<Event>, i: nat)
    requires i < |events|
  {
    && events[i].body.revision == i + 1
    && events[i].body.previousDigest == HeadDigest(events, i)
    && events[i].body.scope == scope
    && events[i].digest == hash(key, events[i].body)
  }

  /** What `verify_history` accepts for a retained head. */
  predicate Accepts(hash: Digest, key: Key, head: Resource, events: seq<Event>) {
    && (forall i | 0 <= i < |events| :: Linked(hash, key, head.scope, events, i))
    && head.revision == |events|
    && head.digest == HeadDigest(events, |events|)
  }

  datatype Verdict = Valid | NoHistory | InvalidEvent(revision: nat) | HeadMismatch

  datatype Verification = Verification(verdict: Verdict, events: nat)

  /** The loop of `verify_history`: the first bad event decides, then the head is compared. */
  method VerifyEvents(hash: Digest, key: Key, head: Resource, events: seq<Event>) returns (r: Verification)
    ensures r.events == |events|
    ensures r.verdict == Valid <==> Accepts(hash, key, head, events)
    ensures forall n: nat :: r.verdict == InvalidEvent(n) <==>
      (0 < n <= |events| && !Linked(hash, key, head.scope, events, n - 1)
       && forall i | 0 <= i < n - 1 :: Linked(hash, key, head.scope, events, i))
    ensures r.verdict != NoHistory
  {
    var previous := "";
    for i := 0 to |events|
      invariant previous == HeadDigest(events, i)
      invariant forall j | 0 <= j < i :: Linked(hash, key, head.scope, events, j)
    {
      var event := events[i];
      if event.body.revision != i + 1 || event.body.previousDigest != previous
         || event.body.scope != head.scope || event.digest != hash(key, event.body) {
        assert !Linked(hash, key, head.scope, events, i);
        return Verification(InvalidEvent(i + 1), |events|);
      }
      previous := event.digest;
    }
    if head.revision != |events| || head.digest != previous {
      return Verification(HeadMismatch, |events|);
    }
    return Verification(Valid, |events|);
  }

  /** The last events of two accepted lists agree, and so on down to the first. */
  lemma {:induction false} SuffixesAgree(hash: Digest, key: Key, head: Resource, a: seq<Event>, b: seq<Event>, n: nat)
    requires CollisionFree(hash) && Accepts(hash, key, head, a) && |a| == |b| && n <= |a|
    requires forall i | 0 <= i < |b| :: Linked(hash, key, head.scope, b, i)
    requires HeadDigest(a, |a|) == HeadDigest(b, |b|)
    ensures a[n..] == b[n..] && HeadDigest(a, n) == HeadDigest(b, n)
    decreases |a| - n
  {
    if n < |a| {
      SuffixesAgree(hash, key, head, a, b, n + 1);
      assert Linked(hash, key, head.scope, a, n) && Linked(hash, key, head.scope, b, n);
      assert hash(key, a[n].body) == hash(key, b[n].body);
      assert a[n..] == [a[n]] + a[n + 1..] && b[n..] == [b[n]] + b[n + 1..];
    }
  }

  /** Tamper evidence: against a retained head, at most one event list is ever accepted, so any
      edit, swap, insertion, deletion or truncation of the accepted list is reported. */
  lemma TamperEvident(hash: Digest, key: Key, head: Resource, produced: seq<Event>, stored: seq<Event>)
    requires CollisionFree(hash) && Accepts(hash, key, head, produced)
    ensures Accepts(hash, key, head, stored) <==> stored == produced
  {
    if Accepts(hash, key, head, stored) {
      SuffixesAgree(hash, key, head, produced, stored, 0);
      assert produced[0..] == produced && stored[0..] == stored;
    }
  }

  /** The retained digest and revision suffice: the scope stored beside them cannot be edited
      either, and a list moved to another resource is rejected. */
  lemma HeadPinsScopeAndKey(hash: Digest, key: Key, key': Key, head: Resource, scope': string, produced: seq<Event>, stored: seq<Event>)
    requires CollisionFree(hash) && Accepts(hash, key, head, produced) && produced != []
    requires Accepts(hash, key', head.(scope := scope'), stored)
    ensures key' == key && scope' == head.scope && stored == produced
  {
    var last := |produced| - 1;
    assert Linked(hash, key, head.scope, produced, last);
    assert Linked(hash, key', scope', stored, last);
    assert hash(key, produced[last].body) == hash(key', stored[last].body);
    TamperEvident(hash, key, head, produced, stored);
  }

  /** Appending under the head keeps the list accepted. */
  lemma AppendAccepted(hash: Digest, key: Key, head: Resource, events: seq<Event>, body: Body)
    requires Accepts(hash, key, head, events)
    requires body.revision == head.revision + 1 && body.scope == head.scope && body.previousDigest == head.digest
    ensures Accepts(hash, key, Resource(head.scope, body.revision, hash(key, body)),
                    events + [Event(body, hash(key, body))])
  {
    var all := events + [Event(body, hash(key, body))];
    forall i | 0 <= i < |all| ensures Linked(hash, key, head.scope, all, i) {
      if i < |events| {
        assert Linked(hash, key, head.scope, events, i);
        assert HeadDigest(all, i) == HeadDigest(events, i);
      } else {
        assert HeadDigest(all, i) == HeadDigest(events, i);
      }
    }
  }
}
