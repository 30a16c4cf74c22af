/**
 The hash-chained audit trail of the 1.x framework: what an entry's hash covers
 (`legacy/v1/scoped/audit/models.py`) and how a chain is verified in chunks
 (`legacy/v1/scoped/audit/query.py`).
 */
module AuditTrail {
  import opened Wrappers
  import opened Text

  /** The columns that no hash covers. */
  datatype Details = Details(scopeId: Option<string>, before: Option<string>, after: Option<string>,
                             metadata: string, parent: Option<string>)

  /** What the caller and the clock supply for one entry. */
  datatype Draft = Draft(id: string, actor: string, action: string, targetType: string, targetId: string,
                         timestamp: string, details: Details)

  datatype Entry = Entry(sequence: int, draft: Draft, previousHash: string, hash: string)

  /** `hashlib.new(algorithm)` over UTF-8 text, in hexadecimal. */
  type Algorithm = string -> string

  ghost predicate CollisionFree(algorithm: Algorithm) {
    forall x, y :: algorithm(x) == algorithm(y) ==> x == y
  }

  /** `compute_hash` with the algorithm fixed: sequence, draft and previous hash to hash. */
  type Hash = (int, Draft, string) -> string

  /** The string that `compute_hash` digests. */
  function Payload(sequence: int, d: Draft, previousHash: string): string {
    d.id + "|" + Show(sequence) + "|" + PayloadRest(d, previousHash)
  }

  function PayloadRest(d: Draft, previousHash: string): string {
    d.actor + "|" + (d.action + "|" + (d.targetType + "|" + (d.targetId + "|" + (d.timestamp + "|" + previousHash))))
  }

  /** The eight parts of the digested string, a bar between any two. */
  lemma PayloadJoins(n: int, d: Draft, p: string)
    ensures Payload(n, d, p) == JoinBars([d.id, Show(n), d.actor, d.action, d.targetType, d.targetId, d.timestamp, p])
  {
    var front := [d.id, Show(n), d.actor, d.action];
    var rest := [d.targetType, d.targetId, d.timestamp, p];
    JoinBarsFour(front[0], front[1], front[2], front[3]);
    JoinBarsFour(rest[0], rest[1], rest[2], rest[3]);
    JoinBarsAdd(front, rest);
    var tail := d.targetType + "|" + (d.targetId + "|" + (d.timestamp + "|" + p));
    assert d.id + "|" + Show(n) + "|" + (d.actor + "|" + (d.action + "|" + tail))
        == (d.id + "|" + (Show(n) + "|" + (d.actor + "|" + d.action))) + "|" + tail;
    assert front + rest == [d.id, Show(n), d.actor, d.action, d.targetType, d.targetId, d.timestamp, p];
  }

  function ComputeHash(algorithm: Algorithm): Hash {
    (sequence, d, previousHash) => algorithm(Payload(sequence, d, previousHash))
  }

  lemma HashIgnoresDetails(algorithm: Algorithm, n: int, d: Draft, details: Details, p: string)
    ensures ComputeHash(algorithm)(n, d.(details := details), p) == ComputeHash(algorithm)(n, d, p)
  {
    assert Payload(n, d.(details := details), p) == Payload(n, d, p);
  }

  // ---------------------------------------------------------------------------------------------
  // One scan
  // ---------------------------------------------------------------------------------------------

  predicate Rehashes(hash: Hash, e: Entry) {
    e.hash == hash(e.sequence, e.draft, e.previousHash)
  }

  /** Row `i` fails its own hash or its link to the row before it in the range. */
  predicate Offends(hash: Hash, rows: seq<Entry>, i: nat)
    requires i < |rows|
  {
    !Rehashes(hash, rows[i]) || (i > 0 && rows[i].previousHash != rows[i - 1].hash)
  }

  ghost predicate Chained(hash: Hash, rows: seq<Entry>) {
    forall i | 0 <= i < |rows| :: !Offends(hash, rows, i)
  }

  datatype ChainVerification = ChainVerification(valid: bool, entriesChecked: nat, firstSequence: int,
                                                 lastSequence: int, brokenAt: Option<int>)

  /** What a single pass over all rows of the range reports, stopping at offender `k` if there is one. */
  function Report(rows: seq<Entry>, k: nat): ChainVerification
    requires k <= |rows|
  {
    if rows == [] then ChainVerification(true, 0, 0, 0, None)
    else if k < |rows| then ChainVerification(false, k + 1, rows[0].sequence, rows[k].sequence, Some(rows[k].sequence))
    else ChainVerification(true, |rows|, rows[0].sequence, rows[|rows| - 1].sequence, None)
  }

  ghost predicate CleanUpTo(hash: Hash, rows: seq<Entry>, k: nat) {
    k <= |rows| && forall i | 0 <= i < k :: !Offends(hash, rows, i)
  }

  ghost predicate FirstOffender(hash: Hash, rows: seq<Entry>, k: nat) {
    CleanUpTo(hash, rows, k) && (k < |rows| ==> Offends(hash, rows, k))
  }

  /** The unchunked verification of a range: the report at its first offender. */
  ghost predicate PlainScan(hash: Hash, rows: seq<Entry>, r: ChainVerification) {
    exists k: nat :: FirstOffender(hash, rows, k) && r == Report(rows, k)
  }

  /** The plain scan is a function of the rows, and it says "valid" exactly of a linked, rehashing
      range; otherwise it names the first row that is not. */
  lemma PlainScanMeaning(hash: Hash, rows: seq<Entry>, r: ChainVerification, r': ChainVerification)
    requires PlainScan(hash, rows, r) && PlainScan(hash, rows, r')
    ensures r == r'
    ensures r.valid <==> Chained(hash, rows)
    ensures !r.valid ==> exists k | 0 <= k < |rows| ::
      Offends(hash, rows, k) && r.brokenAt == Some(rows[k].sequence) && Chained(hash, rows[..k])
  {
    var k: nat :| FirstOffender(hash, rows, k) && r == Report(rows, k);
    var k': nat :| FirstOffender(hash, rows, k') && r' == Report(rows, k');
    assert !(k < k') && !(k' < k);
    if k < |rows| {
      assert Chained(hash, rows[..k]) by {
        forall i | 0 <= i < k ensures !Offends(hash, rows[..k], i) {
          assert !Offends(hash, rows, i);
        }
      }
      assert Offends(hash, rows, k) && r.brokenAt == Some(rows[k].sequence);
    }
  }

  // ---------------------------------------------------------------------------------------------
  // Chunks
  // ---------------------------------------------------------------------------------------------

  /** Rows come in sequence order and the sequence is unique. */
  ghost predicate Ordered(rows: seq<Entry>) {
    forall i, j | 0 <= i < j < |rows| :: rows[i].sequence < rows[j].sequence
  }

  predicate Within(e: Entry, from: int, to: Option<int>) {
    from <= e.sequence && (to.Some? ==> e.sequence <= to.value)
  }

  function InRange(rows: seq<Entry>, from: int, to: Option<int>): seq<Entry> {
    if rows == [] then []
    else if Within(rows[0], from, to) then [rows[0]] + InRange(rows[1..], from, to)
    else InRange(rows[1..], from, to)
  }

  /** `ORDER BY sequence LIMIT limit` over the range. */
  function Fetch(rows: seq<Entry>, from: int, to: Option<int>, limit: nat): seq<Entry> {
    var range := InRange(rows, from, to);
    if |range| <= limit then range else range[..limit]
  }

  lemma {:induction false} InRangeMembers(rows: seq<Entry>, from: int, to: Option<int>)
    ensures forall e :: e in InRange(rows, from, to) ==> e in rows && Within(e, from, to)
  {
    if rows != [] {
      InRangeMembers(rows[1..], from, to);
    }
  }

  lemma {:induction false} InRangeAll(rows: seq<Entry>, from: int, from': int, to: Option<int>)
    requires forall e :: e in rows ==> (Within(e, from, to) <==> Within(e, from', to))
    ensures InRange(rows, from, to) == InRange(rows, from', to)
  {
    if rows != [] {
      assert rows[0] in rows;
      InRangeAll(rows[1..], from, from', to);
    }
  }

  lemma OrderedTail(rows: seq<Entry>)
    requires Ordered(rows) && rows != []
    ensures Ordered(rows[1..]) && forall e :: e in rows[1..] ==> rows[0].sequence < e.sequence
  {
    var tail := rows[1..];
    assert forall i | 0 <= i < |tail| :: tail[i] == rows[i + 1];
  }

  lemma InRangeFromFirst(rows: seq<Entry>, from: int, to: Option<int>, k: nat)
    requires Ordered(rows) && rows != [] && k < |InRange(rows, from, to)|
    ensures rows[0].sequence <= InRange(rows, from, to)[k].sequence
  {
    var e := InRange(rows, from, to)[k];
    InRangeMembers(rows, from, to);
    assert e in rows;
    var i :| 0 <= i < |rows| && rows[i] == e;
    assert i > 0 ==> rows[0].sequence < rows[i].sequence;
  }

  /** Nothing of an ordered table is skipped by starting right after its first row. */
  lemma InRangeAfterFirst(rows: seq<Entry>, from: int, to: Option<int>)
    requires Ordered(rows) && rows != [] && from <= rows[0].sequence
    ensures InRange(rows[1..], rows[0].sequence + 1, to) == InRange(rows[1..], from, to)
  {
    OrderedTail(rows);
    InRangeAll(rows[1..], from, rows[0].sequence + 1, to);
  }

  /** The rows from `i` on before `j` are those whose sequence lies between the bounds, both included. */
  ghost predicate Bounds(rows: seq<Entry>, from: int, to: Option<int>, i: nat, j: nat) {
    && i <= j <= |rows|
    && forall k | 0 <= k < |rows| ::
         i <= k < j <==> rows[k].sequence >= from && (to == None || rows[k].sequence <= to.value)
  }

  /** If a row before all of these is in the range, none of them lies below it. */
  lemma FirstWithinStarts(rows: seq<Entry>, before: int, from: int, to: Option<int>, i: nat, j: nat)
    requires Ordered(rows) && (forall e :: e in rows ==> before < e.sequence)
    requires from <= before && Bounds(rows, from, to, i, j)
    ensures i < j ==> i == 0
  {
    if i < j {
      assert rows[0] in rows && rows[0].sequence <= rows[i].sequence;
    }
  }

  lemma StretchWithFirst(rows: seq<Entry>, from: int, to: Option<int>, a: nat, b: nat, j: nat)
    requires Ordered(rows) && rows != [] && Within(rows[0], from, to) && Bounds(rows[1..], from, to, a, b)
    requires j == if a == b then 1 else b + 1
    ensures Bounds(rows, from, to, 0, j) && rows[..j] == [rows[0]] + rows[1..][a..b]
  {
    OrderedTail(rows);
    FirstWithinStarts(rows[1..], rows[0].sequence, from, to, a, b);
    forall k | 0 < k < |rows| ensures rows[k] == rows[1..][k - 1] {}
  }

  lemma StretchWithoutFirst(rows: seq<Entry>, from: int, to: Option<int>, a: nat, b: nat)
    requires rows != [] && !Within(rows[0], from, to) && Bounds(rows[1..], from, to, a, b)
    ensures Bounds(rows, from, to, a + 1, b + 1) && rows[a + 1..b + 1] == rows[1..][a..b]
  {
    forall k | 0 < k < |rows| ensures rows[k] == rows[1..][k - 1] {}
  }

  /** Of an ordered table a range is one stretch, and `InRange` cuts out exactly that. */
  lemma {:induction false} RangeIsStretch(rows: seq<Entry>, from: int, to: Option<int>) returns (i: nat, j: nat)
    requires Ordered(rows)
    ensures Bounds(rows, from, to, i, j) && InRange(rows, from, to) == rows[i..j]
    decreases |rows|
  {
    if rows == [] {
      i, j := 0, 0;
    } else {
      hide Bounds, Within, Ordered;
      OrderedTail(rows);
      var a, b := RangeIsStretch(rows[1..], from, to);
      if Within(rows[0], from, to) {
        i, j := 0, if a == b then 1 else b + 1;
        StretchWithFirst(rows, from, to, a, b, j);
      } else {
        i, j := a + 1, b + 1;
        StretchWithoutFirst(rows, from, to, a, b);
      }
    }
  }

  /** A chunk is what comes next in the range; a short one is the last. */
  lemma FetchIsNext(rows: seq<Entry>, from: int, to: Option<int>, limit: nat, range: seq<Entry>, t: nat)
    requires t <= |range| && InRange(rows, from, to) == range[t..]
    ensures var entries := Fetch(rows, from, to, limit);
      && t + |entries| <= |range| && entries == range[t..t + |entries|] && |entries| <= limit
      && (|entries| < limit ==> t + |entries| == |range|)
  {
  }

  /** Continuing after the last fetched sequence drops exactly the fetched rows. */
  lemma {:induction false} ContinueAfter(rows: seq<Entry>, range: seq<Entry>, from: int, to: Option<int>, t: nat, next: int)
    requires Ordered(rows) && range == InRange(rows, from, to)
    requires 0 < t <= |range| && next == range[t - 1].sequence + 1
    ensures InRange(rows, next, to) == range[t..]
    decreases |rows|
  {
    var tail := InRange(rows[1..], from, to);
    OrderedTail(rows);
    InRangeFromFirst(rows, from, to, t - 1);
    assert !Within(rows[0], next, to);
    assert InRange(rows, next, to) == InRange(rows[1..], next, to);
    if Within(rows[0], from, to) {
      assert range == [rows[0]] + tail && range[t..] == tail[t - 1..];
      if t == 1 {
        InRangeAfterFirst(rows, from, to);
      } else {
        assert range[t - 1] == tail[t - 2];
        ContinueAfter(rows[1..], tail, from, to, t - 1, next);
      }
    } else {
      assert range == tail;
      ContinueAfter(rows[1..], tail, from, to, t, next);
    }
  }

  /** What verification says of the rows from `i` on before `j`: valid, with their number, if each
      carries the hash of its contents and names the hash of the one before; otherwise the first that
      does not, and how many were read until then. */
  ghost predicate Verdict(hash: Hash, rows: seq<Entry>, i: nat, j: nat, r: ChainVerification)
    requires i <= j <= |rows|
  {
    && (r.valid ==> r.brokenAt == None && r.entriesChecked == j - i && forall k | i <= k < j :: Holds(hash, rows, i, k))
    && (r.valid && i < j ==> r.firstSequence == rows[i].sequence && r.lastSequence == rows[j - 1].sequence)
    && (r.valid && i == j ==> r.firstSequence == 0 && r.lastSequence == 0)
    && (!r.valid ==>
          && 0 < r.entriesChecked <= j - i && r.firstSequence == rows[i].sequence
          && var last := i + r.entriesChecked - 1;
             && !Holds(hash, rows, i, last) && (forall k | i <= k < last :: Holds(hash, rows, i, k))
             && r.lastSequence == rows[last].sequence && r.brokenAt == Some(rows[last].sequence))
  }

  ghost predicate Holds(hash: Hash, rows: seq<Entry>, i: nat, k: nat)
    requires i <= k < |rows|
  {
    rows[k].hash == hash(rows[k].sequence, rows[k].draft, rows[k].previousHash)
    && (k > i ==> rows[k].previousHash == rows[k - 1].hash)
  }

  lemma ReportIsVerdict(hash: Hash, rows: seq<Entry>, i: nat, j: nat, k: nat)
    requires i <= j <= |rows| && FirstOffender(hash, rows[i..j], k)
    ensures Verdict(hash, rows, i, j, Report(rows[i..j], k))
  {
    var range := rows[i..j];
    forall n | i <= n < j ensures Holds(hash, rows, i, n) <==> !Offends(hash, range, n - i) {
      assert range[n - i] == rows[n] && (n > i ==> range[n - i - 1] == rows[n - 1]);
    }
  }

  lemma ScanIsVerdict(hash: Hash, rows: seq<Entry>, from: int, to: Option<int>, r: ChainVerification)
    requires Ordered(rows) && PlainScan(hash, InRange(rows, from, to), r)
    ensures exists i, j :: Bounds(rows, from, to, i, j) && Verdict(hash, rows, i, j, r)
  {
    hide Verdict, Report, Ordered, Offends;
    var i, j := RangeIsStretch(rows, from, to);
    var k: nat :| FirstOffender(hash, rows[i..j], k) && r == Report(rows[i..j], k);
    ReportIsVerdict(hash, rows, i, j, k);
  }

  class AuditQuery {
    const hash: Hash

    constructor (hash: Hash)
      ensures this.hash == hash
    {
      this.hash := hash;
    }

    /** The inner loop of `verify_chain`: the first row of a chunk that fails its hash or its link. */
    method CheckChunk(ghost range: seq<Entry>, checked: nat, entries: seq<Entry>, carried: Option<string>)
      returns (broken: Option<nat>)
      requires CleanUpTo(hash, range, checked)
      requires checked + |entries| <= |range| && entries == range[checked..checked + |entries|]
      requires carried == if checked == 0 then None else Some(range[checked - 1].hash)
      ensures broken.None? ==> CleanUpTo(hash, range, checked + |entries|)
      ensures broken.Some? ==> broken.value < |entries| && FirstOffender(hash, range, checked + broken.value)
    {
      var prevHash := carried;
      for i := 0 to |entries|
        invariant CleanUpTo(hash, range, checked + i)
        invariant prevHash == if checked + i == 0 then None else Some(range[checked + i - 1].hash)
      {
        var entry := entries[i];
        assert entry == range[checked + i];
        var expected := hash(entry.sequence, entry.draft, entry.previousHash);
        if entry.hash != expected || (prevHash.Some? && entry.previousHash != prevHash.value) {
          assert Offends(hash, range, checked + i);
          return Some(i);
        }
        prevHash := Some(entry.hash);
      }
      return None;
    }

    /** `verify_chain`: fetch a chunk, check it against the hash carried over, move past it.
        A chunk size of zero fetches nothing and reports an empty, valid range. */
    method VerifyChain(rows: seq<Entry>, from: int, to: Option<int>, chunkSize: nat) returns (r: ChainVerification)
      requires Ordered(rows)
      ensures chunkSize >= 1 ==> PlainScan(hash, InRange(rows, from, to), r)
      ensures chunkSize >= 1 ==> exists i, j :: Bounds(rows, from, to, i, j) && Verdict(hash, rows, i, j, r)
      ensures chunkSize == 0 ==> r == ChainVerification(true, 0, 0, 0, None)
    {
      hide InRange, Ordered, Fetch;
      ghost var range := InRange(rows, from, to);
      var totalChecked := 0;
      var firstSeq: Option<int> := None;
      var lastSeq := 0;
      var prevHash: Option<string> := None;
      var currentFrom := from;
      var more := true;
      while more
        invariant CleanUpTo(hash, range, totalChecked)
        invariant more ==> InRange(rows, currentFrom, to) == range[totalChecked..]
        invariant firstSeq == if totalChecked == 0 then None else Some(range[0].sequence)
        invariant prevHash == if totalChecked == 0 then None else Some(range[totalChecked - 1].hash)
        invariant lastSeq == if totalChecked == 0 then 0 else range[totalChecked - 1].sequence
        invariant !more && chunkSize >= 1 ==> totalChecked == |range|
        invariant chunkSize == 0 ==> totalChecked == 0
        decreases |range| - totalChecked, more
      {
        FetchIsNext(rows, currentFrom, to, chunkSize, range, totalChecked);
        var entries := Fetch(rows, currentFrom, to, chunkSize);
        if entries == [] {
          more := false;
        } else {
          if firstSeq.None? {
            firstSeq := Some(entries[0].sequence);
          }
          var broken := CheckChunk(range, totalChecked, entries, prevHash);
          if broken.Some? {
            var entry := entries[broken.value];
            assert entry == range[totalChecked + broken.value];
            r := ChainVerification(false, totalChecked + broken.value + 1, firstSeq.value, entry.sequence, Some(entry.sequence));
            ScanIsVerdict(hash, rows, from, to, r);
            return;
          }
          var last := entries[|entries| - 1];
          totalChecked := totalChecked + |entries|;
          assert last == range[totalChecked - 1];
          prevHash, lastSeq := Some(last.hash), last.sequence;
          if |entries| < chunkSize {
            more := false;
          } else {
            currentFrom := last.sequence + 1;
            ContinueAfter(rows, range, from, to, totalChecked, currentFrom);
          }
        }
      }
      if firstSeq.None? {
        r := ChainVerification(true, 0, 0, 0, None);
      } else {
        r := ChainVerification(true, totalChecked, firstSeq.value, lastSeq, None);
      }
      if chunkSize >= 1 {
        assert FirstOffender(hash, range, |range|) && r == Report(range, |range|);
        ScanIsVerdict(hash, rows, from, to, r);
      }
    }
  }

  // ---------------------------------------------------------------------------------------------
  // What verification cannot see
  // ---------------------------------------------------------------------------------------------

  /** The rows with new uncovered columns: same identity columns, hashes and links. */
  ghost predicate SameCovered(rows: seq<Entry>, rows': seq<Entry>) {
    |rows| == |rows'| && forall i | 0 <= i < |rows| :: rows'[i] == rows[i].(draft := rows[i].draft.(details := rows'[i].draft.details))
  }

  /** No edit of scope, states, metadata or parent changes any verification result. */
  lemma UncoveredEditsUnseen(algorithm: Algorithm, rows: seq<Entry>, rows': seq<Entry>, from: int, to: Option<int>, r: ChainVerification)
    requires SameCovered(rows, rows') && PlainScan(ComputeHash(algorithm), InRange(rows, from, to), r)
    ensures PlainScan(ComputeHash(algorithm), InRange(rows', from, to), r)
  {
    var hash := ComputeHash(algorithm);
    InRangeSameCovered(rows, rows', from, to);
    var a, b := InRange(rows, from, to), InRange(rows', from, to);
    var k: nat :| FirstOffender(hash, a, k) && r == Report(a, k);
    forall i | 0 <= i < |a| ensures Offends(hash, a, i) <==> Offends(hash, b, i) {
      HashIgnoresDetails(algorithm, a[i].sequence, a[i].draft, b[i].draft.details, a[i].previousHash);
      assert b[i] == a[i].(draft := a[i].draft.(details := b[i].draft.details));
      assert i > 0 ==> b[i - 1] == a[i - 1].(draft := a[i - 1].draft.(details := b[i - 1].draft.details));
    }
    assert FirstOffender(hash, b, k) && r == Report(b, k);
  }

  lemma {:induction false} InRangeSameCovered(rows: seq<Entry>, rows': seq<Entry>, from: int, to: Option<int>)
    requires SameCovered(rows, rows')
    ensures SameCovered(InRange(rows, from, to), InRange(rows', from, to))
  {
    if rows != [] {
      InRangeSameCovered(rows[1..], rows'[1..], from, to);
    }
  }

  /** Any run of consecutive rows of a chain is a chain: cutting either end goes unnoticed. */
  lemma SlicesStayChained(hash: Hash, rows: seq<Entry>, i: nat, j: nat)
    requires Chained(hash, rows) && i <= j <= |rows|
    ensures Chained(hash, rows[i..j])
  {
    forall k | 0 <= k < j - i ensures !Offends(hash, rows[i..j], k) {
      assert !Offends(hash, rows, i + k);
    }
  }
}
