/** Retention and compaction of the audit table (`legacy/v1/scoped/audit/retention.py`). */
module AuditRetention {
  import opened Wrappers
  import opened AuditTampering
  import opened AuditTrail

  /** `cutoff` is the ISO text of "now minus max_age_days" for the clock reading at hand. */
  datatype Policy = Policy(cutoff: Option<string>, maxEntries: Option<nat>, compactBefore: bool, compactAfter: bool)

  datatype RetentionResult = RetentionResult(deleted: nat, compacted: nat)

  /** Timestamps are compared as text. */
  predicate Less(a: string, b: string) {
    if b == [] then false
    else if a == [] then true
    else a[0] < b[0] || (a[0] == b[0] && Less(a[1..], b[1..]))
  }

  /** `a` comes before `b` as soon as it is smaller at the first place where they differ, or ends there. */
  ghost predicate ComesBefore(a: string, b: string) {
    exists k: nat :: k <= |a| && k <= |b| && a[..k] == b[..k] && k < |b| && (k == |a| || a[k] < b[k])
  }

  lemma {:induction false} LessExactly(a: string, b: string)
    ensures Less(a, b) <==> ComesBefore(a, b)
    decreases |a|
  {
    if a == [] && b != [] {
      assert a[..0] == b[..0];
    } else if a != [] && b != [] {
      LessExactly(a[1..], b[1..]);
      if a[0] < b[0] {
        assert a[..0] == b[..0];
      } else if a[0] == b[0] && ComesBefore(a[1..], b[1..]) {
        var k: nat :| k <= |a[1..]| && k <= |b[1..]| && a[1..][..k] == b[1..][..k] && k < |b[1..]| && (k == |a[1..]| || a[1..][k] < b[1..][k]);
        assert a[..k + 1] == [a[0]] + a[1..][..k] && b[..k + 1] == [b[0]] + b[1..][..k];
      }
      if ComesBefore(a, b) && a[0] == b[0] {
        var k: nat :| k <= |a| && k <= |b| && a[..k] == b[..k] && k < |b| && (k == |a| || a[k] < b[k]);
        assert a[1..][..k - 1] == a[..k][1..] && b[1..][..k - 1] == b[..k][1..];
      } else if ComesBefore(a, b) {
        var k: nat :| k <= |a| && k <= |b| && a[..k] == b[..k] && k < |b| && (k == |a| || a[k] < b[k]);
        assert k > 0 ==> a[..k][0] == b[..k][0];
      }
    }
  }

  predicate Expired(e: Entry, cutoff: Option<string>) {
    cutoff.Some? && Less(e.draft.timestamp, cutoff.value)
  }

  function Unexpired(rows: seq<Entry>, cutoff: Option<string>): seq<Entry> {
    if rows == [] then []
    else if Expired(rows[0], cutoff) then Unexpired(rows[1..], cutoff)
    else [rows[0]] + Unexpired(rows[1..], cutoff)
  }

  function Newest(rows: seq<Entry>, limit: Option<nat>): seq<Entry> {
    if limit.Some? && |rows| > limit.value then rows[|rows| - limit.value..] else rows
  }

  function Survivors(rows: seq<Entry>, policy: Policy): seq<Entry> {
    Newest(Unexpired(rows, policy.cutoff), policy.maxEntries)
  }

  predicate HasState(e: Entry, before: bool, after: bool) {
    (before && e.draft.details.before.Some?) || (after && e.draft.details.after.Some?)
  }

  function CompactEntry(e: Entry, before: bool, after: bool): Entry {
    var d := e.draft.details;
    e.(draft := e.draft.(details := Details(d.scopeId, if before then None else d.before, if after then None else d.after,
                                            d.metadata, d.parent)))
  }

  function Compacted(rows: seq<Entry>, below: Option<int>, before: bool, after: bool): seq<Entry> {
    seq(|rows|, i requires 0 <= i < |rows| =>
      if below.Some? && rows[i].sequence >= below.value then rows[i] else CompactEntry(rows[i], before, after))
  }

  function CountStates(rows: seq<Entry>, below: Option<int>, before: bool, after: bool): nat {
    if rows == [] then 0
    else
      var last := rows[|rows| - 1];
      CountStates(rows[..|rows| - 1], below, before, after)
      + (if HasState(last, before, after) && (below.Some? ==> last.sequence < below.value) then 1 else 0)
  }

  // ---------------------------------------------------------------------------------------------
  // What is deleted and what is cleared, row by row
  // ---------------------------------------------------------------------------------------------

  /** Age deletion goes row by row: a row stays unless its timestamp comes before the cutoff. */
  lemma {:induction false} UnexpiredSplits(a: seq<Entry>, e: Entry, b: seq<Entry>, cutoff: Option<string>)
    ensures Unexpired(a + [e] + b, cutoff) ==
      Unexpired(a, cutoff)
      + (if cutoff.Some? && ComesBefore(e.draft.timestamp, cutoff.value) then [] else [e])
      + Unexpired(b, cutoff)
    decreases |a|
  {
    if a == [] {
      assert [] + [e] + b == [e] + b && ([e] + b)[1..] == b;
      if cutoff.Some? {
        LessExactly(e.draft.timestamp, cutoff.value);
      }
    } else {
      UnexpiredSplits(a[1..], e, b, cutoff);
      assert (a + [e] + b)[1..] == a[1..] + [e] + b && (a + [e] + b)[0] == a[0];
    }
  }

  /** The row is within the bound and has a state that is to be cleared. */
  ghost predicate Clears(e: Entry, below: Option<int>, before: bool, after: bool) {
    (below == None || e.sequence < below.value)
    && ((before && e.draft.details.before != None) || (after && e.draft.details.after != None))
  }

  /** Only the chosen states change, and only of rows within the bound. */
  lemma CompactedExactly(rows: seq<Entry>, below: Option<int>, before: bool, after: bool, i: nat)
    requires i < |rows|
    ensures |Compacted(rows, below, before, after)| == |rows|
    ensures var e, e' := rows[i], Compacted(rows, below, before, after)[i];
      var within := below == None || e.sequence < below.value;
      && e'.draft.details.before == (if within && before then None else e.draft.details.before)
      && e'.draft.details.after == (if within && after then None else e.draft.details.after)
      && e' == e.(draft := e.draft.(details := e.draft.details.(before := e'.draft.details.before, after := e'.draft.details.after)))
  {
  }

  /** Every such row counts once. */
  lemma CountStatesGrows(rows: seq<Entry>, e: Entry, below: Option<int>, before: bool, after: bool)
    ensures CountStates([], below, before, after) == 0
    ensures CountStates(rows + [e], below, before, after)
         == CountStates(rows, below, before, after) + if Clears(e, below, before, after) then 1 else 0
  {
    assert (rows + [e])[..|rows|] == rows;
  }

  class Retention {
    var rows: seq<Entry>

    constructor (rows: seq<Entry>)
      ensures this.rows == rows
    {
      this.rows := rows;
    }

    /** The count `estimate` promises: how many rows `Apply` would delete. */
    method Estimate(policy: Policy) returns (count: nat)
      ensures count == |rows| - |Survivors(rows, policy)|
    {
      count := 0;
      if policy.cutoff.Some? {
        for i := 0 to |rows|
          invariant count == i - |Unexpired(rows[..i], policy.cutoff)|
        {
          UnexpiredSnoc(rows[..i], rows[i], policy.cutoff);
          assert rows[..i + 1] == rows[..i] + [rows[i]];
          if Less(rows[i].draft.timestamp, policy.cutoff.value) {
            count := count + 1;
          }
        }
        assert rows[..|rows|] == rows;
      } else {
        NothingExpires(rows);
      }
      UnexpiredShrinks(rows, policy.cutoff);
      if policy.maxEntries.Some? {
        var excess := if |rows| > policy.maxEntries.value then |rows| - policy.maxEntries.value else 0;
        count := if excess > count then excess else count;
      }
    }

    method Compact(below: Option<int>, before: bool, after: bool) returns (affected: nat)
      modifies this
      ensures affected == CountStates(old(rows), below, before, after)
      ensures rows == Compacted(old(rows), below, before, after)
    {
      affected := 0;
      var updated: seq<Entry> := [];
      for i := 0 to |rows|
        invariant rows == old(rows) && |updated| == i
        invariant affected == CountStates(rows[..i], below, before, after)
        invariant forall j | 0 <= j < i :: updated[j] == Compacted(rows, below, before, after)[j]
      {
        var e := rows[i];
        assert rows[..i + 1][..i] == rows[..i];
        if HasState(e, before, after) && (below.Some? ==> e.sequence < below.value) {
          affected := affected + 1;
          updated := updated + [CompactEntry(e, before, after)];
        } else {
          updated := updated + [e];
        }
      }
      assert rows[..|rows|] == rows;
      rows := updated;
    }

    /** `apply`: delete by age, delete all but the newest, then compact what is left. */
    method Apply(policy: Policy) returns (r: RetentionResult)
      requires Ordered(rows)
      modifies this
      ensures r.deleted == |old(rows)| - |Survivors(old(rows), policy)|
      ensures rows == Compacted(Survivors(old(rows), policy), None, policy.compactBefore, policy.compactAfter)
      ensures r.compacted == CountStates(Survivors(old(rows), policy), None, policy.compactBefore, policy.compactAfter)
    {
      var totalBefore := |rows|;
      UnexpiredShrinks(rows, policy.cutoff);
      UnexpiredOrdered(rows, policy.cutoff);
      rows := Unexpired(rows, policy.cutoff);
      if policy.maxEntries.Some? {
        DeleteOldest(policy.maxEntries.value);
      }
      var compacted := 0;
      if policy.compactBefore || policy.compactAfter {
        compacted := Compact(None, policy.compactBefore, policy.compactAfter);
      } else {
        NothingToCompact(rows);
      }
      return RetentionResult(totalBefore - |rows|, compacted);
    }

    /** The row at offset `limit` from the newest is the last one to go. */
    method DeleteOldest(limit: nat)
      requires Ordered(rows)
      modifies this
      ensures rows == Newest(old(rows), Some(limit))
    {
      if |rows| > limit {
        var cutoffSequence := rows[|rows| - 1 - limit].sequence;
        var kept := KeepAfter(cutoffSequence);
        AfterSequenceIsNewest(rows, |rows| - 1 - limit, kept);
        rows := kept;
      }
    }

    /** `DELETE ... WHERE sequence <= cutoff`, seen as what stays. */
    method KeepAfter(cutoffSequence: int) returns (kept: seq<Entry>)
      ensures kept == InRange(rows, cutoffSequence + 1, None)
    {
      kept := [];
      for i := 0 to |rows|
        invariant kept == InRange(rows[..i], cutoffSequence + 1, None)
      {
        InRangeSnoc(rows[..i], rows[i], cutoffSequence + 1);
        assert rows[..i + 1] == rows[..i] + [rows[i]];
        if !(rows[i].sequence <= cutoffSequence) {
          kept := kept + [rows[i]];
        }
      }
      assert rows[..|rows|] == rows;
    }
  }

  lemma {:induction false} UnexpiredSnoc(rows: seq<Entry>, e: Entry, cutoff: Option<string>)
    ensures Unexpired(rows + [e], cutoff) == Unexpired(rows, cutoff) + if Expired(e, cutoff) then [] else [e]
    decreases |rows|
  {
    if rows == [] {
      assert [] + [e] == [e] && [e][1..] == [];
    } else {
      assert (rows + [e])[1..] == rows[1..] + [e];
      UnexpiredSnoc(rows[1..], e, cutoff);
    }
  }

  lemma {:induction false} InRangeSnoc(rows: seq<Entry>, e: Entry, from: int)
    ensures InRange(rows + [e], from, None) == InRange(rows, from, None) + if from <= e.sequence then [e] else []
    decreases |rows|
  {
    if rows == [] {
      assert [] + [e] == [e] && [e][1..] == [];
    } else {
      assert (rows + [e])[1..] == rows[1..] + [e];
      InRangeSnoc(rows[1..], e, from);
    }
  }

  lemma {:induction false} NothingExpires(rows: seq<Entry>)
    ensures Unexpired(rows, None) == rows
  {
    if rows != [] {
      NothingExpires(rows[1..]);
    }
  }

  lemma {:induction false} NothingToCompact(rows: seq<Entry>)
    ensures Compacted(rows, None, false, false) == rows && CountStates(rows, None, false, false) == 0
  {
    if rows != [] {
      NothingToCompact(rows[..|rows| - 1]);
    }
  }

  lemma {:induction false} UnexpiredShrinks(rows: seq<Entry>, cutoff: Option<string>)
    ensures |Unexpired(rows, cutoff)| <= |rows|
    ensures forall e :: e in Unexpired(rows, cutoff) ==> e in rows
  {
    if rows != [] {
      UnexpiredShrinks(rows[1..], cutoff);
    }
  }

  lemma {:induction false} UnexpiredOrdered(rows: seq<Entry>, cutoff: Option<string>)
    requires Ordered(rows)
    ensures Ordered(Unexpired(rows, cutoff))
  {
    if rows != [] {
      OrderedTail(rows);
      UnexpiredOrdered(rows[1..], cutoff);
      UnexpiredShrinks(rows[1..], cutoff);
    }
  }

  /** Keeping what lies above the sequence of row `k` keeps the rows after it. */
  lemma {:induction false} AfterSequenceIsNewest(rows: seq<Entry>, k: nat, kept: seq<Entry>)
    requires Ordered(rows) && k < |rows| && kept == InRange(rows, rows[k].sequence + 1, None)
    ensures kept == rows[k + 1..]
  {
    AllInRange(rows, rows[0].sequence);
    ContinueAfter(rows, rows, rows[0].sequence, None, k + 1, rows[k].sequence + 1);
  }

  lemma {:induction false} AllInRange(rows: seq<Entry>, from: int)
    requires forall e :: e in rows ==> from <= e.sequence
    ensures InRange(rows, from, None) == rows
  {
    if rows != [] {
      assert rows[0] in rows;
      AllInRange(rows[1..], from);
    }
  }

  // ---------------------------------------------------------------------------------------------
  // Retention and verification
  // ---------------------------------------------------------------------------------------------

  /** No row goes from between two rows that stay. */
  ghost predicate NoGap(rows: seq<Entry>, cutoff: Option<string>) {
    forall i, j, k | 0 <= i < j < k < |rows| :: !Expired(rows[i], cutoff) && !Expired(rows[k], cutoff) ==> !Expired(rows[j], cutoff)
  }

  ghost predicate DistinctHashes(rows: seq<Entry>) {
    forall i, j | 0 <= i < j < |rows| :: rows[i].hash != rows[j].hash
  }

  /** The rows that stay are exactly those from `i` up to `j`. */
  ghost predicate KeptBetween(rows: seq<Entry>, cutoff: Option<string>, i: nat, j: nat) {
    i <= j <= |rows| && forall k | 0 <= k < |rows| :: !Expired(rows[k], cutoff) <==> i <= k < j
  }

  lemma NoGapKeepsInterval(rows: seq<Entry>, cutoff: Option<string>) returns (i: nat, j: nat)
    requires NoGap(rows, cutoff)
    ensures KeptBetween(rows, cutoff, i, j)
  {
    i, j := 0, |rows|;
    while i < |rows| && Expired(rows[i], cutoff)
      invariant i <= |rows| && forall k | 0 <= k < i :: Expired(rows[k], cutoff)
    {
      i := i + 1;
    }
    while j > i && Expired(rows[j - 1], cutoff)
      invariant i <= j <= |rows| && forall k | j <= k < |rows| :: Expired(rows[k], cutoff)
    {
      j := j - 1;
    }
  }

  lemma {:induction false} IntervalIsSlice(rows: seq<Entry>, cutoff: Option<string>, i: nat, j: nat)
    requires KeptBetween(rows, cutoff, i, j)
    ensures Unexpired(rows, cutoff) == rows[i..j]
    decreases |rows|
  {
    if rows != [] {
      var tail := rows[1..];
      assert forall k | 0 <= k < |tail| :: tail[k] == rows[k + 1];
      if i == 0 && j > 0 {
        IntervalIsSlice(tail, cutoff, 0, j - 1);
        assert [rows[0]] + tail[0..j - 1] == rows[0..j];
      } else {
        var i', j' := if i == 0 then 0 else i - 1, if j == 0 then 0 else j - 1;
        IntervalIsSlice(tail, cutoff, i', j');
        assert tail[i'..j'] == rows[i..j];
      }
    }
  }

  /** Deletion by age leaves a chain that verifies if and only if it leaves no gap. */
  lemma AgeDeletionVerifiesIffNoGap(hash: Hash, rows: seq<Entry>, cutoff: Option<string>)
    requires Chained(hash, rows) && DistinctHashes(rows)
    ensures Chained(hash, Unexpired(rows, cutoff)) <==> NoGap(rows, cutoff)
  {
    if NoGap(rows, cutoff) {
      var i, j := NoGapKeepsInterval(rows, cutoff);
      IntervalIsSlice(rows, cutoff, i, j);
      SlicesStayChained(hash, rows, i, j);
    }
    if Chained(hash, Unexpired(rows, cutoff)) {
      ChainedLeavesNoGap(hash, rows, cutoff);
    }
  }

  lemma {:induction false} ChainedLeavesNoGap(hash: Hash, rows: seq<Entry>, cutoff: Option<string>)
    requires Chained(hash, rows) && DistinctHashes(rows) && Chained(hash, Unexpired(rows, cutoff))
    ensures NoGap(rows, cutoff)
    decreases |rows|
  {
    if rows != [] {
      var tail := rows[1..];
      var kept := Unexpired(rows, cutoff);
      var later := Unexpired(tail, cutoff);
      assert forall k | 0 <= k < |tail| :: tail[k] == rows[k + 1];
      SlicesStayChained(hash, rows, 1, |rows|);
      assert tail == rows[1..|rows|];
      SlicesStayChained(hash, kept, |kept| - |later|, |kept|);
      assert later == kept[|kept| - |later|..|kept|];
      ChainedLeavesNoGap(hash, tail, cutoff);
      if !Expired(rows[0], cutoff) {
        var i, j := NoGapKeepsInterval(tail, cutoff);
        IntervalIsSlice(tail, cutoff, i, j);
        if i < j {
          FirstKeptFollows(hash, rows, kept, i);
        }
      }
      assert forall k | 0 < k < |rows| :: rows[k] == tail[k - 1];
    }
  }

  /** The first later row that stays still names its own predecessor, so that is the row kept before it. */
  lemma FirstKeptFollows(hash: Hash, rows: seq<Entry>, kept: seq<Entry>, i: nat)
    requires Chained(hash, rows) && Chained(hash, kept) && DistinctHashes(rows)
    requires i + 1 < |rows| && |kept| > 1 && kept[0] == rows[0] && kept[1] == rows[i + 1]
    ensures i == 0
  {
    assert !Offends(hash, kept, 1) && !Offends(hash, rows, i + 1);
    assert rows[i].hash == rows[0].hash;
  }

  lemma {:induction false} LessThroughCutoff(x: string, y: string, c: string)
    requires Less(x, c) && !Less(y, c)
    ensures Less(x, y)
  {
    if x != [] && y != [] && x[0] == y[0] == c[0] {
      LessThroughCutoff(x[1..], y[1..], c[1..]);
    }
  }

  /** Timestamps that never decrease along the sequence leave no gap, whatever the cutoff. */
  lemma MonotoneTimesLeaveNoGap(rows: seq<Entry>, cutoff: Option<string>)
    requires forall i, j | 0 <= i < j < |rows| :: !Less(rows[j].draft.timestamp, rows[i].draft.timestamp)
    ensures NoGap(rows, cutoff)
  {
    forall i, j, k | 0 <= i < j < k < |rows| && !Expired(rows[i], cutoff) && !Expired(rows[k], cutoff)
      ensures !Expired(rows[j], cutoff)
    {
      if cutoff.Some? && Less(rows[j].draft.timestamp, cutoff.value) {
        LessThroughCutoff(rows[j].draft.timestamp, rows[i].draft.timestamp, cutoff.value);
      }
    }
  }

  /** Then the rows age deletion keeps are the newest ones: a suffix of the trail. */
  lemma MonotoneTimesLeaveSuffix(rows: seq<Entry>, cutoff: Option<string>) returns (i: nat)
    requires forall i, j | 0 <= i < j < |rows| :: !Less(rows[j].draft.timestamp, rows[i].draft.timestamp)
    ensures i <= |rows| && Unexpired(rows, cutoff) == rows[i..]
  {
    i := 0;
    while i < |rows| && Expired(rows[i], cutoff)
      invariant i <= |rows| && forall j | 0 <= j < i :: Expired(rows[j], cutoff)
    {
      i := i + 1;
    }
    forall j | i < j < |rows| ensures !Expired(rows[j], cutoff) {
      if cutoff.Some? && Less(rows[j].draft.timestamp, cutoff.value) {
        LessThroughCutoff(rows[j].draft.timestamp, rows[i].draft.timestamp, cutoff.value);
      }
    }
    IntervalIsSlice(rows, cutoff, i, |rows|);
    assert rows[i..|rows|] == rows[i..];
  }

  /** With a collision-free digest and no "|" in the text columns, rows of a chain have distinct hashes. */
  lemma ChainHashesDistinct(algorithm: Algorithm, rows: seq<Entry>)
    requires CollisionFree(algorithm) && Ordered(rows) && Chained(ComputeHash(algorithm), rows)
    requires forall e :: e in rows ==> '|' !in e.draft.id && PipeFree(e.draft)
    ensures DistinctHashes(rows)
  {
    forall i, j | 0 <= i < j < |rows| ensures rows[i].hash != rows[j].hash {
      assert !Offends(ComputeHash(algorithm), rows, i) && !Offends(ComputeHash(algorithm), rows, j);
      if rows[i].hash == rows[j].hash {
        assert rows[i] in rows && rows[j] in rows;
        BarFreePairDetermines(rows[i].sequence, rows[i].draft, rows[i].previousHash, rows[j].sequence, rows[j].draft, rows[j].previousHash);
      }
    }
  }

  /** Compaction never changes the result of any verification. */
  lemma CompactionUnseen(algorithm: Algorithm, rows: seq<Entry>, below: Option<int>, before: bool, after: bool,
                         from: int, to: Option<int>, r: ChainVerification)
    requires PlainScan(ComputeHash(algorithm), InRange(rows, from, to), r)
    ensures PlainScan(ComputeHash(algorithm), InRange(Compacted(rows, below, before, after), from, to), r)
  {
    UncoveredEditsUnseen(algorithm, rows, Compacted(rows, below, before, after), from, to, r);
  }

  /** A verifying table still verifies after any retention policy that leaves no gap by age. */
  lemma RetentionKeepsChain(algorithm: Algorithm, rows: seq<Entry>, policy: Policy)
    requires Chained(ComputeHash(algorithm), rows) && NoGap(rows, policy.cutoff)
    ensures Chained(ComputeHash(algorithm), Compacted(Survivors(rows, policy), None, policy.compactBefore, policy.compactAfter))
  {
    var hash := ComputeHash(algorithm);
    var i, j := NoGapKeepsInterval(rows, policy.cutoff);
    IntervalIsSlice(rows, policy.cutoff, i, j);
    SlicesStayChained(hash, rows, i, j);
    var young := Unexpired(rows, policy.cutoff);
    var kept := Survivors(rows, policy);
    SlicesStayChained(hash, young, |young| - |kept|, |young|);
    assert kept == young[|young| - |kept|..|young|];
    var compacted := Compacted(kept, None, policy.compactBefore, policy.compactAfter);
    forall k | 0 <= k < |compacted| ensures !Offends(hash, compacted, k) {
      HashIgnoresDetails(algorithm, kept[k].sequence, kept[k].draft, compacted[k].draft.details, kept[k].previousHash);
      assert compacted[k].draft == kept[k].draft.(details := compacted[k].draft.details);
      assert !Offends(hash, kept, k);
    }
  }
}
