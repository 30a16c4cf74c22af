/**
 Several processes appending to one audit table (`legacy/v1/scoped/audit/writer.py`).

 Each writer remembers a sequence number and a hash.  The only protection between processes is the
 unique index on `sequence`; an insert that hits it is rolled back and retried after reseeding.
 */
module AuditWriters {
  import opened Wrappers
  import opened AuditTrail

  const MAX_SEQUENCE_RETRIES := 3

  /** Entries 1..n, each rehashing and naming its predecessor's hash. */
  ghost predicate WholeChain(hash: Hash, log: seq<Entry>) {
    forall i | 0 <= i < |log| :: Placed(hash, log, i)
  }

  ghost predicate Placed(hash: Hash, log: seq<Entry>, i: nat)
    requires i < |log|
  {
    && log[i].sequence == i + 1
    && log[i].previousHash == HashAt(log, i)
    && Rehashes(hash, log[i])
  }

  /** The hash of entry `n`, "" before the first. */
  function HashAt(log: seq<Entry>, n: nat): string
    requires n <= |log|
  {
    if n == 0 then "" else log[n - 1].hash
  }

  function Link(hash: Hash, n: int, previousHash: string, d: Draft): Entry {
    Entry(n, d, previousHash, hash(n, d, previousHash))
  }

  function TailHash(batch: seq<Entry>, lastHash: string): string {
    if batch == [] then lastHash else batch[|batch| - 1].hash
  }

  /** The entries a writer builds from what it remembers: the loop of `record_batch`, and `record`
      for a single draft. */
  function Build(hash: Hash, sequence: int, lastHash: string, drafts: seq<Draft>): (batch: seq<Entry>)
    ensures |batch| == |drafts|
    decreases |drafts|
  {
    if drafts == [] then []
    else
      var init := Build(hash, sequence, lastHash, drafts[..|drafts| - 1]);
      init + [Link(hash, sequence + |drafts|, TailHash(init, lastHash), drafts[|drafts| - 1])]
  }

  /** A batch is numbered on from the remembered sequence. */
  lemma {:induction false} BuildNumbers(hash: Hash, sequence: int, lastHash: string, drafts: seq<Draft>)
    ensures forall j | 0 <= j < |drafts| :: Build(hash, sequence, lastHash, drafts)[j].sequence == sequence + j + 1
    decreases |drafts|
  {
    if drafts != [] {
      BuildNumbers(hash, sequence, lastHash, drafts[..|drafts| - 1]);
    }
  }

  /** The unique index: an insert fails if any of its sequence numbers is taken. */
  predicate Collides(rows: seq<Entry>, batch: seq<Entry>) {
    exists r, b :: r in rows && b in batch && r.sequence == b.sequence
  }

  /** Entries built on the end of a whole chain extend it. */
  lemma {:induction false} BuildExtends(hash: Hash, log: seq<Entry>, drafts: seq<Draft>)
    requires WholeChain(hash, log)
    ensures WholeChain(hash, log + Build(hash, |log|, HashAt(log, |log|), drafts))
    decreases |drafts|
  {
    if drafts == [] {
      assert log + [] == log;
    } else {
      var init := Build(hash, |log|, HashAt(log, |log|), drafts[..|drafts| - 1]);
      var e := Link(hash, |log| + |drafts|, TailHash(init, HashAt(log, |log|)), drafts[|drafts| - 1]);
      BuildExtends(hash, log, drafts[..|drafts| - 1]);
      var chain := log + init;
      var longer := chain + [e];
      forall i | 0 <= i < |longer| ensures Placed(hash, longer, i) {
        assert i < |chain| ==> Placed(hash, chain, i);
      }
      assert longer == log + (init + [e]);
    }
  }

  // ---------------------------------------------------------------------------------------------
  // Every interleaving
  // ---------------------------------------------------------------------------------------------

  /** A writer is idle, or has built a batch it has not yet committed. */
  datatype Writer = Writer(sequence: int, lastHash: string, batch: Option<seq<Entry>>)

  /** `pruned` is what retention has already removed from the front of the table. */
  datatype System = System(pruned: seq<Entry>, table: seq<Entry>, writers: seq<Writer>)

  datatype Step =
    | Open                                    // another process creates its writer
    | Prepare(w: nat, drafts: seq<Draft>)     // reseed if stale, then build from memory
    | CommitBatch(w: nat)                     // insert all, or roll back on a taken sequence
    | Abort(w: nat)                           // any other failure of the transaction
    | Prune(count: nat)                       // retention deletes the oldest rows

  /** `_seed_chain`: the row with the highest sequence. */
  function Latest(rows: seq<Entry>): (int, string) {
    if rows == [] then (0, "")
    else
      var rest := Latest(rows[..|rows| - 1]);
      var last := rows[|rows| - 1];
      if |rows| == 1 || last.sequence > rest.0 then (last.sequence, last.hash) else rest
  }

  /** `w` holds prepared entries, and all their numbers are at most `n`. */
  predicate Overtaken(w: Writer, n: int) {
    w.batch.Some? && w.batch.value != [] && w.sequence + |w.batch.value| <= n
  }

  /** Retention must leave the newest row, and of every prepared batch at least one number it has
      not deleted.  `SafePruneExactly` shows that this is exactly what the chain needs. */
  predicate SafePrune(s: System, count: nat) {
    && count <= |s.table| && (count == |s.table| ==> count == 0)
    && forall w :: w in s.writers ==> !Overtaken(w, |s.pruned| + count)
  }

  function Pruned(s: System, count: nat): System
    requires count <= |s.table|
  {
    System(s.pruned + s.table[..count], s.table[count..], s.writers)
  }

  predicate Enabled(s: System, step: Step) {
    match step
    case Open => true
    case Prepare(w, _) => w < |s.writers| && s.writers[w].batch.None?
    case CommitBatch(w) => w < |s.writers| && s.writers[w].batch.Some?
    case Abort(w) => w < |s.writers| && s.writers[w].batch.Some?
    case Prune(count) => SafePrune(s, count)
  }

  function Next(hash: Hash, s: System, step: Step): System
    requires Enabled(s, step)
  {
    match step
    case Open => s.(writers := s.writers + [Writer(Latest(s.table).0, Latest(s.table).1, None)])
    case Prepare(w, drafts) =>
      var me := s.writers[w];
      var seed := Latest(s.table);
      var (sequence, lastHash) := if seed.0 > me.sequence then seed else (me.sequence, me.lastHash);
      s.(writers := s.writers[w := Writer(sequence, lastHash, Some(Build(hash, sequence, lastHash, drafts)))])
    case CommitBatch(w) =>
      var me := s.writers[w];
      var batch := me.batch.value;
      if Collides(s.table, batch) || batch == [] then s.(writers := s.writers[w := me.(batch := None)])
      else
        var last := batch[|batch| - 1];
        System(s.pruned, s.table + batch, s.writers[w := Writer(last.sequence, last.hash, None)])
    case Abort(w) => s.(writers := s.writers[w := s.writers[w].(batch := None)])
    case Prune(count) => Pruned(s, count)
  }

  /** The remembered pair names an entry of the log, or is the initial (0, ""). */
  ghost predicate Remembers(log: seq<Entry>, sequence: int, lastHash: string) {
    0 <= sequence <= |log| && lastHash == HashAt(log, sequence)
  }

  function Log(s: System): seq<Entry> {
    s.pruned + s.table
  }

  /** A prepared batch continues the remembered pair, and not all its numbers have been pruned. */
  ghost predicate WriterOk(hash: Hash, s: System, w: Writer) {
    && Remembers(Log(s), w.sequence, w.lastHash)
    && (w.batch.Some? ==>
          && !Overtaken(w, |s.pruned|)
          && exists drafts :: w.batch.value == Build(hash, w.sequence, w.lastHash, drafts))
  }

  ghost predicate SystemOk(hash: Hash, s: System) {
    && WholeChain(hash, Log(s))
    && (s.table == [] ==> s.pruned == [])
    && forall i | 0 <= i < |s.writers| :: WriterOk(hash, s, s.writers[i])
  }

  lemma TableRows(hash: Hash, s: System)
    requires SystemOk(hash, s)
    ensures forall i | 0 <= i < |s.table| :: s.table[i].sequence == |s.pruned| + i + 1
    ensures forall r :: r in s.table ==> r.sequence > 0
  {
    forall i | 0 <= i < |s.table| ensures s.table[i].sequence == |s.pruned| + i + 1 {
      assert Placed(hash, Log(s), |s.pruned| + i);
    }
  }

  lemma {:induction false} LatestIsLast(rows: seq<Entry>, base: nat)
    requires rows != [] && forall i | 0 <= i < |rows| :: rows[i].sequence == base + i + 1
    ensures Latest(rows) == (rows[|rows| - 1].sequence, rows[|rows| - 1].hash)
    decreases |rows|
  {
    if |rows| > 1 {
      LatestIsLast(rows[..|rows| - 1], base);
    }
  }

  /** Reseeding moves a stale memory to the newest row and leaves a current one alone. */
  lemma SeedIsNewest(hash: Hash, s: System)
    requires SystemOk(hash, s)
    ensures Latest(s.table) == (|Log(s)|, HashAt(Log(s), |Log(s)|))
  {
    TableRows(hash, s);
    if s.table != [] {
      LatestIsLast(s.table, |s.pruned|);
    }
  }

  /** Appending to the log, or moving its front into `pruned`, keeps what other writers remember. */
  lemma MemoriesSurvive(hash: Hash, s: System, s': System, w: Writer)
    requires WriterOk(hash, s, w) && Log(s) <= Log(s')
    requires !Overtaken(w, |s'.pruned|)
    ensures WriterOk(hash, s', w)
  {
    assert w.sequence > 0 ==> Log(s')[w.sequence - 1] == Log(s)[w.sequence - 1];
    if w.batch.Some? {
      var drafts :| w.batch.value == Build(hash, w.sequence, w.lastHash, drafts);
    }
  }

  /** A batch built on an entry that is no longer the newest always hits the unique index. */
  lemma StaleBatchCollides(hash: Hash, s: System, w: Writer)
    requires SystemOk(hash, s) && WriterOk(hash, s, w) && w.batch.Some? && w.batch.value != []
    requires w.sequence < |Log(s)|
    ensures Collides(s.table, w.batch.value)
  {
    TableRows(hash, s);
    var drafts :| w.batch.value == Build(hash, w.sequence, w.lastHash, drafts);
    BuildNumbers(hash, w.sequence, w.lastHash, drafts);
    var taken := (if w.sequence < |s.pruned| then |s.pruned| else w.sequence) + 1;
    var r, b := s.table[taken - |s.pruned| - 1], w.batch.value[taken - w.sequence - 1];
    assert r in s.table && b in w.batch.value && r.sequence == b.sequence;
  }

  lemma LastOfChain(hash: Hash, log: seq<Entry>, batch: seq<Entry>)
    requires WholeChain(hash, log + batch) && batch != []
    ensures Remembers(log + batch, batch[|batch| - 1].sequence, batch[|batch| - 1].hash)
  {
    var last := |log + batch| - 1;
    assert Placed(hash, log + batch, last) && (log + batch)[last] == batch[|batch| - 1];
  }

  lemma BuildOne(hash: Hash, sequence: int, lastHash: string, d: Draft)
    ensures Build(hash, sequence, lastHash, [d]) == [Link(hash, sequence + 1, lastHash, d)]
  {
    assert Build(hash, sequence, lastHash, [d][..0]) == [];
  }

  /** Writer `w` changes and the others do not: it is enough that `w` is well afterwards. */
  lemma OthersKeepOk(hash: Hash, s: System, s': System, w: nat)
    requires SystemOk(hash, s) && w < |s.writers| == |s'.writers|
    requires WholeChain(hash, Log(s')) && Log(s) <= Log(s') && s'.pruned == s.pruned && (s'.table == [] ==> s'.pruned == [])
    requires forall i | 0 <= i < |s.writers| && i != w :: s'.writers[i] == s.writers[i]
    requires WriterOk(hash, s', s'.writers[w])
    ensures SystemOk(hash, s')
  {
    forall i | 0 <= i < |s'.writers| ensures WriterOk(hash, s', s'.writers[i]) {
      if i != w {
        assert WriterOk(hash, s, s.writers[i]);
        MemoriesSurvive(hash, s, s', s.writers[i]);
      }
    }
  }

  lemma FreshBatchExtends(hash: Hash, s: System, w: Writer)
    requires SystemOk(hash, s) && WriterOk(hash, s, w) && w.batch.Some? && w.batch.value != []
    requires !Collides(s.table, w.batch.value)
    ensures var batch := w.batch.value; var log := Log(s) + batch;
      WholeChain(hash, log) && Remembers(log, batch[|batch| - 1].sequence, batch[|batch| - 1].hash)
  {
    if w.sequence < |Log(s)| {
      StaleBatchCollides(hash, s, w);
    } else {
      var drafts :| w.batch.value == Build(hash, w.sequence, w.lastHash, drafts);
      BuildExtends(hash, Log(s), drafts);
      LastOfChain(hash, Log(s), w.batch.value);
    }
  }

  lemma AppendToLog(hash: Hash, s: System, w: nat, batch: seq<Entry>)
    requires SystemOk(hash, s) && w < |s.writers| && s.writers[w].batch == Some(batch)
    requires batch != [] && !Collides(s.table, batch)
    ensures var last := batch[|batch| - 1];
      SystemOk(hash, System(s.pruned, s.table + batch, s.writers[w := Writer(last.sequence, last.hash, None)]))
  {
    var last := batch[|batch| - 1];
    var s' := System(s.pruned, s.table + batch, s.writers[w := Writer(last.sequence, last.hash, None)]);
    assert WriterOk(hash, s, s.writers[w]);
    FreshBatchExtends(hash, s, s.writers[w]);
    assert Log(s') == Log(s) + batch;
    OthersKeepOk(hash, s, s', w);
  }

  lemma AppendKeepsOk(hash: Hash, s: System, w: nat)
    requires SystemOk(hash, s) && Enabled(s, CommitBatch(w))
    requires s.writers[w].batch.value != [] && !Collides(s.table, s.writers[w].batch.value)
    ensures SystemOk(hash, Next(hash, s, CommitBatch(w)))
  {
    AppendToLog(hash, s, w, s.writers[w].batch.value);
  }

  lemma CommitKeepsOk(hash: Hash, s: System, w: nat)
    requires SystemOk(hash, s) && Enabled(s, CommitBatch(w))
    ensures SystemOk(hash, Next(hash, s, CommitBatch(w)))
    ensures Log(s) <= Log(Next(hash, s, CommitBatch(w)))
  {
    var me := s.writers[w];
    var batch := me.batch.value;
    if Collides(s.table, batch) || batch == [] {
      assert WriterOk(hash, s, me);
      OthersKeepOk(hash, s, Next(hash, s, CommitBatch(w)), w);
    } else {
      AppendKeepsOk(hash, s, w);
      assert Log(Next(hash, s, CommitBatch(w))) == Log(s) + batch;
    }
  }

  lemma PrepareKeepsOk(hash: Hash, s: System, w: nat, drafts: seq<Draft>)
    requires SystemOk(hash, s) && Enabled(s, Prepare(w, drafts))
    ensures SystemOk(hash, Next(hash, s, Prepare(w, drafts)))
  {
    var s' := Next(hash, s, Prepare(w, drafts));
    SeedIsNewest(hash, s);
    assert WriterOk(hash, s, s.writers[w]);
    assert s'.writers[w].batch.value == Build(hash, s'.writers[w].sequence, s'.writers[w].lastHash, drafts);
    OthersKeepOk(hash, s, s', w);
  }

  /** Every step keeps the invariant, and the log only ever grows at its end. */
  lemma StepKeepsOk(hash: Hash, s: System, step: Step)
    requires SystemOk(hash, s) && Enabled(s, step)
    ensures SystemOk(hash, Next(hash, s, step))
    ensures Log(s) <= Log(Next(hash, s, step))
  {
    var s' := Next(hash, s, step);
    match step
    case Open =>
      SeedIsNewest(hash, s);
      forall i | 0 <= i < |s'.writers| ensures WriterOk(hash, s', s'.writers[i]) {
        if i < |s.writers| { MemoriesSurvive(hash, s, s', s.writers[i]); }
      }
    case Prepare(w, drafts) => PrepareKeepsOk(hash, s, w, drafts);
    case CommitBatch(w) => CommitKeepsOk(hash, s, w);
    case Abort(w) =>
      assert WriterOk(hash, s, s.writers[w]);
      OthersKeepOk(hash, s, s', w);
    case Prune(count) =>
      assert Log(s') == Log(s);
      forall i | 0 <= i < |s'.writers| ensures WriterOk(hash, s', s'.writers[i]) {
        assert s.writers[i] in s.writers;
        MemoriesSurvive(hash, s, s', s.writers[i]);
      }
  }

  /** `steps` are each enabled in turn and lead from `s` to `s'`. */
  ghost predicate Leads(hash: Hash, s: System, steps: seq<Step>, s': System)
    decreases |steps|
  {
    if steps == [] then s == s'
    else Enabled(s, steps[0]) && Leads(hash, Next(hash, s, steps[0]), steps[1..], s')
  }

  const EMPTY_SYSTEM := System([], [], [])

  /** The invariant holds after any run, and what was committed keeps its place for ever: it can be
      pruned, never renumbered or rewritten. */
  lemma {:induction false} RunKeepsOk(hash: Hash, s: System, steps: seq<Step>, s': System)
    requires SystemOk(hash, s) && Leads(hash, s, steps, s')
    ensures SystemOk(hash, s') && Log(s) <= Log(s')
    decreases |steps|
  {
    if steps != [] {
      StepKeepsOk(hash, s, steps[0]);
      RunKeepsOk(hash, Next(hash, s, steps[0]), steps[1..], s');
    }
  }

  /** From an empty table, however the writers interleave: the table holds consecutive sequence
      numbers ending at n with all of 1..n ever logged, every row rehashes and links to its
      predecessor, and each writer remembers a logged entry or (0, ""). */
  lemma EveryInterleavingChains(hash: Hash, steps: seq<Step>, s: System)
    requires Leads(hash, EMPTY_SYSTEM, steps, s)
    ensures WholeChain(hash, Log(s))
    ensures forall j | 0 <= j < |s.table| :: s.table[j].sequence == |s.pruned| + j + 1
    ensures Chained(hash, s.table) && Ordered(s.table)
    ensures forall i | 0 <= i < |s.writers| :: Remembers(Log(s), s.writers[i].sequence, s.writers[i].lastHash)
  {
    RunKeepsOk(hash, EMPTY_SYSTEM, steps, s);
    TableChains(hash, s);
    forall i | 0 <= i < |s.writers| ensures Remembers(Log(s), s.writers[i].sequence, s.writers[i].lastHash) {
      assert WriterOk(hash, s, s.writers[i]);
    }
  }

  lemma TableChains(hash: Hash, s: System)
    requires SystemOk(hash, s)
    ensures forall j | 0 <= j < |s.table| :: s.table[j].sequence == |s.pruned| + j + 1
    ensures Chained(hash, s.table) && Ordered(s.table)
  {
    TableRows(hash, s);
    forall j | 0 <= j < |s.table| ensures !Offends(hash, s.table, j) {
      assert Placed(hash, Log(s), |s.pruned| + j);
      assert j > 0 ==> Log(s)[|s.pruned| + j - 1] == s.table[j - 1];
    }
  }

  /** Whatever the processes do next, everything ever logged stays one chain. */
  ghost predicate ChainsForEver(hash: Hash, s: System) {
    forall steps, s' :: Leads(hash, s, steps, s') ==> WholeChain(hash, Log(s'))
  }

  /** Deleting the oldest `count` rows is harmless exactly under `SafePrune`, in every state the
      processes can reach. */
  lemma SafePruneExactly(hash: Hash, s: System, count: nat)
    requires SystemOk(hash, s) && count <= |s.table|
    ensures SafePrune(s, count) <==> ChainsForEver(hash, Pruned(s, count))
  {
    if SafePrune(s, count) {
      StepKeepsOk(hash, s, Prune(count));
      forall steps, s' | Leads(hash, Pruned(s, count), steps, s') ensures WholeChain(hash, Log(s')) {
        RunKeepsOk(hash, Pruned(s, count), steps, s');
      }
    } else if count == |s.table| {
      var d: Draft :| true;
      var steps, s' := EmptyingRestarts(hash, s, d);
    } else {
      var i :| 0 <= i < |s.writers| && Overtaken(s.writers[i], |s.pruned| + count);
      OvertakenBatchFallsBehind(hash, s, count, i);
      assert Leads(hash, Next(hash, Pruned(s, count), CommitBatch(i)), [], Next(hash, Pruned(s, count), CommitBatch(i)));
      assert Leads(hash, Pruned(s, count), [CommitBatch(i)], Next(hash, Pruned(s, count), CommitBatch(i)));
    }
  }

  /** A batch that retention has overtaken entirely meets no taken number: its low numbers go in
      behind the newest row. */
  lemma OvertakenBatchFallsBehind(hash: Hash, s: System, count: nat, w: nat)
    requires SystemOk(hash, s) && count < |s.table|
    requires w < |s.writers| && Overtaken(s.writers[w], |s.pruned| + count)
    ensures var s' := Next(hash, Pruned(s, count), CommitBatch(w));
      && s'.table == s.table[count..] + s.writers[w].batch.value
      && !Ordered(s'.table) && !WholeChain(hash, Log(s'))
  {
    var me, p := s.writers[w], Pruned(s, count);
    var batch := me.batch.value;
    assert WriterOk(hash, s, me);
    var drafts :| batch == Build(hash, me.sequence, me.lastHash, drafts);
    BuildNumbers(hash, me.sequence, me.lastHash, drafts);
    TableRows(hash, s);
    assert forall r :: r in p.table ==> r.sequence > |s.pruned| + count;
    var s' := Next(hash, p, CommitBatch(w));
    var k := |p.table|;
    assert s'.table[k - 1].sequence > s'.table[k].sequence;
    var n := |Log(p)|;
    assert Log(s')[n] == batch[0] && batch[0].sequence != n + 1;
    assert !Placed(hash, Log(s'), n);
  }

  /** On an emptied table the next process to write reads no row and gives out number 1 again. */
  lemma EmptyingRestarts(hash: Hash, s: System, d: Draft) returns (steps: seq<Step>, s': System)
    requires SystemOk(hash, s) && s.table != []
    ensures steps == [Open, Prepare(|s.writers|, [d]), CommitBatch(|s.writers|)]
    ensures Leads(hash, Pruned(s, |s.table|), steps, s')
    ensures Log(s') == Log(s) + [Link(hash, 1, "", d)] && Log(s)[0].sequence == 1
    ensures !WholeChain(hash, Log(s'))
  {
    var p, w, e := Pruned(s, |s.table|), |s.writers|, Link(hash, 1, "", d);
    steps := [Open, Prepare(w, [d]), CommitBatch(w)];
    BuildOne(hash, 0, "", d);
    var joined := System(p.pruned, [], s.writers + [Writer(0, "", None)]);
    var prepared := System(p.pruned, [], s.writers + [Writer(0, "", Some([e]))]);
    s' := System(p.pruned, [e], s.writers + [Writer(1, e.hash, None)]);
    assert Next(hash, p, Open) == joined;
    assert Next(hash, joined, Prepare(w, [d])) == prepared;
    assert Next(hash, prepared, CommitBatch(w)) == s';
    assert Leads(hash, prepared, [CommitBatch(w)], s');
    assert steps[1..] == [Prepare(w, [d]), CommitBatch(w)] && steps[1..][1..] == [CommitBatch(w)];
    assert p.pruned == Log(s) && Log(s') == Log(s) + [e];
    assert Placed(hash, Log(s), 0);
    assert !Placed(hash, Log(s'), |Log(s)|);
  }

  /** After emptying, two writers that both behave as written leave neighbours that do not link: the
      next process starts again at 1 and the old one goes on from what it remembers. */
  lemma EmptyingTheTableForks(hash: Hash, d: Draft, d': Draft) returns (s: System)
    requires hash(1, d, "") != hash(1, d', "")
    ensures Leads(hash, System(Build(hash, 0, "", [d]), [], [Writer(1, hash(1, d, ""), None)]),
                  [Open, Prepare(1, [d']), CommitBatch(1), Prepare(0, [d]), CommitBatch(0)], s)
    ensures !Chained(hash, s.table)
  {
    var h := hash(1, d, "");
    var old' := Writer(1, h, None);
    var pruned := Build(hash, 0, "", [d]);
    var e := ForkRestarts(hash, pruned, old', d');
    var f := ForkContinues(hash, pruned, old', e, d);
    var s3 := System(pruned, [e], [old', Writer(1, e.hash, None)]);
    var s4 := System(pruned, [e], [old'.(batch := Some([f])), Writer(1, e.hash, None)]);
    s := System(pruned, [e, f], [Writer(2, f.hash, None), Writer(1, e.hash, None)]);
    assert Leads(hash, s4, [CommitBatch(0)], s);
    assert [Prepare(0, [d]), CommitBatch(0)][1..] == [CommitBatch(0)];
    assert Leads(hash, s3, [Prepare(0, [d]), CommitBatch(0)], s);
    var steps := [Open, Prepare(1, [d']), CommitBatch(1), Prepare(0, [d]), CommitBatch(0)];
    assert steps[1..][1..][1..] == [Prepare(0, [d]), CommitBatch(0)];
    assert Offends(hash, s.table, 1);
  }

  /** On an emptied table a new process seeds (0, "") and inserts a second entry number 1. */
  lemma ForkRestarts(hash: Hash, pruned: seq<Entry>, old': Writer, d: Draft) returns (e: Entry)
    ensures e == Entry(1, d, "", hash(1, d, ""))
    ensures var second := Writer(0, "", None);
      && Next(hash, System(pruned, [], [old']), Open) == System(pruned, [], [old', second])
      && Next(hash, System(pruned, [], [old', second]), Prepare(1, [d])) == System(pruned, [], [old', second.(batch := Some([e]))])
      && Next(hash, System(pruned, [], [old', second.(batch := Some([e]))]), CommitBatch(1))
         == System(pruned, [e], [old', Writer(1, e.hash, None)])
  {
    e := Entry(1, d, "", hash(1, d, ""));
    BuildOne(hash, 0, "", d);
    var second := Writer(0, "", None);
    assert [old', second][1 := second.(batch := Some([e]))] == [old', second.(batch := Some([e]))];
    assert [old', second.(batch := Some([e]))][1 := Writer(1, e.hash, None)] == [old', Writer(1, e.hash, None)];
    assert [] + [e] == [e];
  }

  /** The old writer's memory is not behind the table, so it appends to what it remembers. */
  lemma ForkContinues(hash: Hash, pruned: seq<Entry>, old': Writer, e: Entry, d: Draft) returns (f: Entry)
    requires old' == Writer(1, old'.lastHash, None) && e.sequence == 1
    ensures f == Entry(2, d, old'.lastHash, hash(2, d, old'.lastHash))
    ensures var other := Writer(1, e.hash, None);
      && Next(hash, System(pruned, [e], [old', other]), Prepare(0, [d]))
         == System(pruned, [e], [old'.(batch := Some([f])), other])
      && Next(hash, System(pruned, [e], [old'.(batch := Some([f])), other]), CommitBatch(0))
         == System(pruned, [e, f], [Writer(2, f.hash, None), other])
  {
    f := Entry(2, d, old'.lastHash, hash(2, d, old'.lastHash));
    assert Latest([e]) == (1, e.hash);
    BuildOne(hash, 1, old'.lastHash, d);
    var other := Writer(1, e.hash, None);
    assert [old', other][0 := old'.(batch := Some([f]))] == [old'.(batch := Some([f])), other];
    assert [old'.(batch := Some([f])), other][0 := Writer(2, f.hash, None)] == [Writer(2, f.hash, None), other];
    assert [e] + [f] == [e, f];
    assert !Collides([e], [f]);
  }

  // ---------------------------------------------------------------------------------------------
  // One writer's calls, while others write
  // ---------------------------------------------------------------------------------------------

  class AuditTable {
    var rows: seq<Entry>
    /** Everything other processes have committed so far. */
    ghost var foreign: seq<Entry>

    constructor ()
      ensures rows == [] && foreign == []
    {
      rows, foreign := [], [];
    }

    /** Whatever other processes commit in the meantime: any number of batches on the end of the chain. */
    method OtherProcesses(hash: Hash) returns (ghost added: seq<Entry>)
      requires WholeChain(hash, rows)
      modifies this
      ensures WholeChain(hash, rows)
      ensures rows == old(rows) + added && foreign == old(foreign) + added
    {
      var drafts: seq<Draft> := *;
      BuildExtends(hash, rows, drafts);
      added := Build(hash, |rows|, HashAt(rows, |rows|), drafts);
      rows := rows + Build(hash, |rows|, HashAt(rows, |rows|), drafts);
      foreign := foreign + added;
    }

    /** Insert the whole batch or nothing.  The ghost arguments say what the batch was built from. */
    method Transaction(ghost hash: Hash, batch: seq<Entry>, fault: bool,
                       ghost sequence: int, ghost lastHash: string, ghost drafts: seq<Draft>)
      returns (failure: Option<WriteError>)
      requires WholeChain(hash, rows) && Remembers(rows, sequence, lastHash)
      requires batch == Build(hash, sequence, lastHash, drafts)
      modifies this`rows
      ensures WholeChain(hash, rows)
      ensures failure.None? <==> !fault && !Collides(old(rows), batch)
      ensures failure.None? ==> rows == old(rows) + batch
      ensures failure.None? ==> Remembers(rows, sequence + |drafts|, TailHash(batch, lastHash))
      ensures failure.None? && batch != [] ==> sequence == |old(rows)|
      ensures failure.Some? ==> rows == old(rows) && failure.value == if fault then StorageFailure else SequenceCollision
    {
      if fault {
        return Some(StorageFailure);
      }
      if Collides(rows, batch) {
        return Some(SequenceCollision);
      }
      if batch == [] {
        assert rows + batch == rows;
      } else {
        NoCollisionExtends(hash, rows, sequence, lastHash, drafts);
      }
      rows := rows + batch;
      return None;
    }
  }

  datatype WriteError = SequenceCollision | StorageFailure

  /** Attempt `i` is the first to end otherwise than in a collision: `i` rows of others came before it. */
  ghost predicate FirstUpTo(faults: nat -> bool, i: nat, fails: bool, others: seq<Entry>) {
    faults(i) == fails && (forall j | 0 <= j < i :: !faults(j)) && |others| >= i
  }

  /** A batch built on the newest row takes no number that is taken. */
  lemma CurrentBatchIsFree(hash: Hash, rows: seq<Entry>, sequence: int, lastHash: string, drafts: seq<Draft>)
    requires WholeChain(hash, rows)
    ensures sequence == |rows| ==> !Collides(rows, Build(hash, sequence, lastHash, drafts))
  {
    if sequence == |rows| {
      BuildNumbers(hash, sequence, lastHash, drafts);
      forall r | r in rows ensures r.sequence <= |rows| {
        var i :| 0 <= i < |rows| && rows[i] == r;
        assert Placed(hash, rows, i);
      }
    }
  }

  class AuditWriter {
    const hash: Hash
    var sequence: int
    var lastHash: string

    /** The remembered pair is an entry of the table, or (0, ""). */
    ghost predicate Valid(table: AuditTable)
      reads this, table
    {
      WholeChain(hash, table.rows) && Remembers(table.rows, sequence, lastHash)
    }

    constructor (hash: Hash, table: AuditTable)
      requires WholeChain(hash, table.rows)
      ensures Valid(table) && this.hash == hash
      ensures sequence == |table.rows|
    {
      this.hash := hash;
      var seed := Latest(table.rows);
      sequence, lastHash := seed.0, seed.1;
      NewestRow(hash, table.rows);
    }

    method ReseedIfStale(table: AuditTable)
      requires Valid(table)
      modifies this
      ensures Valid(table) && sequence == |table.rows|
    {
      var seed := Latest(table.rows);
      NewestRow(hash, table.rows);
      if seed.0 > sequence {
        sequence, lastHash := seed.0, seed.1;
      }
    }

    /** Others may write before the newest row is read and again before the transaction begins.  If they
        write nothing, what is remembered is the newest row. */
    method ReseedAmidOthers(table: AuditTable) returns (ghost others: seq<Entry>)
      requires Valid(table)
      modifies this, table
      ensures Valid(table)
      ensures table.rows == old(table.rows) + others && table.foreign == old(table.foreign) + others
      ensures others == [] ==> sequence == |table.rows|
    {
      ghost var before := table.OtherProcesses(hash);
      ReseedIfStale(table);
      ghost var after := table.OtherProcesses(hash);
      others := before + after;
    }

    /** `record`: `drafts(i)` carries the identifier and timestamp of attempt `i`, `faults(i)` says
        whether its transaction fails for another reason.  Each collision takes another row of the
        others, and any other failure ends the attempts at once.  On success the entry stands in the table
        and is what the writer remembers; on failure the table has grown by the others' rows alone. */
    method Record(table: AuditTable, drafts: nat -> Draft, faults: nat -> bool)
      returns (r: Result<Entry, WriteError>, ghost others: seq<Entry>)
      requires Valid(table)
      modifies this, table
      ensures Valid(table) && table.foreign == old(table.foreign) + others
      ensures table.rows == old(table.rows) + others + (if r.Ok? then [r.value] else [])
      ensures r.Ok? ==> 0 < sequence == |table.rows| && table.rows[sequence - 1] == r.value
      ensures r.Ok? ==> exists i | 0 <= i <= MAX_SEQUENCE_RETRIES :: r.value.draft == drafts(i) && FirstUpTo(faults, i, false, others)
      ensures r == Err(StorageFailure) ==> exists i | 0 <= i <= MAX_SEQUENCE_RETRIES :: FirstUpTo(faults, i, true, others)
      ensures r == Err(SequenceCollision) ==>
        |others| > MAX_SEQUENCE_RETRIES && forall i | 0 <= i <= MAX_SEQUENCE_RETRIES :: !faults(i)
    {
      hide WholeChain, Remembers, Collides, Build;
      others := [];
      for attempt := 0 to MAX_SEQUENCE_RETRIES + 1
        invariant Valid(table)
        invariant table.foreign == old(table.foreign) + others && table.rows == old(table.rows) + others
        invariant |others| >= attempt && forall i | 0 <= i < attempt :: !faults(i)
      {
        ghost var more := ReseedAmidOthers(table);
        others := others + more;
        var seq' := sequence + 1;
        var entryHash := hash(seq', drafts(attempt), lastHash);
        var entry := Entry(seq', drafts(attempt), lastHash, entryHash);
        BuildOne(hash, sequence, lastHash, drafts(attempt));
        CurrentBatchIsFree(hash, table.rows, sequence, lastHash, [drafts(attempt)]);
        assert FirstUpTo(faults, attempt, faults(attempt), others);
        var failure := table.Transaction(hash, [entry], faults(attempt), sequence, lastHash, [drafts(attempt)]);
        if failure.Some? {
          if failure.value == SequenceCollision && attempt < MAX_SEQUENCE_RETRIES {
            continue;
          }
          return Err(failure.value), others;
        }
        sequence, lastHash := seq', entryHash;
        return Ok(entry), others;
      }
      return Err(SequenceCollision), others;
    }

    /** `record_batch`: the memory advances entry by entry and is put back if the transaction fails. */
    method RecordBatch(table: AuditTable, drafts: nat -> seq<Draft>, faults: nat -> bool)
      returns (r: Result<seq<Entry>, WriteError>, ghost others: seq<Entry>)
      requires Valid(table)
      modifies this, table
      ensures Valid(table) && table.foreign == old(table.foreign) + others
      ensures table.rows == old(table.rows) + others + (if r.Ok? then r.value else [])
      ensures r.Ok? && r.value != [] ==> sequence == |table.rows|
      ensures r.Ok? ==> exists i | 0 <= i <= MAX_SEQUENCE_RETRIES ::
        && FirstUpTo(faults, i, false, others)
        && |r.value| == |drafts(i)| && forall j | 0 <= j < |r.value| :: r.value[j].draft == drafts(i)[j]
      ensures r == Err(StorageFailure) ==> exists i | 0 <= i <= MAX_SEQUENCE_RETRIES :: FirstUpTo(faults, i, true, others)
      ensures r == Err(SequenceCollision) ==>
        |others| > MAX_SEQUENCE_RETRIES && forall i | 0 <= i <= MAX_SEQUENCE_RETRIES :: !faults(i)
    {
      hide WholeChain, Remembers, Collides, Build;
      others := [];
      for attempt := 0 to MAX_SEQUENCE_RETRIES + 1
        invariant Valid(table)
        invariant table.foreign == old(table.foreign) + others && table.rows == old(table.rows) + others
        invariant |others| >= attempt && forall i | 0 <= i < attempt :: !faults(i)
      {
        ghost var more := ReseedAmidOthers(table);
        others := others + more;
        var savedSequence, savedHash := sequence, lastHash;
        var entries := drafts(attempt);
        var batch := AdvanceThrough(entries);
        BuildDrafts(hash, savedSequence, savedHash, entries);
        CurrentBatchIsFree(hash, table.rows, savedSequence, savedHash, entries);
        assert FirstUpTo(faults, attempt, faults(attempt), others);
        var failure := table.Transaction(hash, batch, faults(attempt), savedSequence, savedHash, entries);
        if failure.Some? {
          sequence, lastHash := savedSequence, savedHash;
          if failure.value == SequenceCollision && attempt < MAX_SEQUENCE_RETRIES {
            continue;
          }
          return Err(failure.value), others;
        }
        return Ok(batch), others;
      }
      return Err(SequenceCollision), others;
    }

    /** The loop that builds and persists the entries inside the transaction. */
    method AdvanceThrough(entries: seq<Draft>) returns (batch: seq<Entry>)
      modifies this
      ensures batch == Build(hash, old(sequence), old(lastHash), entries)
      ensures sequence == old(sequence) + |entries|
      ensures lastHash == TailHash(batch, old(lastHash))
    {
      batch := [];
      for i := 0 to |entries|
        invariant batch == Build(hash, old(sequence), old(lastHash), entries[..i])
        invariant sequence == old(sequence) + i
        invariant lastHash == TailHash(batch, old(lastHash))
      {
        var seq' := sequence + 1;
        var entryHash := hash(seq', entries[i], lastHash);
        assert entries[..i + 1][..i] == entries[..i];
        batch := batch + [Entry(seq', entries[i], lastHash, entryHash)];
        sequence, lastHash := seq', entryHash;
      }
      assert entries[..|entries|] == entries;
    }
  }

  lemma NewestRow(hash: Hash, rows: seq<Entry>)
    requires WholeChain(hash, rows)
    ensures Latest(rows) == (|rows|, HashAt(rows, |rows|))
  {
    var s := System([], rows, []);
    assert Log(s) == rows;
    SeedIsNewest(hash, s);
  }

  lemma {:induction false} BuildDrafts(hash: Hash, sequence: int, lastHash: string, drafts: seq<Draft>)
    ensures forall j | 0 <= j < |drafts| :: Build(hash, sequence, lastHash, drafts)[j].draft == drafts[j]
    decreases |drafts|
  {
    if drafts != [] {
      BuildDrafts(hash, sequence, lastHash, drafts[..|drafts| - 1]);
    }
  }

  /** Built from a remembered pair and hitting no taken number, a batch extends the chain. */
  lemma NoCollisionExtends(hash: Hash, rows: seq<Entry>, sequence: int, lastHash: string, drafts: seq<Draft>)
    requires WholeChain(hash, rows) && Remembers(rows, sequence, lastHash) && drafts != []
    requires !Collides(rows, Build(hash, sequence, lastHash, drafts))
    ensures var batch := Build(hash, sequence, lastHash, drafts);
      && WholeChain(hash, rows + batch) && sequence == |rows|
      && Remembers(rows + batch, sequence + |drafts|, batch[|batch| - 1].hash)
  {
    var w := Writer(sequence, lastHash, Some(Build(hash, sequence, lastHash, drafts)));
    var s := System([], rows, []);
    assert Log(s) == rows;
    FreshBatchExtends(hash, s, w);
    if sequence < |rows| {
      StaleBatchCollides(hash, s, w);
    }
  }
}
