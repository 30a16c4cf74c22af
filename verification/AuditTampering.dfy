/**
 Which edits of the 1.x audit trail its hashes reveal.

 The digested string joins eight fields with bars and escapes none of them.  It determines its fields
 exactly when no bar can be taken for another; where it does, a retained last hash pins every hashed
 column of the trail behind it.
 */
module AuditTampering {
  import opened Text
  import opened AuditTrail

  // ---------------------------------------------------------------------------------------------
  // What the digested string determines
  // ---------------------------------------------------------------------------------------------

  /** The text fields after the sequence number, which callers and the clock supply. */
  predicate PipeFree(d: Draft) {
    '|' !in d.actor && '|' !in d.action && '|' !in d.targetType && '|' !in d.targetId && '|' !in d.timestamp
  }

  predicate HidesAt(id: string, x: string, n: int, y: string) {
    id == x + "|" + Show(n) || id == x + "|" + Show(n) + "|" + y
  }

  /** An id that after one of its bars goes on with a number, as if its sequence followed there. */
  ghost predicate HidesSequence(id: string) {
    exists x, n, y :: HidesAt(id, x, n, y)
  }

  /** No bar of the digested string can be taken for another. */
  ghost predicate Unshiftable(d: Draft, previousHash: string) {
    PipeFree(d) && '|' !in previousHash && !HidesSequence(d.id)
  }

  predicate SameHashed(n: int, d: Draft, p: string, n': int, d': Draft, p': string) {
    n == n' && p == p' && d' == d.(details := d'.details)
  }

  lemma RestBars(d: Draft, p: string)
    ensures Bars(PayloadRest(d, p))
         == Bars(d.actor) + Bars(d.action) + Bars(d.targetType) + Bars(d.targetId) + Bars(d.timestamp) + Bars(p) + 5
  {
    BarsInJoin(d.timestamp, p);
    BarsInJoin(d.targetId, d.timestamp + "|" + p);
    BarsInJoin(d.targetType, d.targetId + "|" + (d.timestamp + "|" + p));
    BarsInJoin(d.action, d.targetType + "|" + (d.targetId + "|" + (d.timestamp + "|" + p)));
    BarsInJoin(d.actor, d.action + "|" + (d.targetType + "|" + (d.targetId + "|" + (d.timestamp + "|" + p))));
  }

  lemma PipeFreeMeansFiveBars(d: Draft, p: string)
    ensures PipeFree(d) && '|' !in p <==> Bars(PayloadRest(d, p)) == 5
  {
    RestBars(d, p);
    BarsZero(d.actor);
    BarsZero(d.action);
    BarsZero(d.targetType);
    BarsZero(d.targetId);
    BarsZero(d.timestamp);
    BarsZero(p);
  }

  lemma PipeFreeRestsSplit(d: Draft, p: string, d': Draft, p': string)
    requires PipeFree(d) && PipeFree(d') && PayloadRest(d, p) == PayloadRest(d', p')
    ensures d.actor == d'.actor && d.action == d'.action && d.targetType == d'.targetType
    ensures d.targetId == d'.targetId && d.timestamp == d'.timestamp && p == p'
  {
    var t1, t1' := d.timestamp + "|" + p, d'.timestamp + "|" + p';
    var t2, t2' := d.targetId + "|" + t1, d'.targetId + "|" + t1';
    var t3, t3' := d.targetType + "|" + t2, d'.targetType + "|" + t2';
    var t4, t4' := d.action + "|" + t3, d'.action + "|" + t3';
    SplitAtFirst(d.actor, t4, d'.actor, t4', '|');
    SplitAtFirst(d.action, t3, d'.action, t3', '|');
    SplitAtFirst(d.targetType, t2, d'.targetType, t2', '|');
    SplitAtFirst(d.targetId, t1, d'.targetId, t1', '|');
    SplitAtFirst(d.timestamp, p, d'.timestamp, p', '|');
  }

  /** Of two splits of one text at a bar, the longer front goes on after the shorter one's bar. */
  lemma LongerFront(a: string, x: string, b: string, y: string) returns (gap: string)
    requires a + "|" + x == b + "|" + y && |a| < |b|
    ensures b == a + "|" + gap && x == gap + "|" + y
  {
    var s := a + "|" + x;
    assert s == b + "|" + y;
    gap := s[|a| + 1..|b|];
    assert b == s[..|b|] && a == s[..|a|] && s[|a|] == '|' && s[|b|] == '|';
    assert x == s[|a| + 1..] && y == s[|b| + 1..];
  }

  lemma FrontEndsWithinId(id: string, m: string, front: string, gap: string)
    requires '|' !in m && front + "|" + gap == id + "|" + m
    ensures |front| <= |id|
  {
    var s := id + "|" + m;
    assert s == front + "|" + gap && s[|front|] == '|';
    forall i | |id| < i < |s| ensures s[i] in m {
      assert s[i] == m[i - |id| - 1];
    }
  }

  /** If the number comes earlier in the string, the id hides it. */
  lemma EarlierNumberIsHidden(id: string, n: int, rest: string, id': string, n': int, rest': string)
    requires (id + "|" + Show(n)) + "|" + rest == (id' + "|" + Show(n')) + "|" + rest'
    requires |id' + "|" + Show(n')| < |id + "|" + Show(n)|
    ensures HidesSequence(id)
  {
    var front := id' + "|" + Show(n');
    var gap := LongerFront(front, rest', id + "|" + Show(n), rest);
    ShowHasNo(n, '|');
    FrontEndsWithinId(id, Show(n), front, gap);
    var y := "";
    if |front| < |id| {
      y := LongerFront(front, gap, id, Show(n));
    } else {
      var s := id + "|" + Show(n);
      assert s == front + "|" + gap && id == s[..|id|] == front;
    }
    assert HidesAt(id, id', n', y);
  }

  /** It cannot come later: the fields after it would lack a bar. */
  lemma NumberNotLater(front: string, rest: string, front': string, rest': string)
    requires front + "|" + rest == front' + "|" + rest' && Bars(rest) <= Bars(rest')
    ensures |front'| <= |front|
  {
    if |front'| > |front| {
      var gap := LongerFront(front, rest, front', rest');
      BarsInJoin(gap, rest');
    }
  }

  /** Whatever the other entry holds, an unshiftable one shares its digested string only with its own
      hashed columns. */
  lemma PayloadDetermines(n: int, d: Draft, p: string, n': int, d': Draft, p': string)
    requires Unshiftable(d, p) && Payload(n, d, p) == Payload(n', d', p')
    ensures SameHashed(n, d, p, n', d', p')
  {
    var r, r' := PayloadRest(d, p), PayloadRest(d', p');
    var front, front' := d.id + "|" + Show(n), d'.id + "|" + Show(n');
    if |front'| < |front| {
      EarlierNumberIsHidden(d.id, n, r, d'.id, n', r');
    }
    RestBars(d', p');
    PipeFreeMeansFiveBars(d, p);
    NumberNotLater(front, r, front', r');
    var s := front + "|" + r;
    assert s == front' + "|" + r' && |front| == |front'|;
    assert front == s[..|front|] == front' && r == s[|front| + 1..] == r';
    PipeFreeMeansFiveBars(d', p');
    PipeFreeRestsSplit(d, p, d', p');
    ShowHasNo(n, '|');
    ShowHasNo(n', '|');
    SplitAtLast(d.id, Show(n), d'.id, Show(n'), '|');
    ShowInjective(n, n');
  }

  lemma BarFreeIdHidesNothing(id: string)
    requires '|' !in id
    ensures !HidesSequence(id)
  {
    forall x, n, y ensures !HidesAt(id, x, n, y) {
      assert (x + "|" + Show(n))[|x|] == '|' && (x + "|" + Show(n) + "|" + y)[|x|] == '|';
    }
  }

  /** Two entries without any bars share their digested string only if they share all that is hashed,
      whatever the previous hashes are. */
  lemma BarFreePairDetermines(n: int, d: Draft, p: string, n': int, d': Draft, p': string)
    requires PipeFree(d) && PipeFree(d') && '|' !in d.id && '|' !in d'.id
    requires Payload(n, d, p) == Payload(n', d', p')
    ensures SameHashed(n, d, p, n', d', p')
  {
    var r, r' := PayloadRest(d, p), PayloadRest(d', p');
    BarsAssociate(d.id, Show(n), r);
    BarsAssociate(d'.id, Show(n'), r');
    SplitAtFirst(d.id, Show(n) + "|" + r, d'.id, Show(n') + "|" + r', '|');
    ShowHasNo(n, '|');
    ShowHasNo(n', '|');
    SplitAtFirst(Show(n), r, Show(n'), r', '|');
    ShowInjective(n, n');
    PipeFreeRestsSplit(d, p, d', p');
  }

  /** A bar that ends one field earlier, the rest of the field joining the next. */
  lemma MoveBar(x: string, y: string, next: string, rest: string)
    ensures x + "|" + y + "|" + (next + "|" + rest) == x + "|" + (y + "|" + next + "|" + rest)
  {
  }

  /** In every other case some entry with other hashed columns has the same digested string. */
  lemma PayloadTwin(n: int, d: Draft, p: string) returns (n': int, d': Draft, p': string)
    requires !Unshiftable(d, p)
    ensures Payload(n', d', p') == Payload(n, d, p) && !SameHashed(n, d, p, n', d', p')
  {
    n', d', p' := n, d, p;
    if '|' in d.actor {
      var x, y := BarSplits(d.actor);
      d' := d.(actor := x, action := y + "|" + d.action);
      MoveBar(x, y, d.action, d.targetType + "|" + (d.targetId + "|" + (d.timestamp + "|" + p)));
    } else if '|' in d.action {
      var x, y := BarSplits(d.action);
      d' := d.(action := x, targetType := y + "|" + d.targetType);
      MoveBar(x, y, d.targetType, d.targetId + "|" + (d.timestamp + "|" + p));
    } else if '|' in d.targetType {
      var x, y := BarSplits(d.targetType);
      d' := d.(targetType := x, targetId := y + "|" + d.targetId);
      MoveBar(x, y, d.targetId, d.timestamp + "|" + p);
    } else if '|' in d.targetId {
      var x, y := BarSplits(d.targetId);
      d' := d.(targetId := x, timestamp := y + "|" + d.timestamp);
      MoveBar(x, y, d.timestamp, p);
    } else if '|' in d.timestamp {
      var x, y := BarSplits(d.timestamp);
      d', p' := d.(timestamp := x), y + "|" + p;
      BarsAssociate(x, y, p);
    } else if '|' in p {
      var x, y := BarSplits(p);
      d', p' := d.(timestamp := d.timestamp + "|" + x), y;
      BarsAssociate(d.timestamp, x, y);
    } else {
      n', d' := HiddenTwin(n, d, p);
    }
  }

  /** The hidden number is read as the sequence; what followed it, and the sequence, become part of the actor. */
  lemma HiddenTwin(n: int, d: Draft, p: string) returns (n': int, d': Draft)
    requires HidesSequence(d.id)
    ensures Payload(n', d', p) == Payload(n, d, p) && d'.id != d.id
  {
    var x, k, y :| HidesAt(d.id, x, k, y);
    n' := k;
    var actor := if d.id == x + "|" + Show(k) then Show(n) + "|" + d.actor else y + "|" + Show(n) + "|" + d.actor;
    d' := d.(id := x, actor := actor);
    var tail := d.action + "|" + (d.targetType + "|" + (d.targetId + "|" + (d.timestamp + "|" + p)));
    HiddenNumber(d.id, n, d.actor, tail, x, k, y);
    assert |x| < |d.id|;
  }

  lemma HiddenNumber(id: string, n: int, actor: string, tail: string, x: string, k: int, y: string)
    requires HidesAt(id, x, k, y)
    ensures var actor' := if id == x + "|" + Show(k) then Show(n) + "|" + actor else y + "|" + Show(n) + "|" + actor;
      x + "|" + Show(k) + "|" + (actor' + "|" + tail) == id + "|" + Show(n) + "|" + (actor + "|" + tail)
  {
    if id == x + "|" + Show(k) {
      MoveBar(id, Show(n), actor, tail);
    } else {
      MoveBar(y, Show(n), actor, tail);
      BarsAssociate(x + "|" + Show(k), y, Show(n) + "|" + (actor + "|" + tail));
      BarsAssociate(id, Show(n), actor + "|" + tail);
      BarsAssociate(y, Show(n), actor + "|" + tail);
    }
  }

  ghost predicate Determined(n: int, d: Draft, p: string) {
    forall n', d', p' :: Payload(n', d', p') == Payload(n, d, p) ==> SameHashed(n, d, p, n', d', p')
  }

  /** Exactly the unshiftable entries are determined by what is hashed of them. */
  lemma PayloadDeterminesExactly(n: int, d: Draft, p: string)
    ensures Determined(n, d, p) <==> Unshiftable(d, p)
  {
    if Unshiftable(d, p) {
      forall n', d', p' | Payload(n', d', p') == Payload(n, d, p) ensures SameHashed(n, d, p, n', d', p') {
        PayloadDetermines(n, d, p, n', d', p');
      }
    } else {
      var n', d', p' := PayloadTwin(n, d, p);
      assert Payload(n', d', p') == Payload(n, d, p) && !SameHashed(n, d, p, n', d', p');
    }
  }

  // ---------------------------------------------------------------------------------------------
  // What a retained hash pins
  // ---------------------------------------------------------------------------------------------

  ghost predicate AllUnshiftable(rows: seq<Entry>) {
    forall i | 0 <= i < |rows| :: Unshiftable(rows[i].draft, rows[i].previousHash)
  }

  function LastHash(rows: seq<Entry>): string
    requires rows != []
  {
    rows[|rows| - 1].hash
  }

  predicate SameRow(e: Entry, e': Entry) {
    e' == e.(draft := e.draft.(details := e'.draft.details))
  }

  /** Two rehashing entries with one hash hold the same hashed columns. */
  lemma OneHashOneRow(algorithm: Algorithm, e: Entry, e': Entry)
    requires CollisionFree(algorithm) && Unshiftable(e.draft, e.previousHash)
    requires Rehashes(ComputeHash(algorithm), e) && Rehashes(ComputeHash(algorithm), e') && e.hash == e'.hash
    ensures SameRow(e, e')
  {
    PayloadDetermines(e.sequence, e.draft, e.previousHash, e'.sequence, e'.draft, e'.previousHash);
  }

  /** Under one last hash the last `k` rows of two chains agree in every hashed column. */
  lemma {:induction false} LastRowsAgree(algorithm: Algorithm, rows: seq<Entry>, rows': seq<Entry>, k: nat)
    requires CollisionFree(algorithm) && AllUnshiftable(rows)
    requires Chained(ComputeHash(algorithm), rows) && Chained(ComputeHash(algorithm), rows')
    requires 0 < k <= |rows| && k <= |rows'| && LastHash(rows) == LastHash(rows')
    ensures SameCovered(rows[|rows| - k..], rows'[|rows'| - k..])
    decreases k
  {
    var hash := ComputeHash(algorithm);
    var i, i' := |rows| - k, |rows'| - k;
    assert !Offends(hash, rows, i) && !Offends(hash, rows', i');
    if k > 1 {
      LastRowsAgree(algorithm, rows, rows', k - 1);
      assert rows[i + 1] == rows[i + 1..][0] && rows'[i' + 1] == rows'[i' + 1..][0];
      assert !Offends(hash, rows, i + 1) && !Offends(hash, rows', i' + 1);
    }
    OneHashOneRow(algorithm, rows[i], rows'[i']);
    assert rows[i..][1..] == rows[i + 1..] && rows'[i'..][1..] == rows'[i' + 1..];
    CoveredPrepends(rows[i..], rows'[i'..]);
  }

  lemma CoveredPrepends(rows: seq<Entry>, rows': seq<Entry>)
    requires rows != [] && |rows| == |rows'| && SameRow(rows[0], rows'[0]) && SameCovered(rows[1..], rows'[1..])
    ensures SameCovered(rows, rows')
  {
    forall i | 0 <= i < |rows| ensures SameRow(rows[i], rows'[i]) {
      assert i > 0 ==> SameRow(rows[1..][i - 1], rows'[1..][i - 1]);
    }
  }

  /** Tamper evidence of the trail: under a collision-free digest, rows that end in the retained hash and
      are no more than before verify exactly when they are the last rows, hashed column by hashed column.
      Every edit, swap, insertion and deletion inside them is reported. */
  lemma TrailTamperEvident(algorithm: Algorithm, rows: seq<Entry>, rows': seq<Entry>)
    requires CollisionFree(algorithm) && Chained(ComputeHash(algorithm), rows) && AllUnshiftable(rows)
    requires 0 < |rows'| <= |rows| && LastHash(rows') == LastHash(rows)
    ensures Chained(ComputeHash(algorithm), rows') <==> SameCovered(rows[|rows| - |rows'|..], rows')
  {
    var last := rows[|rows| - |rows'|..];
    if Chained(ComputeHash(algorithm), rows') {
      LastRowsAgree(algorithm, rows, rows', |rows'|);
      assert rows'[|rows'| - |rows'|..] == rows';
    }
    if SameCovered(last, rows') {
      SlicesStayChained(ComputeHash(algorithm), rows, |rows| - |rows'|, |rows|);
      assert rows[|rows| - |rows'|..|rows|] == last;
      CoveredRowsChain(algorithm, last, rows');
    }
  }

  lemma CoveredRowsChain(algorithm: Algorithm, rows: seq<Entry>, rows': seq<Entry>)
    requires Chained(ComputeHash(algorithm), rows) && SameCovered(rows, rows')
    ensures Chained(ComputeHash(algorithm), rows')
  {
    var hash := ComputeHash(algorithm);
    forall i | 0 <= i < |rows'| ensures !Offends(hash, rows', i) {
      assert !Offends(hash, rows, i);
      HashIgnoresDetails(algorithm, rows[i].sequence, rows[i].draft, rows'[i].draft.details, rows[i].previousHash);
      assert i > 0 ==> rows'[i - 1].hash == rows[i - 1].hash;
    }
  }

  lemma HashNotEmpty(algorithm: Algorithm, e: Entry)
    requires (forall text :: algorithm(text) != "") && Rehashes(ComputeHash(algorithm), e)
    ensures e.hash != ""
  {
    assert e.hash == algorithm(Payload(e.sequence, e.draft, e.previousHash));
  }

  /** Nothing can be put before a trail that starts with no previous hash. */
  lemma NothingBeforeTheFirst(algorithm: Algorithm, rows: seq<Entry>, rows': seq<Entry>)
    requires CollisionFree(algorithm) && Chained(ComputeHash(algorithm), rows) && AllUnshiftable(rows)
    requires forall text :: algorithm(text) != ""
    requires rows != [] && rows[0].previousHash == ""
    requires |rows'| > |rows| && LastHash(rows') == LastHash(rows)
    ensures !Chained(ComputeHash(algorithm), rows')
  {
    if Chained(ComputeHash(algorithm), rows') {
      FirstRowFollows(algorithm, rows, rows');
      HashNotEmpty(algorithm, rows'[|rows'| - |rows| - 1]);
    }
  }

  lemma FirstRowFollows(algorithm: Algorithm, rows: seq<Entry>, rows': seq<Entry>)
    requires CollisionFree(algorithm) && AllUnshiftable(rows)
    requires Chained(ComputeHash(algorithm), rows) && Chained(ComputeHash(algorithm), rows')
    requires 0 < |rows| < |rows'| && LastHash(rows') == LastHash(rows)
    ensures Rehashes(ComputeHash(algorithm), rows'[|rows'| - |rows| - 1])
    ensures rows'[|rows'| - |rows| - 1].hash == rows[0].previousHash
  {
    var i := |rows'| - |rows|;
    LastRowsAgree(algorithm, rows, rows', |rows|);
    assert rows[|rows| - |rows|..][0] == rows[0] && rows'[i..][0] == rows'[i];
    assert SameRow(rows[0], rows'[i]);
    assert !Offends(ComputeHash(algorithm), rows', i) && !Offends(ComputeHash(algorithm), rows', i - 1);
  }

  /** Without a retained hash the newest row can be rewritten unseen, hash and all. */
  lemma NewestRowNeedsRetainedHash(hash: Hash, rows: seq<Entry>, d: Draft)
    requires Chained(hash, rows) && rows != []
    ensures var last := rows[|rows| - 1];
      Chained(hash, rows[|rows| - 1 := Entry(last.sequence, d, last.previousHash, hash(last.sequence, d, last.previousHash))])
  {
    var last := rows[|rows| - 1];
    var rows' := rows[|rows| - 1 := Entry(last.sequence, d, last.previousHash, hash(last.sequence, d, last.previousHash))];
    forall i | 0 <= i < |rows'| ensures !Offends(hash, rows', i) {
      assert !Offends(hash, rows, i);
    }
  }
}
