/** The multi-index registry of `legacy/v1/scoped/registry/base.py`. */
module RegistryIndex {
  import opened Wrappers
  import Urns

  datatype Lifecycle = DRAFT | ACTIVE | DEPRECATED | ARCHIVED

  datatype RegistryError = Frozen | BadUrn(error: Urns.UrnError) | AlreadyRegistered(urn: string) | NotRegistered(id: string)

  /** The part of an entry that never changes; `target` stands for the identity of the registered object. */
  datatype Info = Info(id: string, urn: string, kind: string, namespace_: string, target: Option<nat>)

  class RegistryEntry {
    const info: Info
    var lifecycle: Lifecycle
    var entryVersion: nat

    constructor (info: Info, lifecycle: Lifecycle)
      ensures this.info == info && this.lifecycle == lifecycle && entryVersion == 1
    {
      this.info, this.lifecycle, entryVersion := info, lifecycle, 1;
    }
  }

  /** Where a bound of a Python slice falls in a list of `n` elements; negative bounds count from the end. */
  function SliceBound(i: int, n: nat): (r: nat)
    ensures r <= n
  {
    if i < 0 then (if n + i < 0 then 0 else n + i) else if i < n then i else n
  }

  function Paginate<T>(items: seq<T>, limit: Option<int>, offset: int): seq<T> {
    var rest := items[SliceBound(offset, |items|)..];
    if limit.None? then rest else rest[..SliceBound(limit.value, |rest|)]
  }

  /** Without a limit a page is everything from the offset on; with one, no more than so many entries of it.
      A negative offset or limit counts from the end. */
  lemma PageExactly<T>(items: seq<T>, limit: Option<int>, offset: int, i: nat)
    ensures var page := Paginate(items, limit, offset);
      var skipped := if offset >= 0 then offset else if |items| + offset >= 0 then |items| + offset else 0;
      var left := if |items| >= skipped then |items| - skipped else 0;
      && (limit == None ==> |page| == left)
      && (limit.Some? && limit.value >= 0 ==> |page| == if left <= limit.value then left else limit.value)
      && (limit.Some? && limit.value < 0 ==> |page| == if left + limit.value >= 0 then left + limit.value else 0)
      && (i < |page| ==> skipped + i < |items| && page[i] == items[skipped + i])
  {
  }

  /** The first `count` pages of a size, one after the other. */
  function Pages<T>(items: seq<T>, size: nat, count: nat): seq<T> {
    if count == 0 then [] else Pages(items, size, count - 1) + Paginate(items, Some(size), (count - 1) * size)
  }

  /** Consecutive pages concatenate to the front of the list, hence to all of it once there are enough. */
  lemma {:induction false} PagesConcatenate<T>(items: seq<T>, size: nat, count: nat)
    ensures Pages(items, size, count) == items[..SliceBound(count * size, |items|)]
  {
    if count > 0 {
      PagesConcatenate(items, size, count - 1);
      var from := (count - 1) * size;
      assert count * size == from + size;
    }
  }

  datatype Field = Kind | Namespace

  function FieldOf(e: Info, f: Field): string {
    if f == Kind then e.kind else e.namespace_
  }

  /** The entries with this kind or namespace, in their order. */
  function OfField(entries: seq<Info>, f: Field, value: string): seq<Info> {
    if entries == [] then []
    else
      var last := entries[|entries| - 1];
      var before := OfField(entries[..|entries| - 1], f, value);
      if FieldOf(last, f) == value then before + [last] else before
  }

  /** Their ids, as an index lists them. */
  function Ids(entries: seq<Info>, f: Field, value: string): seq<string> {
    if entries == [] then []
    else
      var last := entries[|entries| - 1];
      var before := Ids(entries[..|entries| - 1], f, value);
      if FieldOf(last, f) == value then before + [last.id] else before
  }

  lemma {:induction false} IdsAreOfEntries(entries: seq<Info>, f: Field, value: string)
    ensures |Ids(entries, f, value)| == |OfField(entries, f, value)|
    ensures forall i | 0 <= i < |Ids(entries, f, value)| :: Ids(entries, f, value)[i] == OfField(entries, f, value)[i].id
  {
    if entries != [] {
      IdsAreOfEntries(entries[..|entries| - 1], f, value);
    }
  }

  function Without(ids: seq<string>, id: string): seq<string> {
    if ids == [] then []
    else
      var last := ids[|ids| - 1];
      var before := Without(ids[..|ids| - 1], id);
      if last == id then before else before + [last]
  }

  function Drop(entries: seq<Info>, e: Info): seq<Info> {
    if entries == [] then []
    else
      var last := entries[|entries| - 1];
      var before := Drop(entries[..|entries| - 1], e);
      if last == e then before else before + [last]
  }

  lemma IdsGrow(entries: seq<Info>, e: Info, f: Field, value: string)
    ensures Ids(entries + [e], f, value)
         == if FieldOf(e, f) == value then Ids(entries, f, value) + [e.id] else Ids(entries, f, value)
  {
    assert (entries + [e])[..|entries|] == entries;
  }

  lemma {:induction false} OfFieldMembers(entries: seq<Info>, f: Field, value: string)
    ensures forall e :: e in OfField(entries, f, value) <==> e in entries && FieldOf(e, f) == value
  {
    if entries != [] {
      OfFieldMembers(entries[..|entries| - 1], f, value);
      assert entries == entries[..|entries| - 1] + [entries[|entries| - 1]];
    }
  }

  lemma {:induction false} DropMembers(entries: seq<Info>, e: Info)
    ensures forall x :: x in Drop(entries, e) <==> x in entries && x != e
  {
    if entries != [] {
      DropMembers(entries[..|entries| - 1], e);
      assert entries == entries[..|entries| - 1] + [entries[|entries| - 1]];
    }
  }

  ghost predicate DistinctUrns(entries: seq<Info>) {
    forall i, j | 0 <= i < j < |entries| :: entries[i].urn != entries[j].urn
  }

  lemma {:induction false} DropKeepsDistinctUrns(entries: seq<Info>, e: Info)
    requires DistinctUrns(entries)
    ensures DistinctUrns(Drop(entries, e))
  {
    if entries != [] {
      var before, last := entries[..|entries| - 1], entries[|entries| - 1];
      DropKeepsDistinctUrns(before, e);
      DropMembers(before, e);
      forall x | x in Drop(before, e) ensures x.urn != last.urn {
        var i :| 0 <= i < |before| && before[i] == x;
        assert entries[i] == x;
      }
    }
  }

  lemma WithoutGrows(ids: seq<string>, id: string, last: string)
    ensures Without(ids + [last], id) == if last == id then Without(ids, id) else Without(ids, id) + [last]
  {
    assert (ids + [last])[..|ids|] == ids;
  }

  /** Taking an entry's id out of an index list is taking the entry out of the entries listed. */
  lemma {:induction false} DropFromIndex(entries: seq<Info>, e: Info, f: Field, value: string)
    requires forall x | x in entries && x.id == e.id :: x == e
    ensures Ids(Drop(entries, e), f, value) == Without(Ids(entries, f, value), e.id)
  {
    if entries != [] {
      var before, last := entries[..|entries| - 1], entries[|entries| - 1];
      assert last in entries && forall x | x in before :: x in entries;
      DropFromIndex(before, e, f, value);
      IdsGrow(Drop(before, e), last, f, value);
      WithoutGrows(Ids(before, f, value), e.id, last.id);
    }
  }

  lemma {:induction false} DropOtherField(entries: seq<Info>, e: Info, f: Field, value: string)
    requires FieldOf(e, f) != value
    ensures Ids(Drop(entries, e), f, value) == Ids(entries, f, value)
  {
    if entries != [] {
      var before, last := entries[..|entries| - 1], entries[|entries| - 1];
      DropOtherField(before, e, f, value);
      IdsGrow(Drop(before, e), last, f, value);
    }
  }

  type Index = map<string, seq<string>>

  function Listed(index: Index, value: string): seq<string> {
    if value in index then index[value] else []
  }

  ghost predicate Indexes(index: Index, entries: seq<Info>, f: Field) {
    forall value :: Listed(index, value) == Ids(entries, f, value)
  }

  ghost predicate FindsUrns(byUrn: map<string, RegistryEntry>, entries: seq<Info>) {
    && (forall u | u in byUrn :: byUrn[u].info in entries && byUrn[u].info.urn == u)
    && (forall e | e in entries :: e.urn in byUrn)
  }

  /** Entries are stored under their ids, among them the active ones, which have different names. */
  ghost predicate Holds(stored: map<string, RegistryEntry>, active: seq<Info>) {
    && (forall id | id in stored :: stored[id].info.id == id)
    && (forall e | e in active :: e.id in stored && stored[e.id].info == e)
    && DistinctUrns(active)
  }

  /** What the indexes of names and targets lead to is stored, and has that target. */
  ghost predicate FoundAreStored(stored: map<string, RegistryEntry>, byUrn: map<string, RegistryEntry>, byTarget: map<nat, string>) {
    && (forall u | u in byUrn :: byUrn[u].info.id in stored && stored[byUrn[u].info.id] == byUrn[u])
    && (forall t | t in byTarget :: byTarget[t] in stored && stored[byTarget[t]].info.target == Some(t))
  }

  /** Appends the id to the list of a value unless it is there. */
  function AddTo(index: Index, value: string, id: string): Index {
    if id in Listed(index, value) then index else index[value := Listed(index, value) + [id]]
  }

  lemma UnlistedId(index: Index, entries: seq<Info>, f: Field, e: Info)
    requires Indexes(index, entries, f) && forall x | x in entries :: x.id != e.id
    ensures e.id !in Listed(index, FieldOf(e, f))
  {
    IdsAreOfEntries(entries, f, FieldOf(e, f));
    OfFieldMembers(entries, f, FieldOf(e, f));
    assert Listed(index, FieldOf(e, f)) == Ids(entries, f, FieldOf(e, f));
    forall i | 0 <= i < |Ids(entries, f, FieldOf(e, f))| ensures Ids(entries, f, FieldOf(e, f))[i] != e.id {
      assert OfField(entries, f, FieldOf(e, f))[i] in entries;
    }
  }

  lemma IndexGrows(index: Index, entries: seq<Info>, f: Field, e: Info)
    requires Indexes(index, entries, f) && forall x | x in entries :: x.id != e.id
    ensures Indexes(AddTo(index, FieldOf(e, f), e.id), entries + [e], f)
  {
    var grown := AddTo(index, FieldOf(e, f), e.id);
    UnlistedId(index, entries, f, e);
    forall value ensures Listed(grown, value) == Ids(entries + [e], f, value) {
      IdsGrow(entries, e, f, value);
      assert Listed(index, value) == Ids(entries, f, value);
    }
  }

  lemma IndexShrinks(index: Index, entries: seq<Info>, f: Field, e: Info)
    requires Indexes(index, entries, f) && forall x | x in entries && x.id == e.id :: x == e
    ensures Indexes(index[FieldOf(e, f) := Without(Listed(index, FieldOf(e, f)), e.id)], Drop(entries, e), f)
  {
    var shrunk := index[FieldOf(e, f) := Without(Listed(index, FieldOf(e, f)), e.id)];
    forall value ensures Listed(shrunk, value) == Ids(Drop(entries, e), f, value) {
      assert Listed(index, value) == Ids(entries, f, value);
      if value == FieldOf(e, f) {
        DropFromIndex(entries, e, f, value);
      } else {
        DropOtherField(entries, e, f, value);
      }
    }
  }

  /** The five dictionaries. */
  datatype Tables = Tables(entries: map<string, RegistryEntry>, byUrn: map<string, RegistryEntry>,
                           byKind: Index, byNamespace: Index, byTarget: map<nat, string>)

  ghost predicate Stored(t: Tables, active: seq<Info>) {
    Holds(t.entries, active) && FoundAreStored(t.entries, t.byUrn, t.byTarget)
    && Indexes(t.byKind, active, Kind) && Indexes(t.byNamespace, active, Namespace)
  }

  /** Every index agrees with the active entries. */
  ghost predicate Agree(t: Tables, active: seq<Info>) {
    Stored(t, active) && FindsUrns(t.byUrn, active)
  }

  function WithEntry(t: Tables, entry: RegistryEntry): Tables {
    var info := entry.info;
    Tables(t.entries[info.id := entry], t.byUrn[info.urn := entry],
           AddTo(t.byKind, info.kind, info.id), AddTo(t.byNamespace, info.namespace_, info.id),
           if info.target.Some? then t.byTarget[info.target.value := info.id] else t.byTarget)
  }

  lemma {:induction false} RegisteringAgrees(t: Tables, active: seq<Info>, entry: RegistryEntry)
    requires Agree(t, active) && entry.info.id !in t.entries && entry.info.urn !in t.byUrn
    ensures Agree(WithEntry(t, entry), active + [entry.info])
  {
    IndexGrows(t.byKind, active, Kind, entry.info);
    IndexGrows(t.byNamespace, active, Namespace, entry.info);
    StoreGrows(t.entries, t.byUrn, active, entry);
    FoundGrows(t.entries, t.byUrn, t.byTarget, entry);
  }

  /** The entry is the one its target leads to from then on; all other targets lead where they did. */
  lemma TargetsExactly(t: Tables, entry: RegistryEntry, target: nat)
    ensures var after := WithEntry(t, entry).byTarget;
      if entry.info.target == Some(target) then target in after && after[target] == entry.info.id
      else (target in after <==> target in t.byTarget) && (target in after ==> after[target] == t.byTarget[target])
  {
  }

  function WithoutEntry(t: Tables, info: Info): Tables {
    t.(byUrn := t.byUrn - {info.urn},
       byKind := t.byKind[info.kind := Without(Listed(t.byKind, info.kind), info.id)],
       byNamespace := t.byNamespace[info.namespace_ := Without(Listed(t.byNamespace, info.namespace_), info.id)])
  }

  /** The indexes stay right exactly when the entry was still active or its name is free. */
  lemma {:induction false} ArchivingAgrees(t: Tables, active: seq<Info>, id: string)
    requires Agree(t, active) && id in t.entries
    ensures Stored(WithoutEntry(t, t.entries[id].info), Drop(active, t.entries[id].info))
    ensures Agree(WithoutEntry(t, t.entries[id].info), Drop(active, t.entries[id].info)) <==>
      t.entries[id].info in active || forall e | e in active :: e.urn != t.entries[id].info.urn
  {
    var info := t.entries[id].info;
    IndexShrinks(t.byKind, active, Kind, info);
    IndexShrinks(t.byNamespace, active, Namespace, info);
    DropMembers(active, info);
    DropKeepsDistinctUrns(active, info);
    UrnsAfterArchiving(t.byUrn, active, info);
  }

  // ---------------------------------------------------------------------------------------------
  // The indexes and the lifecycles
  // ---------------------------------------------------------------------------------------------

  /** Everything ever registered in order, the lifecycle each entry has now, and what the indexes list. */
  datatype Ledger = Ledger(registered: seq<Info>, states: map<string, Lifecycle>, active: seq<Info>)

  datatype Call = Registering(info: Info, lifecycle: Lifecycle) | Transitioning(id: string, lifecycle: Lifecycle) | Archiving(id: string)

  predicate Possible(l: Ledger, call: Call) {
    match call
    case Registering(info, _) => info.id !in l.states
    case Transitioning(id, _) => id in l.states
    case Archiving(id) => id in l.states && exists e :: e in l.registered && e.id == id
  }

  function Described(entries: seq<Info>, id: string): (e: Info)
    requires exists e :: e in entries && e.id == id
    ensures e in entries && e.id == id
  {
    if entries[|entries| - 1].id == id then entries[|entries| - 1]
    else
      assert entries == entries[..|entries| - 1] + [entries[|entries| - 1]];
      Described(entries[..|entries| - 1], id)
  }

  function After(l: Ledger, call: Call): Ledger
    requires Possible(l, call)
  {
    match call
    case Registering(info, state) => Ledger(l.registered + [info], l.states[info.id := state], l.active + [info])
    case Transitioning(id, state) => l.(states := l.states[id := state])
    case Archiving(id) => l.(states := l.states[id := ARCHIVED], active := Drop(l.active, Described(l.registered, id)))
  }

  /** The entries whose lifecycle is not ARCHIVED, in the order of registration. */
  function Living(registered: seq<Info>, states: map<string, Lifecycle>): seq<Info> {
    if registered == [] then []
    else
      var last := registered[|registered| - 1];
      var before := Living(registered[..|registered| - 1], states);
      if last.id in states && states[last.id] != ARCHIVED then before + [last] else before
  }

  /** Every entry has its own id and a lifecycle. */
  ghost predicate Filed(registered: seq<Info>, ids: set<string>) {
    && (forall i, j | 0 <= i < j < |registered| :: registered[i].id != registered[j].id)
    && (forall e | e in registered :: e.id in ids)
    && (forall id | id in ids :: exists e :: e in registered && e.id == id)
  }

  /** The indexes list exactly what is not archived. */
  predicate Current(l: Ledger) {
    l.active == Living(l.registered, l.states)
  }

  /** Registering as archived, and transitions to or from ARCHIVED, change a lifecycle but no index. */
  predicate Minds(l: Ledger, call: Call)
    requires Possible(l, call)
  {
    match call
    case Registering(_, state) => state != ARCHIVED
    case Transitioning(id, state) => state == ARCHIVED <==> l.states[id] == ARCHIVED
    case Archiving(_) => true
  }

  lemma {:induction false} LivingMembers(registered: seq<Info>, states: map<string, Lifecycle>)
    ensures forall e :: e in Living(registered, states) <==> e in registered && e.id in states && states[e.id] != ARCHIVED
  {
    if registered != [] {
      LivingMembers(registered[..|registered| - 1], states);
      assert registered == registered[..|registered| - 1] + [registered[|registered| - 1]];
    }
  }

  lemma {:induction false} LivingUntouched(registered: seq<Info>, states: map<string, Lifecycle>, id: string, state: Lifecycle)
    requires forall e | e in registered && e.id == id :: id in states && (state == ARCHIVED <==> states[id] == ARCHIVED)
    ensures Living(registered, states[id := state]) == Living(registered, states)
  {
    if registered != [] {
      assert registered == registered[..|registered| - 1] + [registered[|registered| - 1]];
      LivingUntouched(registered[..|registered| - 1], states, id, state);
    }
  }

  lemma {:induction false} LivingWithoutArchived(registered: seq<Info>, states: map<string, Lifecycle>, e: Info)
    requires forall x | x in registered && x.id == e.id :: x == e
    ensures Living(registered, states[e.id := ARCHIVED]) == Drop(Living(registered, states), e)
  {
    if registered != [] {
      var before, last := registered[..|registered| - 1], registered[|registered| - 1];
      assert registered == before + [last];
      LivingWithoutArchived(before, states, e);
      assert (Living(before, states) + [last])[..|Living(before, states)|] == Living(before, states);
    }
  }

  lemma FiledGrows(registered: seq<Info>, ids: set<string>, info: Info)
    requires Filed(registered, ids) && info.id !in ids
    ensures Filed(registered + [info], ids + {info.id})
  {
    forall i | 0 <= i < |registered| ensures registered[i].id != info.id {
      assert registered[i] in registered;
    }
    assert info in registered + [info];
    forall id | id in ids ensures exists e :: e in registered + [info] && e.id == id {
      var e :| e in registered && e.id == id;
      assert e in registered + [info];
    }
  }

  lemma RegisteringStaysCurrent(l: Ledger, info: Info, state: Lifecycle)
    requires Filed(l.registered, l.states.Keys) && Current(l) && info.id !in l.states
    ensures Current(After(l, Registering(info, state))) <==> state != ARCHIVED
  {
    assert (l.registered + [info])[..|l.registered|] == l.registered;
    LivingUntouched(l.registered, l.states, info.id, state);
    assert |l.active + [info]| != |l.active|;
  }

  lemma TransitioningStaysCurrent(l: Ledger, id: string, state: Lifecycle)
    requires Filed(l.registered, l.states.Keys) && Current(l) && id in l.states
    ensures Current(After(l, Transitioning(id, state))) <==> (state == ARCHIVED <==> l.states[id] == ARCHIVED)
  {
    if state == ARCHIVED <==> l.states[id] == ARCHIVED {
      LivingUntouched(l.registered, l.states, id, state);
    } else {
      var e :| e in l.registered && e.id == id;
      LivingMembers(l.registered, l.states);
      LivingMembers(l.registered, l.states[id := state]);
      assert e in l.active <==> e !in Living(l.registered, l.states[id := state]);
    }
  }

  lemma SameIdSameEntry(registered: seq<Info>, ids: set<string>, e: Info)
    requires Filed(registered, ids) && e in registered
    ensures forall x | x in registered && x.id == e.id :: x == e
  {
    forall x | x in registered && x.id == e.id ensures x == e {
      var i :| 0 <= i < |registered| && registered[i] == x;
      var j :| 0 <= j < |registered| && registered[j] == e;
    }
  }

  /** A call leaves the indexes listing exactly what is not archived if and only if it minds the lifecycles. */
  lemma {:induction false} StepStaysCurrent(l: Ledger, call: Call)
    requires Filed(l.registered, l.states.Keys) && Current(l) && Possible(l, call)
    ensures Filed(After(l, call).registered, After(l, call).states.Keys)
    ensures Current(After(l, call)) <==> Minds(l, call)
  {
    hide Filed, Living, Described;
    match call
    case Registering(info, state) =>
      FiledGrows(l.registered, l.states.Keys, info);
      assert l.states[info.id := state].Keys == l.states.Keys + {info.id};
      RegisteringStaysCurrent(l, info, state);
    case Transitioning(id, state) =>
      assert l.states[id := state].Keys == l.states.Keys;
      TransitioningStaysCurrent(l, id, state);
    case Archiving(id) =>
      assert l.states[id := ARCHIVED].Keys == l.states.Keys;
      var e := Described(l.registered, id);
      SameIdSameEntry(l.registered, l.states.Keys, e);
      LivingWithoutArchived(l.registered, l.states, e);
  }

  ghost predicate AlwaysCurrent(l: Ledger, calls: seq<Call>)
    decreases |calls|
  {
    Current(l) && (calls != [] ==> Possible(l, calls[0]) && AlwaysCurrent(After(l, calls[0]), calls[1..]))
  }

  ghost predicate AlwaysMinds(l: Ledger, calls: seq<Call>)
    decreases |calls|
  {
    calls != [] ==> Possible(l, calls[0]) && Minds(l, calls[0]) && AlwaysMinds(After(l, calls[0]), calls[1..])
  }

  /** Over any run: the indexes list exactly what is not archived all the time if and only if no call
      registers an entry as archived or moves one to or from ARCHIVED other than by archiving it. */
  lemma {:induction false} RunStaysCurrent(l: Ledger, calls: seq<Call>)
    requires Filed(l.registered, l.states.Keys) && Current(l)
    ensures AlwaysCurrent(l, calls) <==> AlwaysMinds(l, calls)
    decreases |calls|
  {
    if calls != [] && Possible(l, calls[0]) {
      StepStaysCurrent(l, calls[0]);
      if Minds(l, calls[0]) {
        RunStaysCurrent(After(l, calls[0]), calls[1..]);
      }
    }
  }

  /** What is stored under an id is the entry registered under it. */
  ghost predicate Registered(stored: map<string, RegistryEntry>, registered: seq<Info>) {
    Filed(registered, stored.Keys) && forall e | e in registered :: stored[e.id].info == e
  }

  lemma RegisteredGrows(stored: map<string, RegistryEntry>, registered: seq<Info>, entry: RegistryEntry)
    requires Registered(stored, registered) && entry.info.id !in stored
    ensures Registered(stored[entry.info.id := entry], registered + [entry.info])
  {
    FiledGrows(registered, stored.Keys, entry.info);
    assert stored[entry.info.id := entry].Keys == stored.Keys + {entry.info.id};
  }

  lemma StoredUnder(stored: map<string, RegistryEntry>, registered: seq<Info>, id: string)
    requires Registered(stored, registered) && id in stored
    ensures exists e :: e in registered && e.id == id
    ensures Described(registered, id) == stored[id].info
  {
  }

  class Registry {
    var tables: Tables
    var frozen: bool
    /** The entries registered and not archived since, in the order of registration. */
    ghost var active: seq<Info>
    /** All entries ever registered. */
    ghost var registered: seq<Info>

    ghost predicate Valid()
      reads this
    {
      Agree(tables, active) && Registered(tables.entries, registered)
    }

    ghost function Book(): Ledger
      reads this, tables.entries.Values
    {
      Ledger(registered, map id | id in tables.entries :: tables.entries[id].lifecycle, active)
    }

    constructor ()
      ensures Valid() && Book() == Ledger([], map[], []) && !frozen && tables.entries == map[]
    {
      tables := Tables(map[], map[], map[], map[], map[]);
      frozen := false;
      active, registered := [], [];
    }

    /** Ids are generated: the new one is not in use. */
    method Register(id: string, kind: string, namespace_: string, name: string, version: int, lifecycle: Lifecycle, target: Option<nat>)
      returns (r: Result<RegistryEntry, RegistryError>)
      requires Valid() && id !in tables.entries
      modifies this
      ensures Valid() && frozen == old(frozen)
      ensures r.Ok? <==>
        && !old(frozen) && Urns.Valid(Urns.Urn(kind, namespace_, name, version))
        && forall e | e in old(active) :: e.urn != Urns.Print(Urns.Urn(kind, namespace_, name, version))
      ensures r.Ok? ==>
        && fresh(r.value) && r.value.lifecycle == lifecycle && r.value.entryVersion == 1
        && r.value.info == Info(id, Urns.Print(Urns.Urn(kind, namespace_, name, version)), kind, namespace_, target)
        && active == old(active) + [r.value.info] && tables == WithEntry(old(tables), r.value)
      ensures r.Ok? ==>
        && Possible(old(Book()), Registering(r.value.info, lifecycle))
        && Book() == After(old(Book()), Registering(r.value.info, lifecycle))
      ensures r.Err? ==> Book() == old(Book()) && tables == old(tables)
    {
      hide Registered, Stored, Living;
      if frozen {
        return Err(Frozen);
      }
      var made := Urns.Make(kind, namespace_, name, version);
      if made.Err? {
        return Err(BadUrn(made.error));
      }
      var urn := Urns.Print(made.value);
      if urn in tables.byUrn {
        return Err(AlreadyRegistered(urn));
      }
      var entry := new RegistryEntry(Info(id, urn, kind, namespace_, target), lifecycle);
      IndexEntry(entry);
      return Ok(entry);
    }

    /** `_index_entry`. */
    method IndexEntry(entry: RegistryEntry)
      requires Valid() && entry.info.id !in tables.entries && entry.info.urn !in tables.byUrn
      modifies this
      ensures Valid() && frozen == old(frozen) && tables == WithEntry(old(tables), entry)
      ensures active == old(active) + [entry.info] && Book() == After(old(Book()), Registering(entry.info, entry.lifecycle))
    {
      hide Registered, Agree, Stored, Living, AddTo;
      RegisteringAgrees(tables, active, entry);
      RegisteredGrows(tables.entries, registered, entry);
      tables, active, registered := WithEntry(tables, entry), active + [entry.info], registered + [entry.info];
      assert Book().states == old(Book()).states[entry.info.id := entry.lifecycle];
    }

    method FindByUrn(urn: string) returns (r: Option<RegistryEntry>)
      requires Valid()
      ensures r.Some? ==>
        && r.value.info in active && r.value.info.urn == urn && tables.entries[r.value.info.id] == r.value
        && forall e | e in active && e.urn == urn :: e == r.value.info
      ensures r.None? ==> forall e | e in active :: e.urn != urn
    {
      r := if urn in tables.byUrn then Some(tables.byUrn[urn]) else None;
    }

    /** Archived entries are still found by their target. */
    method FindByTarget(target: nat) returns (r: Option<RegistryEntry>)
      requires Valid()
      ensures r.Some? ==>
        && r.value.info.id in tables.entries && tables.entries[r.value.info.id] == r.value && r.value.info.target == Some(target)
      ensures r.Some? <==> target in tables.byTarget
    {
      r := if target in tables.byTarget then Some(tables.entries[tables.byTarget[target]]) else None;
    }

    /** The stored entries with these descriptions, in this order. */
    ghost predicate AreEntries(found: seq<RegistryEntry>, infos: seq<Info>)
      reads this
    {
      |found| == |infos| && forall i | 0 <= i < |infos| :: infos[i].id in tables.entries && tables.entries[infos[i].id] == found[i]
    }

    method EntriesOf(ids: seq<string>, ghost infos: seq<Info>) returns (found: seq<RegistryEntry>)
      requires |ids| == |infos| && forall i | 0 <= i < |ids| :: ids[i] == infos[i].id && ids[i] in tables.entries
      ensures AreEntries(found, infos)
    {
      found := [];
      for n := 0 to |ids|
        invariant AreEntries(found, infos[..n])
      {
        found := found + [tables.entries[ids[n]]];
      }
    }

    method ByField(f: Field, index: Index, value: string, limit: Option<int>, offset: int) returns (r: seq<RegistryEntry>)
      requires Valid() && Indexes(index, active, f)
      ensures AreEntries(r, Paginate(OfField(active, f, value), limit, offset))
    {
      ghost var infos := OfField(active, f, value);
      assert Listed(index, value) == Ids(active, f, value);
      IdsAreOfEntries(active, f, value);
      OfFieldMembers(active, f, value);
      forall i | 0 <= i < |infos| ensures infos[i].id in tables.entries {
        assert infos[i] in infos;
      }
      var found := EntriesOf(Listed(index, value), infos);
      r := Paginate(found, limit, offset);
    }

    method ByKind(kind: string, limit: Option<int>, offset: int) returns (r: seq<RegistryEntry>)
      requires Valid()
      ensures AreEntries(r, Paginate(OfField(active, Kind, kind), limit, offset))
    {
      r := ByField(Kind, tables.byKind, kind, limit, offset);
    }

    method ByNamespace(namespace_: string, limit: Option<int>, offset: int) returns (r: seq<RegistryEntry>)
      requires Valid()
      ensures AreEntries(r, Paginate(OfField(active, Namespace, namespace_), limit, offset))
    {
      r := ByField(Namespace, tables.byNamespace, namespace_, limit, offset);
    }

    /** Changes the entry in place and no index: an entry moved to ARCHIVED this way is still found. */
    method Transition(id: string, lifecycle: Lifecycle) returns (r: Result<RegistryEntry, RegistryError>)
      requires Valid()
      modifies if id in tables.entries then {tables.entries[id]} else {}
      ensures Valid() && r == if id in tables.entries then Ok(tables.entries[id]) else Err(NotRegistered(id))
      ensures r.Ok? ==> r.value.lifecycle == lifecycle && r.value.entryVersion == old(tables.entries[id].entryVersion) + 1
      ensures r.Ok? ==> Possible(old(Book()), Transitioning(id, lifecycle)) && Book() == After(old(Book()), Transitioning(id, lifecycle))
      ensures r.Err? ==> Book() == old(Book())
    {
      if id !in tables.entries {
        return Err(NotRegistered(id));
      }
      var entry := tables.entries[id];
      entry.lifecycle, entry.entryVersion := lifecycle, entry.entryVersion + 1;
      return Ok(entry);
    }

    /** Archiving takes the entry out of the indexes of names, kinds and namespaces.  Archiving it again
        takes away the name of a successor. */
    method Archive(id: string) returns (r: Result<RegistryEntry, RegistryError>)
      requires Valid()
      modifies this, if id in tables.entries then {tables.entries[id]} else {}
      ensures frozen == old(frozen)
      ensures r == if id in old(tables).entries then Ok(old(tables).entries[id]) else Err(NotRegistered(id))
      ensures r.Err? ==> tables == old(tables) && Book() == old(Book())
      ensures r.Ok? ==> Possible(old(Book()), Archiving(id)) && Book() == After(old(Book()), Archiving(id))
      ensures r.Ok? ==> r.value.lifecycle == ARCHIVED && r.value.entryVersion == old(tables.entries[id].entryVersion) + 1
      ensures r.Ok? ==> tables == WithoutEntry(old(tables), r.value.info) && active == Drop(old(active), r.value.info)
      ensures Valid() <==>
        r.Ok? ==> r.value.info in old(active) || forall e | e in old(active) :: e.urn != r.value.info.urn
    {
      hide Registered, Agree, Described, Drop;
      if id !in tables.entries {
        return Err(NotRegistered(id));
      }
      var entry := tables.entries[id];
      StoredUnder(tables.entries, registered, id);
      ArchivingAgrees(tables, active, id);
      entry.lifecycle, entry.entryVersion := ARCHIVED, entry.entryVersion + 1;
      tables, active := WithoutEntry(tables, entry.info), Drop(active, entry.info);
      return Ok(entry);
    }
  }

  lemma FoundGrows(stored: map<string, RegistryEntry>, byUrn: map<string, RegistryEntry>, byTarget: map<nat, string>, entry: RegistryEntry)
    requires FoundAreStored(stored, byUrn, byTarget) && entry.info.id !in stored
    ensures var targets := if entry.info.target.Some? then byTarget[entry.info.target.value := entry.info.id] else byTarget;
      FoundAreStored(stored[entry.info.id := entry], byUrn[entry.info.urn := entry], targets)
  {
  }

  lemma StoreGrows(stored: map<string, RegistryEntry>, byUrn: map<string, RegistryEntry>, active: seq<Info>, entry: RegistryEntry)
    requires Holds(stored, active) && FindsUrns(byUrn, active) && entry.info.id !in stored && entry.info.urn !in byUrn
    ensures Holds(stored[entry.info.id := entry], active + [entry.info])
    ensures FindsUrns(byUrn[entry.info.urn := entry], active + [entry.info])
  {
    forall i | 0 <= i < |active| ensures active[i].urn != entry.info.urn {
      assert active[i] in active;
    }
  }

  lemma NamesDiffer(entries: seq<Info>, x: Info, y: Info)
    requires DistinctUrns(entries) && x in entries && y in entries && x != y
    ensures x.urn != y.urn
  {
    var i :| 0 <= i < |entries| && entries[i] == x;
    var j :| 0 <= j < |entries| && entries[j] == y;
  }

  lemma UrnsAfterArchiving(byUrn: map<string, RegistryEntry>, entries: seq<Info>, e: Info)
    requires FindsUrns(byUrn, entries) && DistinctUrns(entries)
    ensures FindsUrns(byUrn - {e.urn}, Drop(entries, e)) <==> e in entries || forall x | x in entries :: x.urn != e.urn
  {
    DropMembers(entries, e);
    if e in entries {
      forall x | x in entries && x != e ensures x.urn != e.urn {
        NamesDiffer(entries, x, e);
      }
    } else if x :| x in entries && x.urn == e.urn {
      assert x in Drop(entries, e);
    }
  }

  /** Archiving an entry again, once another is registered under its name, hides that other entry: it is
      still active, but no longer found by its name. */
  lemma ArchivedAgain(t: Tables, active: seq<Info>, id: string, successor: Info)
    requires Agree(t, active) && id in t.entries && t.entries[id].info !in active
    requires successor in active && successor.urn == t.entries[id].info.urn
    ensures successor in Drop(active, t.entries[id].info)
    ensures successor.urn !in WithoutEntry(t, t.entries[id].info).byUrn
  {
    DropMembers(active, t.entries[id].info);
  }

  /** Such a state is reached by registering, archiving, and registering another under the same name. */
  lemma SuccessorRegistered(first: RegistryEntry, second: RegistryEntry) returns (t: Tables)
    requires first.info.id != second.info.id && first.info.urn == second.info.urn
    ensures t == WithEntry(WithoutEntry(WithEntry(Tables(map[], map[], map[], map[], map[]), first), first.info), second)
    ensures Agree(t, [second.info]) && first.info.id in t.entries && t.entries[first.info.id].info !in [second.info]
  {
    var empty := Tables(map[], map[], map[], map[], map[]);
    RegisteringAgrees(empty, [], first);
    assert [] + [first.info] == [first.info] && first.info in [first.info];
    ArchivingAgrees(WithEntry(empty, first), [first.info], first.info.id);
    DropMembers([first.info], first.info);
    assert Drop([first.info], first.info) == [] by {
      assert [first.info][..0] == [];
    }
    t := WithoutEntry(WithEntry(empty, first), first.info);
    RegisteringAgrees(t, [], second);
    assert [] + [second.info] == [second.info];
    t := WithEntry(t, second);
  }
}
