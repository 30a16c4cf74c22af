/** `legacy/v1/scoped/manifest/loader.py` and `resolver.py`: creating the entries of a manifest section by
    section, each reference resolved to an id that must already be there. */
module ManifestLoader {
  import opened Wrappers
  import opened ParentChains
  import opened ManifestSchema
  import opened ScopeOrder
  import ManifestValidator

  /** What a load records as created or skipped. */
  datatype Item = Entity(ref: Ref) | Member(scope: string, principal: string)

  /** What `load` returns; `ids` is what the resolver holds. */
  datatype ManifestResult = ManifestResult(created: seq<Item>, skipped: seq<Item>, errors: seq<string>, ids: map<Ref, string>)

  /** `left` is what a load that stops has done until then; nothing takes it back. */
  datatype Failure = Invalid(problems: seq<ManifestValidator.Problem>) | Unresolved(ref: Ref, left: ManifestResult)

  /** Entry `i` of the log is the last registration of `r`. */
  ghost predicate LastRegistered(log: seq<(Ref, string)>, r: Ref, i: nat) {
    i < |log| && log[i].0 == r && forall j | i < j < |log| :: log[j].0 != r
  }

  /** What registering these ids in turn leaves. */
  function Replay(log: seq<(Ref, string)>): map<Ref, string> {
    if log == [] then map[]
    else
      var last := log[|log| - 1];
      Replay(log[..|log| - 1])[last.0 := last.1]
  }

  lemma {:induction false} ReplayMeaning(log: seq<(Ref, string)>, r: Ref)
    ensures r in Replay(log) ==> exists i: nat :: LastRegistered(log, r, i) && log[i].1 == Replay(log)[r]
    ensures r !in Replay(log) ==> forall i | 0 <= i < |log| :: log[i].0 != r
  {
    if log != [] {
      var before, last := log[..|log| - 1], log[|log| - 1];
      ReplayMeaning(before, r);
      if last.0 == r {
        assert LastRegistered(log, r, |log| - 1);
      } else if r in Replay(log) {
        var i: nat :| LastRegistered(before, r, i) && before[i].1 == Replay(before)[r];
        assert LastRegistered(log, r, i);
      }
    }
  }

  class ReferenceResolver {
    var ids: map<Ref, string>
    /** Every registration, in order. */
    ghost var log: seq<(Ref, string)>

    ghost predicate Valid()
      reads this
    {
      ids == Replay(log)
    }

    constructor ()
      ensures Valid() && log == [] && ids == map[]
    {
      ids, log := map[], [];
    }

    method Register(r: Ref, id: string)
      requires Valid()
      modifies this
      ensures Valid() && log == old(log) + [(r, id)]
      ensures ids.Keys == old(ids.Keys) + {r}
    {
      ids, log := ids[r := id], log + [(r, id)];
      assert log[..|log| - 1] == old(log);
    }

    /** The id registered last under the reference; none exactly if it was never registered. */
    method Resolve(r: Ref) returns (id: Option<string>)
      requires Valid()
      ensures id.Some? <==> r in ids
      ensures id.Some? ==> exists i: nat :: LastRegistered(log, r, i) && log[i].1 == id.value
      ensures id.None? ==> forall i | 0 <= i < |log| :: log[i].0 != r
    {
      ReplayMeaning(log, r);
      id := if r in ids then Some(ids[r]) else None;
    }
  }

  function Entries(section: Section, names: seq<string>): (entries: set<Ref>)
    ensures forall r | r in entries :: r.section == section
    ensures names == [] ==> entries == {}
  {
    set name | name in names :: Ref(section, name)
  }

  function Given(section: Section, name: string): seq<Ref> {
    if name == "" then [] else [Ref(section, name)]
  }

  /** What is resolved while an entry is loaded, in order. */
  function ScopeNeeds(s: ScopeSpec): seq<Ref> {
    [Ref(Principals, s.owner)] + if s.parent.None? then [] else Given(Scopes, s.parent.value)
  }

  /** The owner of the first scope with this name. */
  function OwnerOf(scopes: seq<ScopeSpec>, name: string): string {
    if scopes == [] then "" else if scopes[0].name == name then scopes[0].owner else OwnerOf(scopes[1..], name)
  }

  /** A membership that names no granter is granted by the owner of its scope. */
  function MembershipNeeds(doc: Document, m: MembershipSpec): seq<Ref> {
    var granter := if m.grantedBy != "" then m.grantedBy else OwnerOf(doc.scopes, m.scope);
    [Ref(Scopes, m.scope), Ref(Principals, m.principal), Ref(Principals, granter)]
  }

  function ProjectionNeeds(o: ObjectSpec): seq<Ref> {
    seq(|o.projectInto|, i requires 0 <= i < |o.projectInto| => Ref(Scopes, o.projectInto[i]))
  }

  function ObjectNeeds(o: ObjectSpec): seq<Ref> {
    [Ref(Principals, o.owner)] + ProjectionNeeds(o)
  }

  function BindingNeeds(r: RuleSpec): seq<Ref> {
    seq(|r.bindTo|, i requires 0 <= i < |r.bindTo| => BindingRef(r.bindTo[i]))
  }

  function RuleNeeds(r: RuleSpec): seq<Ref> {
    Given(Principals, r.createdBy) + BindingNeeds(r)
  }

  function PluginNeeds(p: PluginSpec): seq<Ref> {
    [Ref(Principals, p.owner)] + if p.scope.None? then [] else Given(Scopes, p.scope.value)
  }

  predicate AllIn(keys: set<Ref>, refs: seq<Ref>) {
    forall r | r in refs :: r in keys
  }

  predicate Lacks(keys: set<Ref>, refs: seq<Ref>, missing: Option<Ref>) {
    missing.Some? && missing.value in refs && missing.value !in keys
  }

  lemma EntriesGrow(section: Section, names: seq<string>, n: nat)
    requires n < |names|
    ensures Entries(section, names[..n + 1]) == Entries(section, names[..n]) + {Ref(section, names[n])}
  {
    assert names[..n + 1] == names[..n] + [names[n]];
  }

  lemma AllInBoth(keys: set<Ref>, a: seq<Ref>, b: seq<Ref>)
    ensures AllIn(keys, a + b) <==> AllIn(keys, a) && AllIn(keys, b)
  {
    if AllIn(keys, a + b) {
      forall r | r in a ensures r in keys {
        assert r in a + b;
      }
      forall r | r in b ensures r in keys {
        assert r in a + b;
      }
    }
  }

  /** References into one section do not notice what is registered in another. */
  lemma OtherSection(keys: set<Ref>, section: Section, names: seq<string>, refs: seq<Ref>)
    requires forall r | r in refs :: r.section != section
    ensures AllIn(keys + Entries(section, names), refs) <==> AllIn(keys, refs)
  {
  }

  lemma OwnersKept(keys: set<Ref>, section: Section, names: seq<string>, specs: seq<OwnedSpec>)
    requires !section.Principals?
    ensures OwnersIn(keys + Entries(section, names), specs) <==> OwnersIn(keys, specs)
  {
  }

  predicate OwnersIn(keys: set<Ref>, specs: seq<OwnedSpec>) {
    forall s | s in specs :: Ref(Principals, s.owner) in keys
  }

  lemma OwnersInGrow(keys: set<Ref>, specs: seq<OwnedSpec>, n: nat)
    requires n < |specs|
    ensures OwnersIn(keys, specs[..n + 1]) <==> OwnersIn(keys, specs[..n]) && Ref(Principals, specs[n].owner) in keys
  {
    assert specs[..n + 1] == specs[..n] + [specs[n]];
  }

  /** The secrets no value is given for, in order: they are reported and left out. */
  function WithoutValue(secrets: seq<OwnedSpec>, values: map<string, string>): seq<string> {
    if secrets == [] then []
    else
      var last := secrets[|secrets| - 1];
      WithoutValue(secrets[..|secrets| - 1], values) + if last.name in values then [] else [last.name]
  }

  function SecretEntries(secrets: seq<OwnedSpec>, values: map<string, string>): (entries: set<Ref>)
    ensures forall r | r in entries :: r.section == Secrets
    ensures secrets == [] ==> entries == {}
  {
    set s | s in secrets && s.name in values :: Ref(Secrets, s.name)
  }

  lemma SecretsGrow(secrets: seq<OwnedSpec>, values: map<string, string>, n: nat)
    requires n < |secrets|
    ensures secrets[n].name in values ==>
      && SecretEntries(secrets[..n + 1], values) == SecretEntries(secrets[..n], values) + {Ref(Secrets, secrets[n].name)}
      && WithoutValue(secrets[..n + 1], values) == WithoutValue(secrets[..n], values)
    ensures secrets[n].name !in values ==>
      && SecretEntries(secrets[..n + 1], values) == SecretEntries(secrets[..n], values)
      && WithoutValue(secrets[..n + 1], values) == WithoutValue(secrets[..n], values) + [secrets[n].name]
  {
    assert secrets[..n + 1] == secrets[..n] + [secrets[n]];
    assert secrets[..n + 1][..n] == secrets[..n];
  }

  class ManifestLoader {
    const resolver: ReferenceResolver
    var created: seq<Item>
    var skipped: seq<Item>
    var errors: seq<string>

    /** What is registered is exactly what was created or found to exist. */
    ghost predicate Valid()
      reads this, resolver
    {
      resolver.Valid() && forall r :: r in resolver.ids <==> Entity(r) in created || Entity(r) in skipped
    }

    constructor ()
      ensures Valid() && fresh(resolver) && resolver.ids == map[] && created == skipped == [] && errors == []
    {
      resolver := new ReferenceResolver();
      created, skipped, errors := [], [], [];
    }

    /** Whether the entry already exists, and under which id, is up to the storage. */
    method Enter(r: Ref, exists_: bool, id: string)
      requires Valid()
      modifies this, resolver
      ensures Valid() && errors == old(errors)
      ensures resolver.ids.Keys == old(resolver.ids.Keys) + {r}
    {
      resolver.Register(r, id);
      if exists_ {
        skipped := skipped + [Entity(r)];
      } else {
        created := created + [Entity(r)];
      }
    }

    /** Resolve references one by one; the first that is missing stops the load. */
    method ResolveAll(refs: seq<Ref>) returns (missing: Option<Ref>)
      requires resolver.Valid()
      ensures missing.None? <==> AllIn(resolver.ids.Keys, refs)
      ensures missing.Some? ==> Lacks(resolver.ids.Keys, refs, missing)
    {
      for n := 0 to |refs|
        invariant AllIn(resolver.ids.Keys, refs[..n])
      {
        assert refs[..n + 1] == refs[..n] + [refs[n]];
        var id := resolver.Resolve(refs[n]);
        if id.None? {
          return Some(refs[n]);
        }
      }
      assert refs[..|refs|] == refs;
      return None;
    }

    method LoadPrincipals(doc: Document)
      requires Valid()
      modifies this, resolver
      ensures Valid() && errors == old(errors)
      ensures resolver.ids.Keys == old(resolver.ids.Keys) + Entries(Principals, NamesIn(doc, Principals))
    {
      var names := NamesIn(doc, Principals);
      for n := 0 to |names|
        invariant Valid() && errors == old(errors)
        invariant resolver.ids.Keys == old(resolver.ids.Keys) + Entries(Principals, names[..n])
      {
        EntriesGrow(Principals, names, n);
        var found: bool, id: string := *, *;
        Enter(Ref(Principals, names[n]), found, id);
      }
      assert names[..|names|] == names;
    }

    /** Sorted scopes all load when owners are there, parents are declared and none is above itself. */
    method LoadScopes(doc: Document) returns (missing: Option<Ref>)
      requires Valid()
      modifies this, resolver
      ensures Valid() && errors == old(errors)
      ensures missing.None? ==> resolver.ids.Keys == old(resolver.ids.Keys) + Entries(Scopes, NamesIn(doc, Scopes))
      ensures missing.Some? ==> missing.value !in resolver.ids
      ensures ScopesLoadable(doc, old(resolver.ids.Keys)) ==> missing.None?
    {
      var ordered := TopoSortScopes(doc.scopes);
      ghost var keys := resolver.ids.Keys;
      for n := 0 to |ordered|
        invariant Valid() && errors == old(errors)
        invariant resolver.ids.Keys == keys + ScopeEntries(ordered[..n])
      {
        var s := ordered[n];
        assert ordered[..n + 1] == ordered[..n] + [s];
        missing := ResolveAll(ScopeNeeds(s));
        if missing.Some? {
          if ScopesLoadable(doc, keys) {
            SortedScopeResolves(doc, keys, ordered, n);
          }
          return;
        }
        var found: bool, id: string := *, *;
        Enter(Ref(Scopes, s.name), found, id);
      }
      assert ordered[..|ordered|] == ordered;
      SortedEntries(doc.scopes, ordered, NamesIn(doc, Scopes));
      missing := None;
    }

    method LoadMemberships(doc: Document) returns (missing: Option<Ref>)
      requires Valid()
      modifies this
      ensures Valid() && errors == old(errors)
      ensures missing.None? <==> forall m | m in doc.memberships :: AllIn(resolver.ids.Keys, MembershipNeeds(doc, m))
    {
      for n := 0 to |doc.memberships|
        invariant Valid() && errors == old(errors)
        invariant forall m | m in doc.memberships[..n] :: AllIn(resolver.ids.Keys, MembershipNeeds(doc, m))
      {
        var m := doc.memberships[n];
        assert doc.memberships[..n + 1] == doc.memberships[..n] + [m];
        missing := ResolveAll(MembershipNeeds(doc, m));
        if missing.Some? {
          return;
        }
        var member: bool := *;
        if member {
          skipped := skipped + [Member(m.scope, m.principal)];
        } else {
          created := created + [Member(m.scope, m.principal)];
        }
      }
      assert doc.memberships[..|doc.memberships|] == doc.memberships;
      missing := None;
    }

    /** The owner is resolved first, then the object created, then its projections. */
    method LoadObject(o: ObjectSpec) returns (missing: Option<Ref>)
      requires Valid()
      modifies this, resolver
      ensures Valid() && errors == old(errors)
      ensures missing.None? <==> AllIn(old(resolver.ids.Keys), ObjectNeeds(o))
      ensures missing.None? ==> resolver.ids.Keys == old(resolver.ids.Keys) + {Ref(Objects, o.name)}
    {
      AllInBoth(resolver.ids.Keys, [Ref(Principals, o.owner)], ProjectionNeeds(o));
      missing := ResolveAll([Ref(Principals, o.owner)]);
      if missing.Some? { return; }
      var id: string := *;
      Enter(Ref(Objects, o.name), false, id);
      missing := ResolveAll(ProjectionNeeds(o));
    }

    method LoadObjects(doc: Document) returns (missing: Option<Ref>)
      requires Valid()
      modifies this, resolver
      ensures Valid() && errors == old(errors)
      ensures missing.None? <==> forall i | 0 <= i < |doc.objects| :: AllIn(old(resolver.ids.Keys), ObjectNeeds(doc.objects[i]))
      ensures missing.None? ==> resolver.ids.Keys == old(resolver.ids.Keys) + Entries(Objects, NamesIn(doc, Objects))
    {
      hide Entries;
      var names := NamesIn(doc, Objects);
      ghost var keys := resolver.ids.Keys;
      for n := 0 to |doc.objects|
        invariant Valid() && errors == old(errors)
        invariant forall i | 0 <= i < n :: AllIn(keys, ObjectNeeds(doc.objects[i]))
        invariant resolver.ids.Keys == keys + Entries(Objects, names[..n])
      {
        EntriesGrow(Objects, names, n);
        missing := LoadObject(doc.objects[n]);
        if missing.Some? { return; }
      }
      assert names[..|doc.objects|] == names;
      missing := None;
    }

    /** The creator is resolved first, then the rule created, then the targets of its bindings. */
    method LoadRule(r: RuleSpec) returns (missing: Option<Ref>)
      requires Valid()
      modifies this, resolver
      ensures Valid() && errors == old(errors)
      ensures missing.None? <==> AllIn(old(resolver.ids.Keys), RuleNeeds(r))
      ensures missing.None? ==> resolver.ids.Keys == old(resolver.ids.Keys) + {Ref(Rules, r.name)}
      ensures missing.Some? ==> Lacks(old(resolver.ids.Keys), RuleNeeds(r), missing)
      ensures missing.Some? && AllIn(old(resolver.ids.Keys), Given(Principals, r.createdBy)) ==>
        resolver.ids.Keys == old(resolver.ids.Keys) + {Ref(Rules, r.name)}
    {
      AllInBoth(resolver.ids.Keys, Given(Principals, r.createdBy), BindingNeeds(r));
      missing := ResolveAll(Given(Principals, r.createdBy));
      if missing.Some? { return; }
      var id: string := *;
      Enter(Ref(Rules, r.name), false, id);
      missing := ResolveAll(BindingNeeds(r));
    }

    method LoadRules(doc: Document) returns (missing: Option<Ref>)
      requires Valid()
      modifies this, resolver
      ensures Valid() && errors == old(errors)
      ensures missing.None? <==> RulesResolve(doc, old(resolver.ids.Keys), |doc.rules|)
      ensures missing.None? ==> resolver.ids.Keys == old(resolver.ids.Keys) + Entries(Rules, NamesIn(doc, Rules))
      ensures missing.Some? ==> StopsAtRule(doc, old(resolver.ids.Keys), missing, resolver.ids.Keys)
    {
      var names := NamesIn(doc, Rules);
      ghost var keys := resolver.ids.Keys;
      for n := 0 to |doc.rules|
        invariant Valid() && errors == old(errors)
        invariant RulesResolve(doc, keys, n)
        invariant resolver.ids.Keys == keys + Entries(Rules, names[..n])
      {
        EntriesGrow(Rules, names, n);
        RulesNeedNoRules(doc, keys, names[..n], n);
        missing := LoadRule(doc.rules[n]);
        if missing.Some? {
          assert StopsAt(doc, keys, missing, resolver.ids.Keys, n);
          return;
        }
      }
      assert names[..|doc.rules|] == names;
      missing := None;
    }

    /** Resolve the owner of an entry. */
    method ResolveOwner(owner: string) returns (missing: Option<Ref>)
      requires resolver.Valid()
      ensures missing == if Ref(Principals, owner) in resolver.ids then None else Some(Ref(Principals, owner))
    {
      var id := resolver.Resolve(Ref(Principals, owner));
      missing := if id.None? then Some(Ref(Principals, owner)) else None;
    }

    /** Environments, pipelines and deployment targets load alike. */
    method LoadOwned(section: Section, specs: seq<OwnedSpec>) returns (missing: Option<Ref>)
      requires Valid() && !section.Principals?
      modifies this, resolver
      ensures Valid() && errors == old(errors)
      ensures missing.None? <==> OwnersIn(old(resolver.ids.Keys), specs)
      ensures missing.None? ==> resolver.ids.Keys == old(resolver.ids.Keys) + Entries(section, OwnedNames(specs))
    {
      hide Entries;
      var names := OwnedNames(specs);
      ghost var keys := resolver.ids.Keys;
      for n := 0 to |specs|
        invariant Valid() && errors == old(errors)
        invariant OwnersIn(keys, specs[..n])
        invariant resolver.ids.Keys == keys + Entries(section, names[..n])
      {
        OwnersInGrow(keys, specs, n);
        EntriesGrow(section, names, n);
        missing := ResolveOwner(specs[n].owner);
        if missing.Some? {
          assert specs[n] in specs;
          return;
        }
        var id: string := *;
        Enter(Ref(section, specs[n].name), false, id);
      }
      assert specs[..|specs|] == specs && names[..|specs|] == names;
      missing := None;
    }

    method LoadSecrets(doc: Document, values: map<string, string>) returns (missing: Option<Ref>)
      requires Valid()
      modifies this, resolver
      ensures Valid()
      ensures missing.None? <==> OwnersIn(old(resolver.ids.Keys), doc.secrets)
      ensures missing.None? ==> resolver.ids.Keys == old(resolver.ids.Keys) + SecretEntries(doc.secrets, values)
      ensures missing.None? ==> errors == old(errors) + WithoutValue(doc.secrets, values)
    {
      hide SecretEntries;
      var specs := doc.secrets;
      ghost var keys := resolver.ids.Keys;
      for n := 0 to |specs|
        invariant Valid()
        invariant OwnersIn(keys, specs[..n])
        invariant resolver.ids.Keys == keys + SecretEntries(specs[..n], values)
        invariant errors == old(errors) + WithoutValue(specs[..n], values)
      {
        OwnersInGrow(keys, specs, n);
        SecretsGrow(specs, values, n);
        missing := ResolveOwner(specs[n].owner);
        if missing.Some? {
          assert specs[n] in specs;
          return;
        }
        if specs[n].name !in values {
          errors := errors + [specs[n].name];
        } else {
          var id: string := *;
          Enter(Ref(Secrets, specs[n].name), false, id);
        }
      }
      assert specs[..|specs|] == specs;
      missing := None;
    }

    method LoadPlugins(doc: Document) returns (missing: Option<Ref>)
      requires Valid()
      modifies this, resolver
      ensures Valid() && errors == old(errors)
      ensures missing.None? <==> PluginsResolve(doc, old(resolver.ids.Keys), |doc.plugins|)
      ensures missing.None? ==> resolver.ids.Keys == old(resolver.ids.Keys) + Entries(Plugins, NamesIn(doc, Plugins))
    {
      hide Entries;
      var names := NamesIn(doc, Plugins);
      ghost var keys := resolver.ids.Keys;
      for n := 0 to |doc.plugins|
        invariant Valid() && errors == old(errors)
        invariant PluginsResolve(doc, keys, n)
        invariant resolver.ids.Keys == keys + Entries(Plugins, names[..n])
      {
        EntriesGrow(Plugins, names, n);
        missing := ResolveAll(PluginNeeds(doc.plugins[n]));
        if missing.Some? {
          return;
        }
        var id: string := *;
        Enter(Ref(Plugins, doc.plugins[n].name), false, id);
      }
      assert names[..|doc.plugins|] == names;
      missing := None;
    }

    method LoadHoldings(doc: Document) returns (missing: Option<Ref>)
      requires Valid()
      modifies this, resolver
      ensures Valid() && errors == old(errors)
      ensures missing.None? <==> HoldingsResolve(doc, old(resolver.ids.Keys))
      ensures missing.None? ==> resolver.ids.Keys == WithHoldings(doc, old(resolver.ids.Keys))
    {
      ghost var keys := resolver.ids.Keys;
      missing := LoadOwned(Environments, doc.environments);
      if missing.Some? { return; }
      OwnersKept(keys, Environments, OwnedNames(doc.environments), doc.pipelines);
      OwnersKept(keys, Environments, OwnedNames(doc.environments), doc.deploymentTargets);
      keys := resolver.ids.Keys;
      missing := LoadOwned(Pipelines, doc.pipelines);
      if missing.Some? { return; }
      OwnersKept(keys, Pipelines, OwnedNames(doc.pipelines), doc.deploymentTargets);
      missing := LoadOwned(DeploymentTargets, doc.deploymentTargets);
    }

    /** The sections after the rules need only principals and scopes. */
    method LoadRest(doc: Document, values: map<string, string>) returns (missing: Option<Ref>)
      requires Valid()
      modifies this, resolver
      ensures Valid()
      ensures RestResolves(doc, old(resolver.ids.Keys)) ==> missing.None?
      ensures missing.None? ==> resolver.ids.Keys == WithRest(doc, values, old(resolver.ids.Keys))
      ensures missing.None? ==> errors == old(errors) + WithoutValue(doc.secrets, values)
    {
      ghost var keys := resolver.ids.Keys;
      missing := LoadHoldings(doc);
      if missing.Some? { return; }
      assert keys <= resolver.ids.Keys;
      missing := LoadSecrets(doc, values);
      if missing.Some? { return; }
      PluginsStillResolve(doc, keys, resolver.ids.Keys);
      missing := LoadPlugins(doc);
    }

    /** The sections the rules may refer to. */
    method LoadBase(doc: Document) returns (missing: Option<Ref>)
      requires Valid() && resolver.ids.Keys == {}
      modifies this, resolver
      ensures Valid() && errors == old(errors)
      ensures Sound(doc) ==> missing.None?
      ensures missing.None? ==> resolver.ids.Keys == BeforeRules(doc)
    {
      LoadPrincipals(doc);
      if Sound(doc) {
        SoundScopesLoad(doc);
      }
      missing := LoadScopes(doc);
      if missing.Some? { return; }
      if Sound(doc) {
        SoundEntriesLoad(doc);
      }
      missing := LoadMemberships(doc);
      if missing.Some? { return; }
      missing := LoadObjects(doc);
    }

    /** All sections, in the order of their dependencies. */
    method LoadSections(doc: Document, values: map<string, string>) returns (missing: Option<Ref>)
      requires Valid() && resolver.ids.Keys == {}
      modifies this, resolver
      ensures Valid()
      ensures Sound(doc) ==> (missing.None? <==> BindingsLoad(doc))
      ensures Sound(doc) && missing.Some? ==> LeftBehind(doc, missing.value, resolver.ids.Keys) && errors == old(errors)
      ensures missing.None? ==> resolver.ids.Keys == Everything(doc, values)
      ensures missing.None? ==> errors == old(errors) + WithoutValue(doc.secrets, values)
    {
      missing := LoadBase(doc);
      if missing.Some? { return; }
      missing := LoadRules(doc);
      if Sound(doc) {
        RulesLoadExactly(doc);
        SoundRestLoads(doc, resolver.ids.Keys);
      }
      if missing.Some? {
        if Sound(doc) {
          var i: nat :| StopsAt(doc, BeforeRules(doc), missing, resolver.ids.Keys, i);
          StoppedRuleIsBlocked(doc, missing.value, resolver.ids.Keys, i);
        }
        return;
      }
      missing := LoadRest(doc, values);
    }
  }

  /** What is registered when the rules are loaded. */
  ghost function BeforeRules(doc: Document): set<Ref> {
    Entries(Principals, NamesIn(doc, Principals)) + Entries(Scopes, NamesIn(doc, Scopes)) + Entries(Objects, NamesIn(doc, Objects))
  }

  ghost predicate HoldingsResolve(doc: Document, keys: set<Ref>) {
    OwnersIn(keys, doc.environments) && OwnersIn(keys, doc.pipelines) && OwnersIn(keys, doc.deploymentTargets)
  }

  ghost function WithHoldings(doc: Document, keys: set<Ref>): set<Ref> {
    keys + Entries(Environments, OwnedNames(doc.environments)) + Entries(Pipelines, OwnedNames(doc.pipelines))
    + Entries(DeploymentTargets, OwnedNames(doc.deploymentTargets))
  }

  lemma PluginsStillResolve(doc: Document, keys: set<Ref>, more: set<Ref>)
    requires keys <= more
    ensures PluginsResolve(doc, keys, |doc.plugins|) ==> PluginsResolve(doc, more, |doc.plugins|)
  {
    if PluginsResolve(doc, keys, |doc.plugins|) {
      forall i | 0 <= i < |doc.plugins| ensures AllIn(more, PluginNeeds(doc.plugins[i])) {
        assert AllIn(keys, PluginNeeds(doc.plugins[i]));
      }
    }
  }

  ghost predicate RulesResolve(doc: Document, keys: set<Ref>, n: nat)
    requires n <= |doc.rules|
  {
    forall i | 0 <= i < n :: AllIn(keys, RuleNeeds(doc.rules[i]))
  }

  /** Loading stops at rule `i`: those before it resolve and it does not.  A rule whose creator resolves is
      registered before its bindings are looked up. */
  ghost predicate StopsAt(doc: Document, keys: set<Ref>, missing: Option<Ref>, left: set<Ref>, i: nat) {
    && i < |doc.rules| && RulesResolve(doc, keys, i) && Lacks(keys, RuleNeeds(doc.rules[i]), missing)
    && (AllIn(keys, Given(Principals, doc.rules[i].createdBy)) ==> left == keys + Entries(Rules, NamesIn(doc, Rules)[..i + 1]))
  }

  ghost predicate StopsAtRule(doc: Document, keys: set<Ref>, missing: Option<Ref>, left: set<Ref>) {
    exists i: nat :: StopsAt(doc, keys, missing, left, i)
  }

  lemma RulesNeedNoRules(doc: Document, keys: set<Ref>, names: seq<string>, n: nat)
    requires n < |doc.rules|
    ensures RulesResolve(doc, keys, n + 1) <==>
      RulesResolve(doc, keys, n) && AllIn(keys + Entries(Rules, names), RuleNeeds(doc.rules[n]))
    ensures !AllIn(keys + Entries(Rules, names), RuleNeeds(doc.rules[n])) ==> !RulesResolve(doc, keys, |doc.rules|)
  {
    OtherSection(keys, Rules, names, RuleNeeds(doc.rules[n]));
  }

  ghost predicate PluginsResolve(doc: Document, keys: set<Ref>, n: nat)
    requires n <= |doc.plugins|
  {
    forall i | 0 <= i < n :: AllIn(keys, PluginNeeds(doc.plugins[i]))
  }

  function ScopeEntries(scopes: seq<ScopeSpec>): set<Ref> {
    set s | s in scopes :: Ref(Scopes, s.name)
  }

  ghost predicate ScopesLoadable(doc: Document, keys: set<Ref>) {
    && Distinct(NamesIn(doc, Scopes)) && Acyclic(ParentMap(doc.scopes))
    && forall s | s in doc.scopes :: Ref(Principals, s.owner) in keys && (s.parent.Some? ==> Names(doc, Ref(Scopes, s.parent.value)))
  }

  ghost predicate RestResolves(doc: Document, keys: set<Ref>) {
    HoldingsResolve(doc, keys) && OwnersIn(keys, doc.secrets) && PluginsResolve(doc, keys, |doc.plugins|)
  }

  ghost function WithRest(doc: Document, values: map<string, string>, keys: set<Ref>): set<Ref> {
    WithHoldings(doc, keys) + SecretEntries(doc.secrets, values) + Entries(Plugins, NamesIn(doc, Plugins))
  }

  lemma FollowedParentsAreParents(doc: Document)
    requires Distinct(NamesIn(doc, Scopes)) && Acyclic(ParentMap(doc.scopes))
    ensures Acyclic(FollowedParents(ByName(doc.scopes)))
  {
    var followed, parents := FollowedParents(ByName(doc.scopes)), ParentMap(doc.scopes);
    ByNameMeaning(doc.scopes);
    ParentMapMeaning(doc.scopes);
    forall n | n in followed ensures n in parents && parents[n] == followed[n] {
      var s := ByName(doc.scopes)[n];
      assert s in doc.scopes && s.parent.Some?;
      var t :| t in doc.scopes && t.name == n && t.parent == Some(parents[n]);
      var i :| 0 <= i < |doc.scopes| && doc.scopes[i] == s;
      var j :| 0 <= j < |doc.scopes| && doc.scopes[j] == t;
      assert NamesIn(doc, Scopes)[i] == NamesIn(doc, Scopes)[j];
    }
    FewerParentsStayAcyclic(followed, parents);
  }

  /** When its turn comes, all that a scope needs has been registered. */
  lemma SortedScopeResolves(doc: Document, keys: set<Ref>, ordered: seq<ScopeSpec>, n: nat)
    requires ScopesLoadable(doc, keys) && n < |ordered| && Picks(ByName(doc.scopes), ordered)
    requires Acyclic(FollowedParents(ByName(doc.scopes))) ==> ParentsFirst(ByName(doc.scopes), ordered)
    ensures AllIn(keys + ScopeEntries(ordered[..n]), ScopeNeeds(ordered[n]))
  {
    var s, byName := ordered[n], ByName(doc.scopes);
    FollowedParentsAreParents(doc);
    ByNameMeaning(doc.scopes);
    assert s in ordered && s in doc.scopes;
    if s.parent.Some? && s.parent.value != "" {
      var i :| 0 <= i < |doc.scopes| && NamesIn(doc, Scopes)[i] == s.parent.value;
      assert doc.scopes[i] in doc.scopes && ParentOf(byName, s).Some?;
      assert Placed(ordered[..n], s.parent.value);
      var p :| p in ordered[..n] && p.name == s.parent.value;
    }
  }

  lemma SortedEntries(scopes: seq<ScopeSpec>, ordered: seq<ScopeSpec>, names: seq<string>)
    requires Picks(ByName(scopes), ordered)
    requires forall i | 0 <= i < |scopes| :: Placed(ordered, scopes[i].name)
    requires |names| == |scopes| && forall i | 0 <= i < |scopes| :: names[i] == scopes[i].name
    ensures ScopeEntries(ordered) == Entries(Scopes, names)
  {
    ByNameMeaning(scopes);
    forall r | r in ScopeEntries(ordered) ensures r in Entries(Scopes, names) {
      var s :| s in ordered && r == Ref(Scopes, s.name);
      var i :| 0 <= i < |scopes| && scopes[i] == s;
      assert names[i] == s.name;
    }
    forall r | r in Entries(Scopes, names) ensures r in ScopeEntries(ordered) {
      var i :| 0 <= i < |names| && names[i] == r.name;
      assert Placed(ordered, scopes[i].name);
    }
  }

  /** Whether a binding's target will have been loaded by the time its rule is. */
  predicate BindingLoads(doc: Document, b: BindingSpec) {
    IsChecked(b) || (b.targetType != "environment" && Names(doc, Ref(Scopes, b.target)))
  }

  predicate BindingsLoad(doc: Document) {
    forall i, j | 0 <= i < |doc.rules| && 0 <= j < |doc.rules[i].bindTo| :: BindingLoads(doc, doc.rules[i].bindTo[j])
  }

  /** All bindings of a rule load. */
  predicate RuleLoads(doc: Document, i: nat)
    requires i < |doc.rules|
  {
    forall j | 0 <= j < |doc.rules[i].bindTo| :: BindingLoads(doc, doc.rules[i].bindTo[j])
  }

  /** `r` is what a binding of rule `i` refers to, and cannot be loaded. */
  ghost predicate BlocksRule(doc: Document, i: nat, r: Ref)
    requires i < |doc.rules|
  {
    exists j :: 0 <= j < |doc.rules[i].bindTo|
      && !BindingLoads(doc, doc.rules[i].bindTo[j]) && r == BindingRef(doc.rules[i].bindTo[j])
  }

  /** `i` is the first rule that does not load; `r` is what stops it. */
  ghost predicate FirstBlocked(doc: Document, r: Ref, i: nat) {
    i < |doc.rules| && BlocksRule(doc, i, r) && forall k | 0 <= k < i :: RuleLoads(doc, k)
  }

  /** What a stopped load leaves registered: principals, scopes, objects, and the rules up to and including
      the one that is blocked. */
  ghost predicate LeftBehind(doc: Document, r: Ref, keys: set<Ref>) {
    exists i: nat :: FirstBlocked(doc, r, i) && keys == BeforeRules(doc) + Entries(Rules, NamesIn(doc, Rules)[..i + 1])
  }

  ghost function Everything(doc: Document, values: map<string, string>): set<Ref> {
    WithRest(doc, values, BeforeRules(doc) + Entries(Rules, NamesIn(doc, Rules)))
  }

  /** A full load registers every name of the manifest, secrets only where a value was given. */
  lemma EverythingMeaning(doc: Document, values: map<string, string>, r: Ref)
    ensures r in Everything(doc, values) <==> Names(doc, r) && (r.section.Secrets? ==> r.name in values)
  {
    if r.section.Secrets? && Names(doc, r) {
      var i :| 0 <= i < |doc.secrets| && NamesIn(doc, Secrets)[i] == r.name;
      assert doc.secrets[i] in doc.secrets;
    }
    if r.section.Secrets? && r in Everything(doc, values) {
      var s :| s in doc.secrets && s.name in values && r == Ref(Secrets, s.name);
      var i :| 0 <= i < |doc.secrets| && doc.secrets[i] == s;
      assert NamesIn(doc, Secrets)[i] == r.name;
    }
  }

  lemma SoundScopesLoad(doc: Document)
    requires Sound(doc)
    ensures ScopesLoadable(doc, Entries(Principals, NamesIn(doc, Principals)))
  {
    forall s | s in doc.scopes
      ensures Names(doc, Ref(Principals, s.owner)) && (s.parent.Some? ==> Names(doc, Ref(Scopes, s.parent.value)))
    {
      assert AllNamed(doc, ScopeRefs(s));
      assert Ref(Principals, s.owner) in ScopeRefs(s);
      assert s.parent.Some? ==> Ref(Scopes, s.parent.value) in ScopeRefs(s);
    }
  }

  lemma {:induction false} OwnerIsOfNamedScope(scopes: seq<ScopeSpec>, name: string)
    requires exists i :: 0 <= i < |scopes| && scopes[i].name == name
    ensures exists s :: s in scopes && s.name == name && s.owner == OwnerOf(scopes, name)
  {
    if scopes[0].name == name {
      assert scopes[0] in scopes;
    } else {
      var i :| 0 <= i < |scopes| && scopes[i].name == name;
      assert scopes[1..][i - 1].name == name;
      OwnerIsOfNamedScope(scopes[1..], name);
      var s :| s in scopes[1..] && s.name == name && s.owner == OwnerOf(scopes[1..], name);
      assert s in scopes;
    }
  }

  lemma SoundMembershipLoads(doc: Document, m: MembershipSpec)
    requires Sound(doc) && m in doc.memberships
    ensures forall r | r in MembershipNeeds(doc, m) :: Names(doc, r)
  {
    assert AllNamed(doc, MembershipRefs(m));
    assert Names(doc, Ref(Scopes, m.scope)) && Names(doc, Ref(Principals, m.principal)) by {
      assert Ref(Scopes, m.scope) in MembershipRefs(m) && Ref(Principals, m.principal) in MembershipRefs(m);
    }
    if m.grantedBy != "" {
      assert Ref(Principals, m.grantedBy) in MembershipRefs(m);
    } else {
      var i :| 0 <= i < |doc.scopes| && NamesIn(doc, Scopes)[i] == m.scope;
      OwnerIsOfNamedScope(doc.scopes, m.scope);
      var s :| s in doc.scopes && s.name == m.scope && s.owner == OwnerOf(doc.scopes, m.scope);
      assert AllNamed(doc, ScopeRefs(s)) && Ref(Principals, s.owner) in ScopeRefs(s);
    }
  }

  lemma SoundObjectLoads(doc: Document, o: ObjectSpec)
    requires Sound(doc) && o in doc.objects
    ensures forall r | r in ObjectNeeds(o) :: Names(doc, r)
  {
    assert AllNamed(doc, ObjectRefs(o));
    forall r | r in ObjectNeeds(o) ensures Names(doc, r) {
      if r in ProjectionNeeds(o) {
        var i :| 0 <= i < |o.projectInto| && ProjectionNeeds(o)[i] == r;
        assert o.projectInto[i] in o.projectInto;
      }
      assert r in ObjectRefs(o);
    }
  }

  lemma SoundEntriesLoad(doc: Document)
    requires Sound(doc)
    ensures forall m | m in doc.memberships ::
      AllIn(Entries(Principals, NamesIn(doc, Principals)) + Entries(Scopes, NamesIn(doc, Scopes)), MembershipNeeds(doc, m))
    ensures forall i | 0 <= i < |doc.objects| ::
      AllIn(Entries(Principals, NamesIn(doc, Principals)) + Entries(Scopes, NamesIn(doc, Scopes)), ObjectNeeds(doc.objects[i]))
  {
    forall m | m in doc.memberships
      ensures AllIn(Entries(Principals, NamesIn(doc, Principals)) + Entries(Scopes, NamesIn(doc, Scopes)), MembershipNeeds(doc, m))
    {
      SoundMembershipLoads(doc, m);
    }
    forall i | 0 <= i < |doc.objects|
      ensures AllIn(Entries(Principals, NamesIn(doc, Principals)) + Entries(Scopes, NamesIn(doc, Scopes)), ObjectNeeds(doc.objects[i]))
    {
      assert doc.objects[i] in doc.objects;
      SoundObjectLoads(doc, doc.objects[i]);
    }
  }

  lemma BindingResolves(doc: Document, i: nat, j: nat)
    requires Sound(doc) && i < |doc.rules| && j < |doc.rules[i].bindTo|
    ensures BindingRef(doc.rules[i].bindTo[j]) in BeforeRules(doc) <==> BindingLoads(doc, doc.rules[i].bindTo[j])
  {
    var rule, b := doc.rules[i], doc.rules[i].bindTo[j];
    assert rule in doc.rules && b in rule.bindTo;
    if IsChecked(b) {
      assert AllNamed(doc, RuleRefs(rule)) && BindingRef(b) in RuleRefs(rule);
    }
  }

  lemma CreatorResolves(doc: Document, i: nat)
    requires Sound(doc) && i < |doc.rules|
    ensures AllIn(BeforeRules(doc), Given(Principals, doc.rules[i].createdBy))
  {
    var rule := doc.rules[i];
    assert rule in doc.rules && AllNamed(doc, RuleRefs(rule));
    if rule.createdBy != "" {
      assert Ref(Principals, rule.createdBy) in RuleRefs(rule);
    }
  }

  lemma RuleLoadsExactly(doc: Document, i: nat)
    requires Sound(doc) && i < |doc.rules|
    ensures AllIn(BeforeRules(doc), RuleNeeds(doc.rules[i])) <==> RuleLoads(doc, i)
  {
    var rule := doc.rules[i];
    CreatorResolves(doc, i);
    AllInBoth(BeforeRules(doc), Given(Principals, rule.createdBy), BindingNeeds(rule));
    forall j | 0 <= j < |rule.bindTo|
      ensures BindingNeeds(rule)[j] in BindingNeeds(rule)
      ensures BindingNeeds(rule)[j] in BeforeRules(doc) <==> BindingLoads(doc, rule.bindTo[j])
    {
      BindingResolves(doc, i, j);
    }
  }

  /** In a sound manifest the rules load exactly when no binding names an environment, and bindings of
      an unknown type name a scope. */
  lemma RulesLoadExactly(doc: Document)
    requires Sound(doc)
    ensures RulesResolve(doc, BeforeRules(doc), |doc.rules|) <==> BindingsLoad(doc)
  {
    forall i | 0 <= i < |doc.rules| ensures AllIn(BeforeRules(doc), RuleNeeds(doc.rules[i])) <==> RuleLoads(doc, i) {
      RuleLoadsExactly(doc, i);
    }
    assert BindingsLoad(doc) <==> forall i | 0 <= i < |doc.rules| :: RuleLoads(doc, i);
  }

  lemma MissingBlocksRule(doc: Document, i: nat, r: Ref)
    requires Sound(doc) && i < |doc.rules| && Lacks(BeforeRules(doc), RuleNeeds(doc.rules[i]), Some(r))
    ensures BlocksRule(doc, i, r)
  {
    CreatorResolves(doc, i);
    assert r in BindingNeeds(doc.rules[i]);
    var j :| 0 <= j < |doc.rules[i].bindTo| && BindingNeeds(doc.rules[i])[j] == r;
    BindingResolves(doc, i, j);
  }

  lemma StoppedRuleIsBlocked(doc: Document, r: Ref, left: set<Ref>, i: nat)
    requires Sound(doc) && StopsAt(doc, BeforeRules(doc), Some(r), left, i)
    ensures LeftBehind(doc, r, left)
  {
    MissingBlocksRule(doc, i, r);
    CreatorResolves(doc, i);
    forall k | 0 <= k < i ensures RuleLoads(doc, k) {
      RuleLoadsExactly(doc, k);
    }
    assert FirstBlocked(doc, r, i);
  }

  lemma SoundRestLoads(doc: Document, keys: set<Ref>)
    requires Sound(doc)
    ensures BeforeRules(doc) <= keys ==> RestResolves(doc, keys)
  {
    if BeforeRules(doc) <= keys {
      forall i | 0 <= i < |doc.plugins| ensures AllIn(keys, PluginNeeds(doc.plugins[i])) {
        var p := doc.plugins[i];
        assert p in doc.plugins && AllNamed(doc, PluginRefs(p));
        forall r | r in PluginNeeds(p) ensures r in BeforeRules(doc) {
          assert r in PluginRefs(p);
        }
      }
    }
  }

  /** The validator accepts a rule bound to a declared environment; loading it always stops. */
  lemma AcceptedButUnloadable() returns (doc: Document)
    ensures Sound(doc) && FirstBlocked(doc, Ref(Environments, "staging"), 0) && Names(doc, Ref(Environments, "staging"))
  {
    doc := Document([PrincipalSpec("ops", "user", "Ops")], [], [], [],
                    [RuleSpec("guard", "ops", [BindingSpec("environment", "staging")])],
                    [OwnedSpec("staging", "ops")], [], [], [], []);
    assert NamesIn(doc, Principals)[0] == "ops" && NamesIn(doc, Environments)[0] == "staging";
    assert !BindingLoads(doc, doc.rules[0].bindTo[0]);
    forall name ensures !OnCycle(ParentMap(doc.scopes), name) {
      forall k: nat | k >= 1 ensures Climb(ParentMap(doc.scopes), name, k).None? {
      }
    }
  }

  predicate Accounted(result: ManifestResult, r: Ref) {
    r in result.ids <==> Entity(r) in result.created || Entity(r) in result.skipped
  }

  /** `load`: refused as invalid exactly when unsound; a sound manifest loads completely exactly when all
      its rule bindings can.  Otherwise it stops at the first rule that is blocked, and what has been
      created until then, that rule included, stays. */
  method Load(doc: Document, values: map<string, string>, dryRun: bool) returns (result: Result<ManifestResult, Failure>)
    ensures result.Err? && result.error.Invalid? <==> !Sound(doc)
    ensures Sound(doc) ==> (result.Ok? <==> dryRun || BindingsLoad(doc))
    ensures result.Ok? && dryRun ==> result.value == ManifestResult([], [], [], map[])
    ensures result.Ok? && !dryRun ==>
      && result.value.ids.Keys == Everything(doc, values)
      && result.value.errors == WithoutValue(doc.secrets, values)
      && forall r :: Accounted(result.value, r)
    ensures result.Err? && result.error.Unresolved? ==>
      && LeftBehind(doc, result.error.ref, result.error.left.ids.Keys) && result.error.left.errors == []
      && forall r :: Accounted(result.error.left, r)
    ensures result.Err? && result.error.Unresolved? ==> result.error.left.created + result.error.left.skipped != []
  {
    var problems := ManifestValidator.ValidateManifest(doc);
    if problems != [] {
      return Err(Invalid(problems));
    }
    if dryRun {
      return Ok(ManifestResult([], [], [], map[]));
    }
    var loader := new ManifestLoader();
    var missing := loader.LoadSections(doc, values);
    var reached := ManifestResult(loader.created, loader.skipped, loader.errors, loader.resolver.ids);
    if missing.Some? {
      SomethingLeft(doc, missing.value, reached);
      return Err(Unresolved(missing.value, reached));
    }
    return Ok(reached);
  }

  lemma SomethingLeft(doc: Document, r: Ref, left: ManifestResult)
    requires LeftBehind(doc, r, left.ids.Keys) && forall x :: Accounted(left, x)
    ensures left.created + left.skipped != []
  {
    var i: nat :| FirstBlocked(doc, r, i) && left.ids.Keys == BeforeRules(doc) + Entries(Rules, NamesIn(doc, Rules)[..i + 1]);
    var rule := Ref(Rules, doc.rules[i].name);
    assert NamesIn(doc, Rules)[..i + 1][i] == rule.name;
    assert rule in left.ids && Accounted(left, rule);
    assert Entity(rule) in left.created + left.skipped;
  }
}
