/** What a sound manifest, and one that loads, look like entry by entry. */
module ManifestAnswers {
  import opened Wrappers
  import opened ParentChains
  import opened ManifestSchema
  import ManifestLoader

  ghost predicate IsPrincipal(doc: Document, name: string) {
    exists p :: p in doc.principals && p.name == name
  }

  ghost predicate IsScope(doc: Document, name: string) {
    exists s :: s in doc.scopes && s.name == name
  }

  ghost predicate IsObject(doc: Document, name: string) {
    exists o :: o in doc.objects && o.name == name
  }

  ghost predicate IsRule(doc: Document, name: string) {
    exists r :: r in doc.rules && r.name == name
  }

  ghost predicate IsPlugin(doc: Document, name: string) {
    exists p :: p in doc.plugins && p.name == name
  }

  ghost predicate IsOwned(specs: seq<OwnedSpec>, name: string) {
    exists s :: s in specs && s.name == name
  }

  /** A section holds the names of its entries. */
  lemma NamesExactly(doc: Document, r: Ref)
    ensures Names(doc, r) <==> match r.section
      case Principals => IsPrincipal(doc, r.name)
      case Scopes => IsScope(doc, r.name)
      case Objects => IsObject(doc, r.name)
      case Rules => IsRule(doc, r.name)
      case Environments => IsOwned(doc.environments, r.name)
      case Pipelines => IsOwned(doc.pipelines, r.name)
      case DeploymentTargets => IsOwned(doc.deploymentTargets, r.name)
      case Secrets => IsOwned(doc.secrets, r.name)
      case Plugins => IsPlugin(doc, r.name)
  {
    var names := NamesIn(doc, r.section);
    match r.section
    case Principals => assert forall i | 0 <= i < |names| :: names[i] == doc.principals[i].name && doc.principals[i] in doc.principals;
    case Scopes => assert forall i | 0 <= i < |names| :: names[i] == doc.scopes[i].name && doc.scopes[i] in doc.scopes;
    case Objects => assert forall i | 0 <= i < |names| :: names[i] == doc.objects[i].name && doc.objects[i] in doc.objects;
    case Rules => assert forall i | 0 <= i < |names| :: names[i] == doc.rules[i].name && doc.rules[i] in doc.rules;
    case Environments => OwnedExactly(doc.environments, r.name);
    case Pipelines => OwnedExactly(doc.pipelines, r.name);
    case DeploymentTargets => OwnedExactly(doc.deploymentTargets, r.name);
    case Secrets => OwnedExactly(doc.secrets, r.name);
    case Plugins => assert forall i | 0 <= i < |names| :: names[i] == doc.plugins[i].name && doc.plugins[i] in doc.plugins;
  }

  lemma OwnedExactly(specs: seq<OwnedSpec>, name: string)
    ensures name in OwnedNames(specs) <==> IsOwned(specs, name)
  {
    assert forall i | 0 <= i < |specs| :: OwnedNames(specs)[i] == specs[i].name && specs[i] in specs;
  }

  /** The target of a binding exists, as far as its type is one of the three that are looked at. */
  ghost predicate BindingInOrder(doc: Document, b: BindingSpec) {
    && (b.targetType == "scope" ==> IsScope(doc, b.target))
    && (b.targetType == "principal" ==> IsPrincipal(doc, b.target))
    && (b.targetType == "object" ==> IsObject(doc, b.target))
  }

  ghost predicate RuleInOrder(doc: Document, r: RuleSpec) {
    (r.createdBy != "" ==> IsPrincipal(doc, r.createdBy)) && forall b | b in r.bindTo :: BindingInOrder(doc, b)
  }

  ghost predicate OwnersInOrder(doc: Document, specs: seq<OwnedSpec>) {
    forall s | s in specs :: IsPrincipal(doc, s.owner)
  }

  ghost predicate ScopeInOrder(doc: Document, s: ScopeSpec) {
    IsPrincipal(doc, s.owner) && (s.parent.Some? ==> IsScope(doc, s.parent.value))
  }

  ghost predicate MembershipInOrder(doc: Document, m: MembershipSpec) {
    IsScope(doc, m.scope) && IsPrincipal(doc, m.principal) && (m.grantedBy != "" ==> IsPrincipal(doc, m.grantedBy))
  }

  ghost predicate ObjectInOrder(doc: Document, o: ObjectSpec) {
    IsPrincipal(doc, o.owner) && forall name | name in o.projectInto :: IsScope(doc, name)
  }

  ghost predicate PluginInOrder(doc: Document, p: PluginSpec) {
    IsPrincipal(doc, p.owner) && (p.scope.Some? ==> IsScope(doc, p.scope.value))
  }

  lemma ScopeRefsExactly(doc: Document, s: ScopeSpec)
    ensures AllNamed(doc, ScopeRefs(s)) <==> ScopeInOrder(doc, s)
  {
    hide Names, IsScope, IsPrincipal;
    NamesExactly(doc, Ref(Principals, s.owner));
    if s.parent.Some? { NamesExactly(doc, Ref(Scopes, s.parent.value)); }
    assert Ref(Principals, s.owner) in ScopeRefs(s) && (s.parent.Some? ==> Ref(Scopes, s.parent.value) in ScopeRefs(s));
  }

  lemma MembershipRefsExactly(doc: Document, m: MembershipSpec)
    ensures AllNamed(doc, MembershipRefs(m)) <==> MembershipInOrder(doc, m)
  {
    hide Names, IsScope, IsPrincipal;
    NamesExactly(doc, Ref(Scopes, m.scope));
    NamesExactly(doc, Ref(Principals, m.principal));
    NamesExactly(doc, Ref(Principals, m.grantedBy));
    assert Ref(Scopes, m.scope) in MembershipRefs(m) && Ref(Principals, m.principal) in MembershipRefs(m);
    assert m.grantedBy != "" ==> Ref(Principals, m.grantedBy) in MembershipRefs(m);
  }

  lemma ObjectRefsExactly(doc: Document, o: ObjectSpec)
    ensures AllNamed(doc, ObjectRefs(o)) <==> ObjectInOrder(doc, o)
  {
    hide Names, IsScope, IsPrincipal;
    NamesExactly(doc, Ref(Principals, o.owner));
    assert Ref(Principals, o.owner) in ObjectRefs(o);
    forall name | name in o.projectInto ensures Names(doc, Ref(Scopes, name)) <==> IsScope(doc, name) {
      NamesExactly(doc, Ref(Scopes, name));
    }
    assert forall name | name in o.projectInto :: Ref(Scopes, name) in ObjectRefs(o);
  }

  lemma BindingExactly(doc: Document, b: BindingSpec)
    ensures (IsChecked(b) ==> Names(doc, BindingRef(b))) <==> BindingInOrder(doc, b)
  {
    NamesExactly(doc, Ref(Scopes, b.target));
    NamesExactly(doc, Ref(Principals, b.target));
    NamesExactly(doc, Ref(Objects, b.target));
  }

  lemma RuleRefsExactly(doc: Document, r: RuleSpec)
    ensures AllNamed(doc, RuleRefs(r)) <==> RuleInOrder(doc, r)
  {
    hide Names, IsScope, IsPrincipal, IsObject, BindingInOrder, BindingRef, IsChecked;
    NamesExactly(doc, Ref(Principals, r.createdBy));
    forall b | b in r.bindTo ensures (IsChecked(b) ==> Names(doc, BindingRef(b))) <==> BindingInOrder(doc, b) {
      BindingExactly(doc, b);
    }
    assert r.createdBy != "" ==> Ref(Principals, r.createdBy) in RuleRefs(r);
    assert forall b | b in r.bindTo && IsChecked(b) :: BindingRef(b) in RuleRefs(r);
  }

  lemma PluginRefsExactly(doc: Document, p: PluginSpec)
    ensures AllNamed(doc, PluginRefs(p)) <==> PluginInOrder(doc, p)
  {
    hide Names, IsScope, IsPrincipal;
    NamesExactly(doc, Ref(Principals, p.owner));
    if p.scope.Some? { NamesExactly(doc, Ref(Scopes, p.scope.value)); }
    assert Ref(Principals, p.owner) in PluginRefs(p) && (p.scope.Some? ==> Ref(Scopes, p.scope.value) in PluginRefs(p));
  }

  lemma OwnersExactly(doc: Document, specs: seq<OwnedSpec>)
    ensures OwnersNamed(doc, specs) <==> OwnersInOrder(doc, specs)
  {
    forall s | s in specs ensures Names(doc, Ref(Principals, s.owner)) <==> IsPrincipal(doc, s.owner) {
      NamesExactly(doc, Ref(Principals, s.owner));
    }
  }

  /** The references of a sound manifest, said on its entries: every owner, member, granter and creator is
      a declared principal, every parent, membership, projection and plugin scope a declared scope, and
      each checked binding names an entry of its own kind. */
  lemma ReferencesExactly(doc: Document)
    ensures RefsNamed(doc) <==>
      && (forall s | s in doc.scopes :: ScopeInOrder(doc, s))
      && (forall m | m in doc.memberships :: MembershipInOrder(doc, m))
      && (forall o | o in doc.objects :: ObjectInOrder(doc, o))
      && (forall r | r in doc.rules :: RuleInOrder(doc, r))
      && OwnersInOrder(doc, doc.environments) && OwnersInOrder(doc, doc.pipelines)
      && OwnersInOrder(doc, doc.deploymentTargets) && OwnersInOrder(doc, doc.secrets)
      && (forall p | p in doc.plugins :: PluginInOrder(doc, p))
  {
    hide AllNamed, ScopeInOrder, MembershipInOrder, ObjectInOrder, RuleInOrder, PluginInOrder, OwnersNamed, OwnersInOrder;
    hide ScopeRefs, MembershipRefs, ObjectRefs, RuleRefs, PluginRefs;
    forall s | s in doc.scopes ensures AllNamed(doc, ScopeRefs(s)) <==> ScopeInOrder(doc, s) { ScopeRefsExactly(doc, s); }
    forall m | m in doc.memberships ensures AllNamed(doc, MembershipRefs(m)) <==> MembershipInOrder(doc, m) { MembershipRefsExactly(doc, m); }
    forall o | o in doc.objects ensures AllNamed(doc, ObjectRefs(o)) <==> ObjectInOrder(doc, o) { ObjectRefsExactly(doc, o); }
    forall r | r in doc.rules ensures AllNamed(doc, RuleRefs(r)) <==> RuleInOrder(doc, r) { RuleRefsExactly(doc, r); }
    forall p | p in doc.plugins ensures AllNamed(doc, PluginRefs(p)) <==> PluginInOrder(doc, p) { PluginRefsExactly(doc, p); }
    OwnersExactly(doc, doc.environments);
    OwnersExactly(doc, doc.pipelines);
    OwnersExactly(doc, doc.deploymentTargets);
    OwnersExactly(doc, doc.secrets);
  }

  /** Of the bindings of a sound manifest those to scopes, principals and objects load; one to an
      environment never does, and any other only if its target happens to be a scope. */
  lemma BindingLoadsExactly(doc: Document, b: BindingSpec)
    ensures ManifestLoader.BindingLoads(doc, b) <==>
      || b.targetType in {"scope", "principal", "object"}
      || (b.targetType != "environment" && IsScope(doc, b.target))
    ensures BindingRef(b) == Ref(if b.targetType == "principal" then Principals
                                 else if b.targetType == "object" then Objects
                                 else if b.targetType == "environment" then Environments
                                 else Scopes, b.target)
  {
    NamesExactly(doc, Ref(Scopes, b.target));
  }

  // ---------------------------------------------------------------------------------------------
  // What is looked up while an entry is loaded
  // ---------------------------------------------------------------------------------------------

  lemma ScopeLooksUp(s: ScopeSpec, r: Ref)
    ensures r in ManifestLoader.ScopeNeeds(s) <==>
      r == Ref(Principals, s.owner) || (s.parent.Some? && s.parent.value != "" && r == Ref(Scopes, s.parent.value))
  {
  }

  /** A membership looks up its scope, its principal and its granter; without a granter, the owner of the
      first scope of that name. */
  lemma MembershipLooksUp(doc: Document, m: MembershipSpec, r: Ref)
    ensures m.grantedBy != "" ==>
      (r in ManifestLoader.MembershipNeeds(doc, m) <==> r in {Ref(Scopes, m.scope), Ref(Principals, m.principal), Ref(Principals, m.grantedBy)})
    ensures m.grantedBy == "" ==> forall i | 0 <= i < |doc.scopes| ::
      doc.scopes[i].name == m.scope && (forall j | 0 <= j < i :: doc.scopes[j].name != m.scope) ==>
        (r in ManifestLoader.MembershipNeeds(doc, m) <==> r in {Ref(Scopes, m.scope), Ref(Principals, m.principal), Ref(Principals, doc.scopes[i].owner)})
  {
    forall i | 0 <= i < |doc.scopes| && doc.scopes[i].name == m.scope && (forall j | 0 <= j < i :: doc.scopes[j].name != m.scope)
      ensures ManifestLoader.OwnerOf(doc.scopes, m.scope) == doc.scopes[i].owner
    {
      FirstOwner(doc.scopes, m.scope, i);
    }
  }

  lemma {:induction false} FirstOwner(scopes: seq<ScopeSpec>, name: string, i: nat)
    requires i < |scopes| && scopes[i].name == name && forall j | 0 <= j < i :: scopes[j].name != name
    ensures ManifestLoader.OwnerOf(scopes, name) == scopes[i].owner
    decreases i
  {
    if i > 0 {
      FirstOwner(scopes[1..], name, i - 1);
    }
  }

  lemma ObjectLooksUp(o: ObjectSpec, r: Ref)
    ensures r in ManifestLoader.ObjectNeeds(o) <==>
      r == Ref(Principals, o.owner) || (r.section == Scopes && r.name in o.projectInto)
  {
    var needs := ManifestLoader.ProjectionNeeds(o);
    assert forall i | 0 <= i < |needs| :: needs[i] == Ref(Scopes, o.projectInto[i]);
  }

  lemma RuleLooksUp(u: RuleSpec, r: Ref)
    ensures r in ManifestLoader.RuleNeeds(u) <==>
      (u.createdBy != "" && r == Ref(Principals, u.createdBy)) || exists b :: b in u.bindTo && r == BindingRef(b)
  {
    var needs := ManifestLoader.BindingNeeds(u);
    assert forall i | 0 <= i < |needs| :: needs[i] == BindingRef(u.bindTo[i]) && u.bindTo[i] in u.bindTo;
  }

  lemma PluginLooksUp(p: PluginSpec, r: Ref)
    ensures r in ManifestLoader.PluginNeeds(p) <==>
      r == Ref(Principals, p.owner) || (p.scope.Some? && p.scope.value != "" && r == Ref(Scopes, p.scope.value))
  {
  }
}
