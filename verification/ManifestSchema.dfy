/** The parts of a manifest that name one another (`legacy/v1/scoped/manifest/schema.py`), and what it
    means for those names to be in order. */
module ManifestSchema {
  import opened Wrappers
  import opened ParentChains

  datatype Section =
    Principals | Scopes | Objects | Rules | Environments | Pipelines | DeploymentTargets | Secrets | Plugins

  /** A name together with the section it is looked up in. */
  datatype Ref = Ref(section: Section, name: string)

  datatype PrincipalSpec = PrincipalSpec(name: string, kind: string, displayName: string)
  datatype ScopeSpec = ScopeSpec(name: string, owner: string, parent: Option<string>)
  datatype MembershipSpec = MembershipSpec(scope: string, principal: string, grantedBy: string)
  datatype ObjectSpec = ObjectSpec(name: string, owner: string, projectInto: seq<string>)
  datatype BindingSpec = BindingSpec(targetType: string, target: string)
  datatype RuleSpec = RuleSpec(name: string, createdBy: string, bindTo: seq<BindingSpec>)
  /** An environment, a pipeline, a deployment target or a secret. */
  datatype OwnedSpec = OwnedSpec(name: string, owner: string)
  datatype PluginSpec = PluginSpec(name: string, owner: string, scope: Option<string>)

  datatype Document = Document(
    principals: seq<PrincipalSpec>,
    scopes: seq<ScopeSpec>,
    memberships: seq<MembershipSpec>,
    objects: seq<ObjectSpec>,
    rules: seq<RuleSpec>,
    environments: seq<OwnedSpec>,
    pipelines: seq<OwnedSpec>,
    deploymentTargets: seq<OwnedSpec>,
    secrets: seq<OwnedSpec>,
    plugins: seq<PluginSpec>)

  function NamesIn(doc: Document, section: Section): seq<string> {
    match section
    case Principals => seq(|doc.principals|, i requires 0 <= i < |doc.principals| => doc.principals[i].name)
    case Scopes => seq(|doc.scopes|, i requires 0 <= i < |doc.scopes| => doc.scopes[i].name)
    case Objects => seq(|doc.objects|, i requires 0 <= i < |doc.objects| => doc.objects[i].name)
    case Rules => seq(|doc.rules|, i requires 0 <= i < |doc.rules| => doc.rules[i].name)
    case Environments => OwnedNames(doc.environments)
    case Pipelines => OwnedNames(doc.pipelines)
    case DeploymentTargets => OwnedNames(doc.deploymentTargets)
    case Secrets => OwnedNames(doc.secrets)
    case Plugins => seq(|doc.plugins|, i requires 0 <= i < |doc.plugins| => doc.plugins[i].name)
  }

  function OwnedNames(specs: seq<OwnedSpec>): seq<string> {
    seq(|specs|, i requires 0 <= i < |specs| => specs[i].name)
  }

  predicate Names(doc: Document, r: Ref) {
    r.name in NamesIn(doc, r.section)
  }

  predicate Distinct(names: seq<string>) {
    forall i, j | 0 <= i < j < |names| :: names[i] != names[j]
  }

  function IfGiven(section: Section, name: string): set<Ref> {
    if name == "" then {} else {Ref(section, name)}
  }

  function IfSome(section: Section, name: Option<string>): set<Ref> {
    if name.None? then {} else {Ref(section, name.value)}
  }

  /** What each entry refers to. */
  function ScopeRefs(s: ScopeSpec): set<Ref> {
    {Ref(Principals, s.owner)} + IfSome(Scopes, s.parent)
  }

  function MembershipRefs(m: MembershipSpec): set<Ref> {
    {Ref(Scopes, m.scope), Ref(Principals, m.principal)} + IfGiven(Principals, m.grantedBy)
  }

  function ObjectRefs(o: ObjectSpec): set<Ref> {
    {Ref(Principals, o.owner)} + set name | name in o.projectInto :: Ref(Scopes, name)
  }

  function PluginRefs(p: PluginSpec): set<Ref> {
    {Ref(Principals, p.owner)} + IfSome(Scopes, p.scope)
  }

  /** The section a binding's target is looked up in; unknown target types mean a scope. */
  function BindingSection(targetType: string): Section {
    if targetType == "principal" then Principals
    else if targetType == "object" then Objects
    else if targetType == "environment" then Environments
    else Scopes
  }

  function BindingRef(b: BindingSpec): Ref {
    Ref(BindingSection(b.targetType), b.target)
  }

  /** The validator looks only at bindings of these three types. */
  predicate IsChecked(b: BindingSpec) {
    b.targetType == "scope" || b.targetType == "principal" || b.targetType == "object"
  }

  function RuleRefs(r: RuleSpec): set<Ref> {
    IfGiven(Principals, r.createdBy) + set b | b in r.bindTo && IsChecked(b) :: BindingRef(b)
  }

  predicate AllNamed(doc: Document, refs: set<Ref>) {
    forall r | r in refs :: Names(doc, r)
  }

  predicate OwnersNamed(doc: Document, specs: seq<OwnedSpec>) {
    forall s | s in specs :: Names(doc, Ref(Principals, s.owner))
  }

  /** The parents as the validator collects them: of scopes with one name, the last that has a parent wins. */
  function ParentMap(scopes: seq<ScopeSpec>): Parents {
    if scopes == [] then map[]
    else
      var last := scopes[|scopes| - 1];
      var before := ParentMap(scopes[..|scopes| - 1]);
      if last.parent.Some? then before[last.name := last.parent.value] else before
  }

  predicate RefsNamed(doc: Document) {
    && (forall s | s in doc.scopes :: AllNamed(doc, ScopeRefs(s)))
    && (forall m | m in doc.memberships :: AllNamed(doc, MembershipRefs(m)))
    && (forall o | o in doc.objects :: AllNamed(doc, ObjectRefs(o)))
    && (forall r | r in doc.rules :: AllNamed(doc, RuleRefs(r)))
    && OwnersNamed(doc, doc.environments) && OwnersNamed(doc, doc.pipelines)
    && OwnersNamed(doc, doc.deploymentTargets) && OwnersNamed(doc, doc.secrets)
    && (forall p | p in doc.plugins :: AllNamed(doc, PluginRefs(p)))
  }

  /** Names are unique in their section, every checked reference names an entry, no scope is above itself. */
  ghost predicate Sound(doc: Document) {
    && (forall section :: Distinct(NamesIn(doc, section)))
    && RefsNamed(doc)
    && Acyclic(ParentMap(doc.scopes))
  }

  lemma {:induction false} ParentMapMeaning(scopes: seq<ScopeSpec>)
    ensures forall name | name in ParentMap(scopes) :: exists s :: s in scopes && s.name == name && s.parent == Some(ParentMap(scopes)[name])
    ensures forall s | s in scopes && s.parent.Some? :: s.name in ParentMap(scopes)
  {
    if scopes != [] {
      var last := scopes[|scopes| - 1];
      var before := scopes[..|scopes| - 1];
      ParentMapMeaning(before);
      assert scopes == before + [last];
      forall name | name in ParentMap(scopes)
        ensures exists s :: s in scopes && s.name == name && s.parent == Some(ParentMap(scopes)[name])
      {
        if last.parent.Some? && name == last.name {
          assert last in scopes;
        } else {
          assert name in ParentMap(before);
          var s :| s in before && s.name == name && s.parent == Some(ParentMap(before)[name]);
          assert s in scopes;
        }
      }
    }
  }
}
