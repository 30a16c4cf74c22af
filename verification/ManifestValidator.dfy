/** `legacy/v1/scoped/manifest/validator.py`: collecting every problem of a manifest. */
module ManifestValidator {
  import opened Wrappers
  import opened ParentChains
  import opened ManifestSchema

  datatype Holder = Entry(section: Section, name: string) | Membership(index: nat)

  datatype Problem =
    | Duplicate(section: Section, name: string)
    | Dangling(holder: Holder, ref: Ref)
    | Cycle(name: string)

  function Owned(doc: Document, section: Section): seq<OwnedSpec> {
    match section
    case Environments => doc.environments
    case Pipelines => doc.pipelines
    case DeploymentTargets => doc.deploymentTargets
    case Secrets => doc.secrets
    case _ => []
  }

  /** The entry a problem is reported for does refer to `r`. */
  ghost predicate Holds(doc: Document, holder: Holder, r: Ref) {
    match holder
    case Membership(i) => i < |doc.memberships| && r in MembershipRefs(doc.memberships[i])
    case Entry(Scopes, name) => exists s :: s in doc.scopes && s.name == name && r in ScopeRefs(s)
    case Entry(Objects, name) => exists o :: o in doc.objects && o.name == name && r in ObjectRefs(o)
    case Entry(Rules, name) => exists u :: u in doc.rules && u.name == name && r in RuleRefs(u)
    case Entry(Plugins, name) => exists p :: p in doc.plugins && p.name == name && r in PluginRefs(p)
    case Entry(section, name) => exists s :: s in Owned(doc, section) && s.name == name && r == Ref(Principals, s.owner)
  }

  ghost predicate Repeated(names: seq<string>, name: string) {
    exists i, j :: 0 <= i < j < |names| && names[i] == names[j] == name
  }

  /** A reported problem is really there. */
  ghost predicate Genuine(doc: Document, p: Problem) {
    match p
    case Duplicate(section, name) => Repeated(NamesIn(doc, section), name)
    case Dangling(holder, ref) => Holds(doc, holder, ref) && !Names(doc, ref)
    case Cycle(name) => OnCycle(ParentMap(doc.scopes), name)
  }

  function Known(doc: Document, section: Section): set<string> {
    set name | name in NamesIn(doc, section)
  }

  /** The keys of the parent map, in the order the scopes first bring them. */
  function ParentKeys(scopes: seq<ScopeSpec>): (keys: seq<string>)
    ensures forall name :: name in keys <==> name in ParentMap(scopes)
  {
    if scopes == [] then []
    else
      var last := scopes[|scopes| - 1];
      var before := ParentKeys(scopes[..|scopes| - 1]);
      if last.parent.Some? && last.name !in before then before + [last.name] else before
  }

  class Validator {
    const doc: Document
    var errors: seq<Problem>

    ghost predicate Valid()
      reads this
    {
      forall p | p in errors :: Genuine(doc, p)
    }

    /** Each of these references that names nothing is reported for the holder. */
    ghost predicate Reported(holder: Holder, refs: set<Ref>)
      reads this
    {
      forall r | r in refs && !Names(doc, r) :: Dangling(holder, r) in errors
    }

    constructor (doc: Document)
      ensures Valid() && this.doc == doc && errors == []
    {
      this.doc := doc;
      errors := [];
    }

    method CheckDuplicates(section: Section) returns (seen: set<string>)
      requires Valid()
      modifies this
      ensures Valid() && seen == Known(doc, section)
      ensures forall p | p in old(errors) :: p in errors
      ensures forall name | Repeated(NamesIn(doc, section), name) :: Duplicate(section, name) in errors
      ensures errors == [] <==> old(errors) == [] && Distinct(NamesIn(doc, section))
    {
      var names := NamesIn(doc, section);
      seen := {};
      for n := 0 to |names|
        invariant Valid() && seen == set name | name in names[..n]
        invariant forall p | p in old(errors) :: p in errors
        invariant forall i, j | 0 <= i < j < n && names[i] == names[j] :: Duplicate(section, names[j]) in errors
        invariant errors == [] <==> old(errors) == [] && Distinct(names[..n])
      {
        assert names[..n + 1] == names[..n] + [names[n]];
        if names[n] in seen {
          var i :| 0 <= i < n && names[..n][i] == names[n];
          assert names[..n + 1][i] == names[..n + 1][n];
          assert names[i] == names[n] && Repeated(names, names[n]);
          errors := errors + [Duplicate(section, names[n])];
        }
        seen := seen + {names[n]};
      }
      assert names[..|names|] == names;
    }

    method CheckAllDuplicates() returns (principals: set<string>, scopes: set<string>, objects: set<string>)
      requires Valid()
      modifies this
      ensures Valid() && principals == Known(doc, Principals) && scopes == Known(doc, Scopes) && objects == Known(doc, Objects)
      ensures forall section, name | Repeated(NamesIn(doc, section), name) :: Duplicate(section, name) in errors
      ensures errors == [] <==> old(errors) == [] && forall section :: Distinct(NamesIn(doc, section))
    {
      hide Genuine, Distinct, NamesIn, Known, Repeated;
      principals := CheckDuplicates(Principals);
      scopes := CheckDuplicates(Scopes);
      objects := CheckDuplicates(Objects);
      var rules := CheckDuplicates(Rules);
      var environments := CheckDuplicates(Environments);
      var pipelines := CheckDuplicates(Pipelines);
      var targets := CheckDuplicates(DeploymentTargets);
      var secrets := CheckDuplicates(Secrets);
      var plugins := CheckDuplicates(Plugins);
      forall section
        ensures forall name | Repeated(NamesIn(doc, section), name) :: Duplicate(section, name) in errors
        ensures errors == [] ==> Distinct(NamesIn(doc, section))
      {
        match section {
          case Principals =>
          case Scopes =>
          case Objects =>
          case Rules =>
          case Environments =>
          case Pipelines =>
          case DeploymentTargets =>
          case Secrets =>
          case Plugins =>
        }
      }
    }

    /** One reference: reported unless its name is among the known ones. */
    method Check(holder: Holder, r: Ref, known: set<string>)
      requires Valid() && Holds(doc, holder, r) && known == Known(doc, r.section)
      modifies this
      ensures Valid()
      ensures forall p | p in old(errors) :: p in errors
      ensures !Names(doc, r) ==> Dangling(holder, r) in errors
      ensures errors == [] <==> old(errors) == [] && Names(doc, r)
    {
      if r.name !in known {
        errors := errors + [Dangling(holder, r)];
      }
    }

    method CheckScopes(principals: set<string>, scopes: set<string>)
      requires Valid() && principals == Known(doc, Principals) && scopes == Known(doc, Scopes)
      modifies this
      ensures Valid()
      ensures forall p | p in old(errors) :: p in errors
      ensures forall s | s in doc.scopes :: Reported(Entry(Scopes, s.name), ScopeRefs(s))
      ensures errors == [] <==> old(errors) == [] && forall s | s in doc.scopes :: AllNamed(doc, ScopeRefs(s))
    {
      hide Genuine, Names;
      for n := 0 to |doc.scopes|
        invariant Valid()
        invariant forall p | p in old(errors) :: p in errors
        invariant forall s | s in doc.scopes[..n] :: Reported(Entry(Scopes, s.name), ScopeRefs(s))
        invariant errors == [] <==> old(errors) == [] && forall s | s in doc.scopes[..n] :: AllNamed(doc, ScopeRefs(s))
      {
        var s := doc.scopes[n];
        assert doc.scopes[..n + 1] == doc.scopes[..n] + [s];
        Check(Entry(Scopes, s.name), Ref(Principals, s.owner), principals);
        if s.parent.Some? {
          Check(Entry(Scopes, s.name), Ref(Scopes, s.parent.value), scopes);
        }
        assert AllNamed(doc, ScopeRefs(s)) <==>
          Names(doc, Ref(Principals, s.owner)) && (s.parent.Some? ==> Names(doc, Ref(Scopes, s.parent.value))) by {
          assert s.parent.Some? ==> Ref(Scopes, s.parent.value) in ScopeRefs(s);
        }
      }
      assert doc.scopes[..|doc.scopes|] == doc.scopes;
    }

    method CheckScopeCycles()
      requires Valid()
      modifies this
      ensures Valid()
      ensures forall p | p in old(errors) :: p in errors
      ensures forall name | OnCycle(ParentMap(doc.scopes), name) :: Cycle(name) in errors
      ensures errors == [] <==> old(errors) == [] && Acyclic(ParentMap(doc.scopes))
    {
      var parents := ParentMap(doc.scopes);
      var keys := ParentKeys(doc.scopes);
      for n := 0 to |keys|
        invariant Valid()
        invariant forall p | p in old(errors) :: p in errors
        invariant forall i | 0 <= i < n && OnCycle(parents, keys[i]) :: Cycle(keys[i]) in errors
        invariant errors == [] ==> old(errors) == [] && forall i | 0 <= i < n :: !OnCycle(parents, keys[i])
        invariant errors != [] ==> old(errors) != [] || !Acyclic(parents)
      {
        var repeated := FollowParents(parents, keys[n]);
        if repeated.Some? {
          errors := errors + [Cycle(repeated.value)];
        }
      }
      forall name | OnCycle(parents, name) ensures name in keys {
      }
    }

    method CheckMemberships(principals: set<string>, scopes: set<string>)
      requires Valid() && principals == Known(doc, Principals) && scopes == Known(doc, Scopes)
      modifies this
      ensures Valid()
      ensures forall p | p in old(errors) :: p in errors
      ensures forall i | 0 <= i < |doc.memberships| :: Reported(Membership(i), MembershipRefs(doc.memberships[i]))
      ensures errors == [] <==> old(errors) == [] && forall m | m in doc.memberships :: AllNamed(doc, MembershipRefs(m))
    {
      hide Genuine, Names;
      for n := 0 to |doc.memberships|
        invariant Valid()
        invariant forall p | p in old(errors) :: p in errors
        invariant forall i | 0 <= i < n :: Reported(Membership(i), MembershipRefs(doc.memberships[i]))
        invariant errors == [] <==> old(errors) == [] && forall m | m in doc.memberships[..n] :: AllNamed(doc, MembershipRefs(m))
      {
        var m := doc.memberships[n];
        assert doc.memberships[..n + 1] == doc.memberships[..n] + [m];
        Check(Membership(n), Ref(Scopes, m.scope), scopes);
        Check(Membership(n), Ref(Principals, m.principal), principals);
        if m.grantedBy != "" {
          Check(Membership(n), Ref(Principals, m.grantedBy), principals);
        }
      }
      assert doc.memberships[..|doc.memberships|] == doc.memberships;
    }

    method CheckProjections(o: ObjectSpec, scopes: set<string>)
      requires Valid() && o in doc.objects && scopes == Known(doc, Scopes)
      modifies this
      ensures Valid()
      ensures forall p | p in old(errors) :: p in errors
      ensures forall name | name in o.projectInto :: Reported(Entry(Objects, o.name), {Ref(Scopes, name)})
      ensures errors == [] <==> old(errors) == [] && forall name | name in o.projectInto :: Names(doc, Ref(Scopes, name))
    {
      hide Genuine, Names;
      for n := 0 to |o.projectInto|
        invariant Valid()
        invariant forall p | p in old(errors) :: p in errors
        invariant forall name | name in o.projectInto[..n] :: Reported(Entry(Objects, o.name), {Ref(Scopes, name)})
        invariant errors == [] <==> old(errors) == [] && forall name | name in o.projectInto[..n] :: Names(doc, Ref(Scopes, name))
      {
        assert o.projectInto[..n + 1] == o.projectInto[..n] + [o.projectInto[n]];
        Check(Entry(Objects, o.name), Ref(Scopes, o.projectInto[n]), scopes);
      }
      assert o.projectInto[..|o.projectInto|] == o.projectInto;
    }

    method CheckObjects(principals: set<string>, scopes: set<string>)
      requires Valid() && principals == Known(doc, Principals) && scopes == Known(doc, Scopes)
      modifies this
      ensures Valid()
      ensures forall p | p in old(errors) :: p in errors
      ensures forall o | o in doc.objects :: Reported(Entry(Objects, o.name), ObjectRefs(o))
      ensures errors == [] <==> old(errors) == [] && forall o | o in doc.objects :: AllNamed(doc, ObjectRefs(o))
    {
      hide Genuine, Names;
      for n := 0 to |doc.objects|
        invariant Valid()
        invariant forall p | p in old(errors) :: p in errors
        invariant forall o | o in doc.objects[..n] :: Reported(Entry(Objects, o.name), ObjectRefs(o))
        invariant errors == [] <==> old(errors) == [] && forall o | o in doc.objects[..n] :: AllNamed(doc, ObjectRefs(o))
      {
        var o := doc.objects[n];
        assert doc.objects[..n + 1] == doc.objects[..n] + [o];
        Check(Entry(Objects, o.name), Ref(Principals, o.owner), principals);
        CheckProjections(o, scopes);
        assert AllNamed(doc, ObjectRefs(o)) <==>
          Names(doc, Ref(Principals, o.owner)) && forall name | name in o.projectInto :: Names(doc, Ref(Scopes, name)) by {
          assert forall name | name in o.projectInto :: Ref(Scopes, name) in ObjectRefs(o);
        }
      }
      assert doc.objects[..|doc.objects|] == doc.objects;
    }

    method CheckBinding(rule: RuleSpec, b: BindingSpec, principals: set<string>, scopes: set<string>, objects: set<string>)
      requires Valid() && rule in doc.rules && b in rule.bindTo
      requires principals == Known(doc, Principals) && scopes == Known(doc, Scopes) && objects == Known(doc, Objects)
      modifies this
      ensures Valid()
      ensures forall p | p in old(errors) :: p in errors
      ensures IsChecked(b) ==> Reported(Entry(Rules, rule.name), {BindingRef(b)})
      ensures errors == [] <==> old(errors) == [] && (IsChecked(b) ==> Names(doc, BindingRef(b)))
    {
      assert IsChecked(b) ==> BindingRef(b) in RuleRefs(rule);
      if b.targetType == "scope" && b.target !in scopes {
        errors := errors + [Dangling(Entry(Rules, rule.name), Ref(Scopes, b.target))];
      } else if b.targetType == "principal" && b.target !in principals {
        errors := errors + [Dangling(Entry(Rules, rule.name), Ref(Principals, b.target))];
      } else if b.targetType == "object" && b.target !in objects {
        errors := errors + [Dangling(Entry(Rules, rule.name), Ref(Objects, b.target))];
      }
    }

    method CheckBindings(rule: RuleSpec, principals: set<string>, scopes: set<string>, objects: set<string>)
      requires Valid() && rule in doc.rules
      requires principals == Known(doc, Principals) && scopes == Known(doc, Scopes) && objects == Known(doc, Objects)
      modifies this
      ensures Valid()
      ensures forall p | p in old(errors) :: p in errors
      ensures forall b | b in rule.bindTo && IsChecked(b) :: Reported(Entry(Rules, rule.name), {BindingRef(b)})
      ensures errors == [] <==>
        old(errors) == [] && forall b | b in rule.bindTo && IsChecked(b) :: Names(doc, BindingRef(b))
    {
      hide Reported, Genuine, IsChecked, BindingRef, Names;
      for n := 0 to |rule.bindTo|
        invariant Valid()
        invariant forall p | p in old(errors) :: p in errors
        invariant forall b | b in rule.bindTo[..n] && IsChecked(b) :: Reported(Entry(Rules, rule.name), {BindingRef(b)})
        invariant errors == [] <==>
          old(errors) == [] && forall b | b in rule.bindTo[..n] && IsChecked(b) :: Names(doc, BindingRef(b))
      {
        assert rule.bindTo[..n + 1] == rule.bindTo[..n] + [rule.bindTo[n]];
        label Before:
        CheckBinding(rule, rule.bindTo[n], principals, scopes, objects);
        ReportsStay@Before();
      }
      assert rule.bindTo[..|rule.bindTo|] == rule.bindTo;
    }

    lemma RuleReported(r: RuleSpec)
      requires r.createdBy != "" ==> Reported(Entry(Rules, r.name), {Ref(Principals, r.createdBy)})
      requires forall b | b in r.bindTo && IsChecked(b) :: Reported(Entry(Rules, r.name), {BindingRef(b)})
      ensures Reported(Entry(Rules, r.name), RuleRefs(r))
      ensures AllNamed(doc, RuleRefs(r)) <==>
        && (r.createdBy != "" ==> Names(doc, Ref(Principals, r.createdBy)))
        && forall b | b in r.bindTo && IsChecked(b) :: Names(doc, BindingRef(b))
    {
      assert forall b | b in r.bindTo && IsChecked(b) :: BindingRef(b) in RuleRefs(r);
    }

    method CheckRule(r: RuleSpec, principals: set<string>, scopes: set<string>, objects: set<string>)
      requires Valid() && r in doc.rules
      requires principals == Known(doc, Principals) && scopes == Known(doc, Scopes) && objects == Known(doc, Objects)
      modifies this
      ensures Valid()
      ensures forall p | p in old(errors) :: p in errors
      ensures Reported(Entry(Rules, r.name), RuleRefs(r))
      ensures errors == [] <==> old(errors) == [] && AllNamed(doc, RuleRefs(r))
    {
      hide Genuine, Names, IsChecked, BindingRef;
      if r.createdBy != "" {
        Check(Entry(Rules, r.name), Ref(Principals, r.createdBy), principals);
      }
      label Created:
      CheckBindings(r, principals, scopes, objects);
      ReportsStay@Created();
      RuleReported(r);
    }

    method CheckRules(principals: set<string>, scopes: set<string>, objects: set<string>)
      requires Valid() && principals == Known(doc, Principals) && scopes == Known(doc, Scopes) && objects == Known(doc, Objects)
      modifies this
      ensures Valid()
      ensures forall p | p in old(errors) :: p in errors
      ensures forall r | r in doc.rules :: Reported(Entry(Rules, r.name), RuleRefs(r))
      ensures errors == [] <==> old(errors) == [] && forall r | r in doc.rules :: AllNamed(doc, RuleRefs(r))
    {
      hide Genuine, AllNamed, RuleRefs, Reported;
      for n := 0 to |doc.rules|
        invariant Valid()
        invariant forall p | p in old(errors) :: p in errors
        invariant forall r | r in doc.rules[..n] :: Reported(Entry(Rules, r.name), RuleRefs(r))
        invariant errors == [] <==> old(errors) == [] && forall r | r in doc.rules[..n] :: AllNamed(doc, RuleRefs(r))
      {
        var r := doc.rules[n];
        assert doc.rules[..n + 1] == doc.rules[..n] + [r];
        label Before:
        CheckRule(r, principals, scopes, objects);
        ReportsStay@Before();
      }
      assert doc.rules[..|doc.rules|] == doc.rules;
    }

    method CheckOwners(section: Section, principals: set<string>)
      requires Valid() && principals == Known(doc, Principals)
      requires section.Environments? || section.Pipelines? || section.DeploymentTargets? || section.Secrets?
      modifies this
      ensures Valid()
      ensures forall p | p in old(errors) :: p in errors
      ensures forall s | s in Owned(doc, section) :: Reported(Entry(section, s.name), {Ref(Principals, s.owner)})
      ensures errors == [] <==> old(errors) == [] && OwnersNamed(doc, Owned(doc, section))
    {
      hide Genuine, Names;
      var specs := Owned(doc, section);
      for n := 0 to |specs|
        invariant Valid()
        invariant forall p | p in old(errors) :: p in errors
        invariant forall s | s in specs[..n] :: Reported(Entry(section, s.name), {Ref(Principals, s.owner)})
        invariant errors == [] <==> old(errors) == [] && OwnersNamed(doc, specs[..n])
      {
        assert specs[..n + 1] == specs[..n] + [specs[n]];
        Check(Entry(section, specs[n].name), Ref(Principals, specs[n].owner), principals);
      }
      assert specs[..|specs|] == specs;
    }

    method CheckPlugins(principals: set<string>, scopes: set<string>)
      requires Valid() && principals == Known(doc, Principals) && scopes == Known(doc, Scopes)
      modifies this
      ensures Valid()
      ensures forall p | p in old(errors) :: p in errors
      ensures forall p | p in doc.plugins :: Reported(Entry(Plugins, p.name), PluginRefs(p))
      ensures errors == [] <==> old(errors) == [] && forall p | p in doc.plugins :: AllNamed(doc, PluginRefs(p))
    {
      hide Genuine, Names;
      for n := 0 to |doc.plugins|
        invariant Valid()
        invariant forall p | p in old(errors) :: p in errors
        invariant forall p | p in doc.plugins[..n] :: Reported(Entry(Plugins, p.name), PluginRefs(p))
        invariant errors == [] <==> old(errors) == [] && forall p | p in doc.plugins[..n] :: AllNamed(doc, PluginRefs(p))
      {
        var p := doc.plugins[n];
        assert doc.plugins[..n + 1] == doc.plugins[..n] + [p];
        Check(Entry(Plugins, p.name), Ref(Principals, p.owner), principals);
        if p.scope.Some? {
          Check(Entry(Plugins, p.name), Ref(Scopes, p.scope.value), scopes);
        }
        assert AllNamed(doc, PluginRefs(p)) <==>
          Names(doc, Ref(Principals, p.owner)) && (p.scope.Some? ==> Names(doc, Ref(Scopes, p.scope.value))) by {
          assert p.scope.Some? ==> Ref(Scopes, p.scope.value) in PluginRefs(p);
        }
      }
      assert doc.plugins[..|doc.plugins|] == doc.plugins;
    }

    /** What has been reported stays reported. */
    twostate lemma ReportsStay()
      requires forall p | p in old(errors) :: p in errors
      ensures forall holder, refs | old(Reported(holder, refs)) :: Reported(holder, refs)
    {
    }

    lemma AllReported()
      requires forall name | OnCycle(ParentMap(doc.scopes), name) :: Cycle(name) in errors
      requires forall s | s in doc.scopes :: Reported(Entry(Scopes, s.name), ScopeRefs(s))
      requires forall i | 0 <= i < |doc.memberships| :: Reported(Membership(i), MembershipRefs(doc.memberships[i]))
      requires forall o | o in doc.objects :: Reported(Entry(Objects, o.name), ObjectRefs(o))
      requires forall r | r in doc.rules :: Reported(Entry(Rules, r.name), RuleRefs(r))
      requires forall section, s | s in Owned(doc, section) :: Reported(Entry(section, s.name), {Ref(Principals, s.owner)})
      requires forall p | p in doc.plugins :: Reported(Entry(Plugins, p.name), PluginRefs(p))
      ensures forall p | Genuine(doc, p) && !p.Duplicate? :: p in errors
    {
    }

    method CheckAllOwners(principals: set<string>)
      requires Valid() && principals == Known(doc, Principals)
      modifies this
      ensures Valid()
      ensures forall p | p in old(errors) :: p in errors
      ensures forall section, s | s in Owned(doc, section) :: Reported(Entry(section, s.name), {Ref(Principals, s.owner)})
      ensures errors == [] <==>
        && old(errors) == [] && OwnersNamed(doc, doc.environments) && OwnersNamed(doc, doc.pipelines)
        && OwnersNamed(doc, doc.deploymentTargets) && OwnersNamed(doc, doc.secrets)
    {
      hide Reported, OwnersNamed, Genuine;
      CheckOwners(Environments, principals);
      label Environments:
      CheckOwners(Pipelines, principals);
      ReportsStay@Environments();
      label Pipelines:
      CheckOwners(DeploymentTargets, principals);
      ReportsStay@Pipelines();
      label Targets:
      CheckOwners(Secrets, principals);
      ReportsStay@Targets();
    }

    method CheckReferences(principals: set<string>, scopes: set<string>, objects: set<string>)
      requires Valid() && principals == Known(doc, Principals) && scopes == Known(doc, Scopes) && objects == Known(doc, Objects)
      modifies this
      ensures Valid()
      ensures forall p | p in old(errors) :: p in errors
      ensures forall p | Genuine(doc, p) && !p.Duplicate? :: p in errors
      ensures errors == [] <==> old(errors) == [] && RefsNamed(doc) && Acyclic(ParentMap(doc.scopes))
    {
      hide Reported, OwnersNamed, AllNamed, Acyclic, OnCycle, Genuine;
      CheckScopes(principals, scopes);
      label Scopes:
      CheckScopeCycles();
      ReportsStay@Scopes();
      label Cycles:
      CheckMemberships(principals, scopes);
      ReportsStay@Cycles();
      label Memberships:
      CheckObjects(principals, scopes);
      ReportsStay@Memberships();
      label Objects:
      CheckRules(principals, scopes, objects);
      ReportsStay@Objects();
      label Rules:
      CheckAllOwners(principals);
      ReportsStay@Rules();
      label Owners:
      CheckPlugins(principals, scopes);
      ReportsStay@Owners();
      AllReported();
    }
  }

  /** The validator reports exactly the problems that are there: every repeated name, every reference that
      names nothing, every scope above itself.  So it reports nothing exactly for sound manifests. */
  method ValidateManifest(doc: Document) returns (errors: seq<Problem>)
    ensures errors == [] <==> Sound(doc)
    ensures forall p :: p in errors <==> Genuine(doc, p)
  {
    hide Holds, OnCycle, Repeated, RefsNamed, Acyclic, Distinct, Names;
    var v := new Validator(doc);
    var principals, scopes, objects := v.CheckAllDuplicates();
    v.CheckReferences(principals, scopes, objects);
    errors := v.errors;
  }
}
