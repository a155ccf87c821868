/** The permission checkboxes of an invitation: a resource may need actions of others, and
    every edit keeps what is checked closed under those needs. */
module InvitePermissions {
  import opened Strings

  datatype Key = Key(resource: string, action: string)

  datatype Dependency = Dependency(resource: string, actions: seq<string>)

  /** The actions of each resource, and what each resource depends on: the entries of a
      record, so at most one for a resource. */
  datatype Catalog = Catalog(actions: map<string, seq<string>>, dependsOn: seq<(string, seq<Dependency>)>) {

    predicate Valid() {
      forall i, j :: 0 <= i < j < |dependsOn| ==> dependsOn[i].0 != dependsOn[j].0
    }

    function ActionsOf(resource: string): seq<string> {
      if resource in actions then actions[resource] else []
    }

    /** All the keys of a resource. */
    function Own(resource: string): set<Key> {
      set a | a in ActionsOf(resource) :: Key(resource, a)
    }

    /** The keys any action of a resource needs. */
    ghost function Needs(resource: string): set<Key> {
      set i, j, a | 0 <= i < |dependsOn| && dependsOn[i].0 == resource
                    && 0 <= j < |dependsOn[i].1| && a in dependsOn[i].1[j].actions :: Key(dependsOn[i].1[j].resource, a)
    }

    ghost predicate Closed(s: set<Key>) { forall k :: k in s ==> Needs(k.resource) <= s }

    /** What a needed key needs is needed too. */
    ghost predicate Transitive() {
      forall resource, k :: k in Needs(resource) ==> Needs(k.resource) <= Needs(resource)
    }

    /** Only keys the catalogue lists. */
    ghost predicate Listed(s: set<Key>) { forall k :: k in s ==> k in Own(k.resource) }

    /** What a resource needs is listed. */
    ghost predicate Complete() { forall resource :: Listed(Needs(resource)) }

    /** The keys an unchecked box clears: all of the resource when it is its access. */
    function Cleared(resource: string, action: string): set<Key> {
      if action == "access" then Own(resource) else {Key(resource, action)}
    }

    /** A resource that needs one of the cleared keys. */
    ghost predicate Broken(dependent: string, cleared: set<Key>) { Needs(dependent) * cleared != {} }

    ghost function Checked(s: set<Key>, keys: set<Key>, resource: string): set<Key> { s + keys + Needs(resource) }

    /** What remains once some keys are cleared, with every resource that needs one of them. */
    ghost function Unchecked(s: set<Key>, cleared: set<Key>): set<Key> {
      set k | k in s && k !in cleared && !(k in Own(k.resource) && Broken(k.resource, cleared))
    }

    ghost function Toggled(s: set<Key>, resource: string, action: string, checked: bool): set<Key> {
      if checked then Checked(s, {Key(resource, action)}, resource) else Unchecked(s, Cleared(resource, action))
    }
  }

  // ----- the editor -----

  class Editor {
    const catalog: Catalog
    var currentSet: set<Key>

    constructor (catalog: Catalog)
      ensures this.catalog == catalog && currentSet == {}
    {
      this.catalog := catalog;
      currentSet := {};
    }

    method SetResourceAll(resource: string, checked: bool)
      modifies this`currentSet
      ensures currentSet == if checked then old(currentSet) + catalog.Own(resource) else old(currentSet) - catalog.Own(resource)
    {
      var actions := catalog.ActionsOf(resource);
      for i := 0 to |actions|
        invariant checked ==> currentSet == old(currentSet) + set a | a in actions[..i] :: Key(resource, a)
        invariant !checked ==> currentSet == old(currentSet) - set a | a in actions[..i] :: Key(resource, a)
      {
        assert actions[..i + 1] == actions[..i] + [actions[i]];
        if checked {
          currentSet := currentSet + {Key(resource, actions[i])};
        } else {
          currentSet := currentSet - {Key(resource, actions[i])};
        }
      }
      assert actions[..|actions|] == actions;
    }

    method ApplyToggle(resource: string, action: string, checked: bool)
      modifies this`currentSet
      ensures currentSet == if checked then old(currentSet) + {Key(resource, action)}
                            else old(currentSet) - catalog.Cleared(resource, action)
    {
      if action == "access" && !checked {
        SetResourceAll(resource, false);
        return;
      }
      if checked {
        currentSet := currentSet + {Key(resource, action)};
      } else {
        currentSet := currentSet - {Key(resource, action)};
      }
    }

    /** Adds what one entry of the record needs. */
    method AddNeeds(i: nat)
      requires catalog.Valid() && i < |catalog.dependsOn|
      modifies this`currentSet
      ensures currentSet == old(currentSet) + catalog.Needs(catalog.dependsOn[i].0)
    {
      var deps := catalog.dependsOn[i].1;
      for j := 0 to |deps|
        invariant currentSet == old(currentSet) + set m, a | 0 <= m < j && a in deps[m].actions :: Key(deps[m].resource, a)
      {
        var dep := deps[j];
        ghost var before := currentSet;
        for n := 0 to |dep.actions|
          invariant currentSet == before + set a | a in dep.actions[..n] :: Key(dep.resource, a)
        {
          assert dep.actions[..n + 1] == dep.actions[..n] + [dep.actions[n]];
          currentSet := currentSet + {Key(dep.resource, dep.actions[n])};
        }
        assert dep.actions[..|dep.actions|] == dep.actions;
      }
      EntryNeeds(catalog, i);
    }

    /** Whether one of the dependencies asks for one of the cleared actions of the resource. */
    method IsBroken(i: nat, resource: string, cleared: seq<string>) returns (broken: bool)
      requires catalog.Valid() && i < |catalog.dependsOn|
      ensures broken <==> catalog.Broken(catalog.dependsOn[i].0, set a | a in cleared :: Key(resource, a))
    {
      var deps := catalog.dependsOn[i].1;
      broken := exists d :: d in deps && d.resource == resource && exists a :: a in d.actions && a in cleared;
      EntryNeeds(catalog, i);
      ghost var keys := set a | a in cleared :: Key(resource, a);
      ghost var needs := catalog.Needs(catalog.dependsOn[i].0);
      if broken {
        var d :| d in deps && d.resource == resource && exists a :: a in d.actions && a in cleared;
        var a :| a in d.actions && a in cleared;
        assert Key(resource, a) in needs * keys;
      } else {
        forall k | k in needs ensures k !in keys {}
        assert needs * keys == {};
      }
    }

    method EnforceDependsOn(resource: string, clearedActions: seq<string>, checked: bool)
      requires catalog.Valid()
      modifies this`currentSet
      ensures checked ==> currentSet == old(currentSet) + catalog.Needs(resource)
      ensures !checked ==>
        var cleared := set a | a in clearedActions :: Key(resource, a);
        currentSet == set k | k in old(currentSet) && !(k in catalog.Own(k.resource) && catalog.Broken(k.resource, cleared))
    {
      var entries := catalog.dependsOn;
      if checked {
        for i := 0 to |entries|
          invariant forall m :: 0 <= m < i ==> entries[m].0 != resource
          invariant currentSet == old(currentSet)
        {
          if entries[i].0 == resource {
            AddNeeds(i);
            return;
          }
        }
        NoEntry(catalog, resource);
        return;
      }
      ghost var cleared := set a | a in clearedActions :: Key(resource, a);
      for i := 0 to |entries|
        invariant currentSet == set k | k in old(currentSet) && !(k in catalog.Own(k.resource)
          && catalog.Broken(k.resource, cleared) && exists m :: 0 <= m < i && entries[m].0 == k.resource)
      {
        var broken := IsBroken(i, resource, clearedActions);
        if broken {
          SetResourceAll(entries[i].0, false);
        }
      }
      forall dependent | catalog.Broken(dependent, cleared)
        ensures exists m :: 0 <= m < |entries| && entries[m].0 == dependent
      {
        if forall m :: 0 <= m < |entries| ==> entries[m].0 != dependent {
          NoEntry(catalog, dependent);
        }
      }
    }

    method Toggle(resource: string, action: string, checked: bool)
      requires catalog.Valid()
      modifies this`currentSet
      ensures currentSet == catalog.Toggled(old(currentSet), resource, action, checked)
    {
      ApplyToggle(resource, action, checked);
      var clearedActions := if !checked && action == "access" then catalog.ActionsOf(resource) else [action];
      assert (set a | a in [action] :: Key(resource, a)) == {Key(resource, action)};
      EnforceDependsOn(resource, clearedActions, checked);
    }

    method CheckAllResource(resource: string, checked: bool)
      requires catalog.Valid()
      modifies this`currentSet
      ensures currentSet == if checked then catalog.Checked(old(currentSet), catalog.Own(resource), resource)
                            else catalog.Unchecked(old(currentSet), catalog.Own(resource))
    {
      SetResourceAll(resource, checked);
      EnforceDependsOn(resource, catalog.ActionsOf(resource), checked);
    }
  }

  lemma EntryNeeds(c: Catalog, i: nat)
    requires c.Valid() && i < |c.dependsOn|
    ensures var deps := c.dependsOn[i].1;
            c.Needs(c.dependsOn[i].0) == set j, a | 0 <= j < |deps| && a in deps[j].actions :: Key(deps[j].resource, a)
  {
    var deps := c.dependsOn[i].1;
    var needs := c.Needs(c.dependsOn[i].0);
    forall k | k in needs ensures exists j, a :: 0 <= j < |deps| && a in deps[j].actions && k == Key(deps[j].resource, a) {
      var m, j, a :| 0 <= m < |c.dependsOn| && c.dependsOn[m].0 == c.dependsOn[i].0
                     && 0 <= j < |c.dependsOn[m].1| && a in c.dependsOn[m].1[j].actions && k == Key(c.dependsOn[m].1[j].resource, a);
      assert m == i;
    }
  }

  lemma NoEntry(c: Catalog, resource: string)
    requires forall m :: 0 <= m < |c.dependsOn| ==> c.dependsOn[m].0 != resource
    ensures c.Needs(resource) == {}
  {}

  // ----- what an edit means -----

  /** Checking keys of one resource gives the least closed set that holds what was
      checked before and those keys. */
  lemma CheckingIsLeast(c: Catalog, s: set<Key>, keys: set<Key>, resource: string)
    requires c.Closed(s) && c.Transitive()
    requires (exists k :: k in keys) && forall k :: k in keys ==> k.resource == resource
    ensures var r := c.Checked(s, keys, resource);
            && c.Closed(r) && s + keys <= r
            && forall t :: s + keys <= t && c.Closed(t) ==> r <= t
  {
    var r := c.Checked(s, keys, resource);
    forall t | s + keys <= t && c.Closed(t) ensures r <= t {
      var k :| k in keys;
      assert k in t;
    }
  }

  /** What needs a resource that is broken is broken itself. */
  lemma BrokenSpreads(c: Catalog, dependent: string, n: Key, cleared: set<Key>)
    requires c.Transitive() && n in c.Needs(dependent)
    ensures c.Broken(n.resource, cleared) ==> c.Broken(dependent, cleared)
  {
    assert c.Needs(n.resource) * cleared <= c.Needs(dependent) * cleared;
  }

  /** What has to go because it needs a cleared key can go: the catalogue lists it. */
  ghost predicate Clearable(c: Catalog, s: set<Key>, cleared: set<Key>) {
    forall k :: k in s && k !in cleared && c.Broken(k.resource, cleared) ==> k in c.Own(k.resource)
  }

  /** Clearing keys keeps a closed set closed exactly when the catalogue lists every
      checked key that has to go with them. */
  lemma UncheckingKeepsClosedIff(c: Catalog, s: set<Key>, cleared: set<Key>)
    requires c.Closed(s) && c.Transitive()
    ensures c.Closed(c.Unchecked(s, cleared)) <==> Clearable(c, s, cleared)
  {
    var r := c.Unchecked(s, cleared);
    if Clearable(c, s, cleared) {
      forall k, n | k in r && n in c.Needs(k.resource) ensures n in r {
        assert n in s;
        assert n in cleared ==> n in c.Needs(k.resource) * cleared;
        BrokenSpreads(c, k.resource, n, cleared);
      }
    } else {
      var k :| k in s && k !in cleared && c.Broken(k.resource, cleared) && k !in c.Own(k.resource);
      assert k in r;
      var n :| n in c.Needs(k.resource) * cleared;
      assert n !in r;
    }
  }

  /** Clearing keys then gives the greatest closed set without them among those that hold
      nothing new. */
  lemma UncheckingIsGreatest(c: Catalog, s: set<Key>, cleared: set<Key>)
    requires c.Closed(s) && c.Transitive() && Clearable(c, s, cleared)
    ensures var r := c.Unchecked(s, cleared);
            && c.Closed(r) && r <= s && r !! cleared
            && forall t :: t <= s && t !! cleared && c.Closed(t) ==> t <= r
  {
    UncheckingKeepsClosedIff(c, s, cleared);
    var r := c.Unchecked(s, cleared);
    forall t, k | t <= s && t !! cleared && c.Closed(t) && k in t ensures k in r {
      assert c.Needs(k.resource) * cleared == {} by {
        forall x | x in c.Needs(k.resource) ensures x !in cleared {
          assert x in t;
        }
      }
    }
  }

  /** The keys an unchecked box takes away: itself, or the whole resource when it is the
      access to it. */
  predicate TakenAway(k: Key, resource: string, action: string) {
    k.resource == resource && (action == "access" || k.action == action)
  }

  /** Every toggle keeps a closed set closed: checking gives the least closed superset with
      the key, unchecking the greatest closed subset without what it takes away, and leaves
      exactly what is not taken away and does not need it. The set stays listed if and only
      if a key that is checked and what its resource needs are listed. */
  lemma ToggleKeepsClosed(c: Catalog, s: set<Key>, resource: string, action: string, checked: bool)
    requires c.Closed(s) && c.Transitive() && c.Listed(s)
    ensures var r := c.Toggled(s, resource, action, checked); var key := Key(resource, action);
            && c.Closed(r)
            && (checked ==> s <= r && key in r && forall t :: s <= t && key in t && c.Closed(t) ==> r <= t)
            && (!checked ==> r <= s && forall k :: k in r ==> !TakenAway(k, resource, action))
            && (!checked ==> forall t :: t <= s && c.Closed(t) && (forall k :: k in t ==> !TakenAway(k, resource, action)) ==> t <= r)
            && (!checked ==> forall k :: k in r <==>
                  && k in s && !TakenAway(k, resource, action)
                  && forall n :: n in c.Needs(k.resource) ==> !TakenAway(n, resource, action))
            && (c.Listed(r) <==> !checked || (key in c.Own(resource) && c.Listed(c.Needs(resource))))
  {
    hide Catalog.Needs, Catalog.Own;
    var key := Key(resource, action);
    if checked {
      assert key in {key};
      CheckingIsLeast(c, s, {key}, resource);
      assert key in c.Toggled(s, resource, action, true);
    } else {
      ClearedIsTakenAway(c, s, resource, action);
      UncheckingIsGreatest(c, s, c.Cleared(resource, action));
      UncheckedIs(c, s, resource, action);
    }
  }

  /** Of a listed set, what is cleared is what is taken away. */
  lemma ClearedIsTakenAway(c: Catalog, s: set<Key>, resource: string, action: string)
    requires c.Listed(s)
    ensures forall k :: k in s ==> (k in c.Cleared(resource, action) <==> TakenAway(k, resource, action))
  {}

  lemma UncheckedIs(c: Catalog, s: set<Key>, resource: string, action: string)
    requires c.Closed(s) && c.Listed(s)
    ensures forall k :: k in c.Unchecked(s, c.Cleared(resource, action)) <==>
              && k in s && !TakenAway(k, resource, action)
              && forall n :: n in c.Needs(k.resource) ==> !TakenAway(n, resource, action)
  {
    ClearedIsTakenAway(c, s, resource, action);
    hide Catalog.Needs, Catalog.Own, Catalog.Cleared, TakenAway;
    var cleared := c.Cleared(resource, action);
    forall k | k in s
      ensures c.Broken(k.resource, cleared) <==> exists n :: n in c.Needs(k.resource) && TakenAway(n, resource, action)
    {
      assert c.Needs(k.resource) <= s;
      if n :| n in c.Needs(k.resource) * cleared {
        assert TakenAway(n, resource, action);
      }
      if n :| n in c.Needs(k.resource) && TakenAway(n, resource, action) {
        assert n in c.Needs(k.resource) * cleared;
      }
    }
  }

  // ----- runs of edits -----

  datatype Edit = Box(resource: string, action: string, checked: bool) | All(resource: string, checked: bool)

  /** The set after one edit, as `Toggle` and `CheckAllResource` leave it. */
  ghost function Edited(c: Catalog, s: set<Key>, e: Edit): set<Key> {
    match e
    case Box(resource, action, checked) => c.Toggled(s, resource, action, checked)
    case All(resource, checked) =>
      if checked then c.Checked(s, c.Own(resource), resource) else c.Unchecked(s, c.Own(resource))
  }

  ghost function AfterEdits(c: Catalog, s: set<Key>, edits: seq<Edit>): set<Key> {
    if edits == [] then s else Edited(c, AfterEdits(c, s, edits[..|edits| - 1]), edits[|edits| - 1])
  }

  /** Only boxes of the catalogue can be checked. */
  predicate Offered(c: Catalog, e: Edit) { e.Box? && e.checked ==> Key(e.resource, e.action) in c.Own(e.resource) }

  lemma EditKeepsClosed(c: Catalog, s: set<Key>, e: Edit)
    requires c.Closed(s) && c.Listed(s) && c.Transitive() && c.Complete() && Offered(c, e)
    ensures c.Closed(Edited(c, s, e)) && c.Listed(Edited(c, s, e))
  {
    hide Catalog.Needs;
    match e
    case Box(resource, action, checked) =>
      assert c.Listed(c.Needs(resource));
      ToggleKeepsClosed(c, s, resource, action, checked);
    case All(resource, checked) =>
      if checked {
        assert c.Listed(c.Needs(resource));
      } else {
        UncheckingIsGreatest(c, s, c.Own(resource));
      }
  }

  /** Over any sequence of edits, boxes and whole resources, the set stays closed, and
      listed, so that the next edit may rely on it. */
  lemma {:induction false} EditsKeepClosed(c: Catalog, s: set<Key>, edits: seq<Edit>)
    requires c.Closed(s) && c.Listed(s) && c.Transitive() && c.Complete()
    requires forall i :: 0 <= i < |edits| ==> Offered(c, edits[i])
    ensures c.Closed(AfterEdits(c, s, edits)) && c.Listed(AfterEdits(c, s, edits))
  {
    hide Catalog.Closed, Catalog.Listed, Catalog.Transitive, Catalog.Complete, Edited;
    if edits != [] {
      EditsKeepClosed(c, s, edits[..|edits| - 1]);
      EditKeepsClosed(c, AfterEdits(c, s, edits[..|edits| - 1]), edits[|edits| - 1]);
    }
  }

  /** Checking a key keeps every closed set closed exactly when the key and its needs are
      closed by themselves: the direct needs alone do not have to be enough. */
  lemma CheckingKeepsClosedIff(c: Catalog, resource: string, action: string)
    ensures (forall s :: c.Closed(s) ==> c.Closed(c.Toggled(s, resource, action, true)))
       <==> c.Closed({Key(resource, action)} + c.Needs(resource))
  {
    assert c.Closed({}) && {} + {Key(resource, action)} + c.Needs(resource) == {Key(resource, action)} + c.Needs(resource);
    assert c.Toggled({}, resource, action, true) == {Key(resource, action)} + c.Needs(resource);
  }

  /** A closed set that checking leaves open: the needs are only followed one step. */
  lemma NeedsOfNeedsAreMissed() returns (c: Catalog)
    ensures c.Valid() && c.Closed({}) && !c.Closed(c.Toggled({}, "a", "go", true))
  {
    c := Catalog(map[], [("a", [Dependency("b", ["go"])]), ("b", [Dependency("c", ["go"])])]);
    EntryNeeds(c, 0);
    EntryNeeds(c, 1);
    assert c.dependsOn[0].1[0].actions[0] == "go" && c.dependsOn[1].1[0].actions[0] == "go";
    assert c.Needs("a") == {Key("b", "go")} && c.Needs("b") == {Key("c", "go")};
    assert Key("b", "go") in c.Toggled({}, "a", "go", true);
  }

  // ----- the catalogue of domain permissions -----

  function OnDomain(resource: string): (string, seq<Dependency>) { (resource, [Dependency("domain", ["access"])]) }

  const DOMAIN_DEPENDS_ON: seq<(string, seq<Dependency>)> :=
    [OnDomain("recipients"), OnDomain("aliases"), OnDomain("mailboxes"), OnDomain("quotas"), OnDomain("rspamd"), OnDomain("admin"),
     ("dkim", [Dependency("domain", ["access"]), Dependency("admin", ["access", "view-admin-page"])])]

  lemma DomainNeeds(c: Catalog, resource: string)
    requires c.dependsOn == DOMAIN_DEPENDS_ON && c.Valid()
    ensures var access := Key("domain", "access");
            && (resource == "domain" ==> c.Needs(resource) == {})
            && (resource != "dkim" ==> c.Needs(resource) <= {access})
            && (resource == "dkim" ==> access in c.Needs(resource))
            && forall k :: k in c.Needs(resource) ==>
                 k == access || (resource == "dkim" && (k == Key("admin", "access") || k == Key("admin", "view-admin-page")))
  {
    assert c.dependsOn[6].0 == "dkim";
    assert forall i :: 0 <= i < 6 ==> c.dependsOn[i].0[0] != "domain"[0];
    if i: nat :| i < 7 && c.dependsOn[i].0 == resource {
      EntryNeeds(c, i);
      if i == 6 {
        var deps := c.dependsOn[6].1;
        assert deps[0].actions[0] == "access";
        assert "access" in deps[0].actions;
      } else {
        assert c.dependsOn[i].1 == [Dependency("domain", ["access"])];
      }
    } else {
      NoEntry(c, resource);
    }
  }

  /** The dependencies of the domain resources meet what the theorems above ask for,
      whatever actions the resources have. */
  lemma DomainCatalogIsTransitive(actions: map<string, seq<string>>)
    ensures Catalog(actions, DOMAIN_DEPENDS_ON).Valid() && Catalog(actions, DOMAIN_DEPENDS_ON).Transitive()
  {
    var c := Catalog(actions, DOMAIN_DEPENDS_ON);
    assert c.Valid();
    hide Catalog.Needs;
    DomainNeeds(c, "domain");
    DomainNeeds(c, "admin");
    forall resource, k | k in c.Needs(resource) ensures c.Needs(k.resource) <= c.Needs(resource) {
      DomainNeeds(c, resource);
    }
  }

  const DOMAIN_ACTIONS: map<string, seq<string>> := map[
    "domain" := ["access", "view-domain", "toggle-domain-active", "transfer-domain-ownership"],
    "recipients" := ["access", "list-recipients", "view-recipient", "view-recipient-headroom",
                     "create-recipient", "edit-recipient", "delete-recipient"],
    "aliases" := ["access", "list-aliases", "view-alias", "create-alias", "edit-alias", "delete-alias"],
    "mailboxes" := ["access", "assign-recipient-owner", "unassign-recipient-owner", "assign-alias-owner", "unassign-alias-owner"],
    "quotas" := ["access", "view-quotas"],
    "rspamd" := ["access", "view-rspamd-stats", "view-rspamd-history"],
    "admin" := ["access", "view-admin-page", "toggle-domain-active", "manage-dkim"],
    "dkim" := ["access", "view-dkim", "check-dkim-dns", "rotate-dkim-key", "delete-dkim-key"]]

  const DOMAIN_CATALOG := Catalog(DOMAIN_ACTIONS, DOMAIN_DEPENDS_ON)

  /** Every need of the catalogue in use is an action it lists. */
  lemma DomainCatalogIsComplete()
    ensures DOMAIN_CATALOG.Complete()
  {
    var c := DOMAIN_CATALOG;
    DomainCatalogIsTransitive(DOMAIN_ACTIONS);
    assert c.ActionsOf("domain")[0] == "access";
    assert c.ActionsOf("admin")[0] == "access" && c.ActionsOf("admin")[1] == "view-admin-page";
    forall resource, k | k in c.Needs(resource) ensures k in c.Own(k.resource) {
      DomainNeeds(c, resource);
    }
  }

  /** The editor of domain permissions: whatever boxes of the catalogue are checked and
      unchecked, from a closed set of listed permissions on, such as none, the set is closed
      under the dependencies after each edit. */
  lemma DomainEditsKeepClosed(s: set<Key>, edits: seq<Edit>)
    requires DOMAIN_CATALOG.Closed(s) && DOMAIN_CATALOG.Listed(s)
    requires forall i :: 0 <= i < |edits| ==> Offered(DOMAIN_CATALOG, edits[i])
    ensures DOMAIN_CATALOG.Closed(AfterEdits(DOMAIN_CATALOG, s, edits))
  {
    hide Catalog.Needs, Catalog.Own, AfterEdits;
    DomainCatalogIsTransitive(DOMAIN_ACTIONS);
    DomainCatalogIsComplete();
    EditsKeepClosed(DOMAIN_CATALOG, s, edits);
  }

  /** A stored set that holds a permission the catalogue in use no longer lists: it is
      closed, and unchecking the access to the domain leaves it open, since the unlisted
      permission stays. */
  lemma UnlistedKeyStays(action: string) returns (s: set<Key>)
    requires Key("quotas", action) !in DOMAIN_CATALOG.Own("quotas")
    ensures s == {Key("domain", "access"), Key("quotas", action)}
    ensures DOMAIN_CATALOG.Closed(s)
    ensures !DOMAIN_CATALOG.Closed(DOMAIN_CATALOG.Toggled(s, "domain", "access", false))
  {
    var c, access, unlisted := DOMAIN_CATALOG, Key("domain", "access"), Key("quotas", action);
    s := {access, unlisted};
    QuotasNeedAccess();
    assert access in c.Own("domain") by { assert c.ActionsOf("domain")[0] == "access"; }
    hide Catalog.Needs, Catalog.Own;
    DomainNeeds(c, "domain");
    assert access in c.Needs("quotas") * c.Cleared("domain", "access");
    assert unlisted in c.Toggled(s, "domain", "access", false);
    assert access !in c.Toggled(s, "domain", "access", false);
  }

  lemma QuotasNeedAccess()
    ensures DOMAIN_CATALOG.Valid() && DOMAIN_CATALOG.Needs("quotas") == {Key("domain", "access")}
  {
    DomainCatalogIsTransitive(DOMAIN_ACTIONS);
    EntryNeeds(DOMAIN_CATALOG, 3);
    assert DOMAIN_CATALOG.dependsOn[3] == OnDomain("quotas");
    assert DOMAIN_CATALOG.dependsOn[3].1[0].actions[0] == "access";
  }

  // ----- keys as text -----

  function PermKey(resource: string, action: string): string { resource + ":" + action }

  function ParseKey(key: string): Key
    requires ':' in key
  {
    var i := IndexOf(key, ':');
    if i < |key| then Key(key[..i], key[i + 1..]) else Key(key, "")
  }

  /** Saving reads back the resource and the action a key was made of, as long as the
      name of the resource holds no colon. */
  lemma {:induction false} ParseOfPermKey(resource: string, action: string)
    ensures ParseKey(PermKey(resource, action)) == Key(resource, action) <==> ':' !in resource
  {
    IndexInConcat(resource, action);
    var key := PermKey(resource, action);
    var i := IndexOf(key, ':');
    if ':' !in resource {
      assert key[..i] == resource && key[i + 1..] == action;
    } else {
      assert i < |resource|;
      assert |key[..i]| == i;
    }
  }

  lemma {:induction false} IndexInConcat(resource: string, action: string)
    ensures ':' in PermKey(resource, action)
    ensures ':' !in resource ==> IndexOf(PermKey(resource, action), ':') == |resource|
    ensures ':' in resource ==> IndexOf(PermKey(resource, action), ':') < |resource|
  {
    var key := PermKey(resource, action);
    assert key[|resource|] == ':';
    if resource != "" {
      IndexInConcat(resource[1..], action);
      assert key[1..] == PermKey(resource[1..], action);
    }
  }
}
