/**
 * Concrete inventories and what the resolver answers for them: a group nested
 * four levels deep, a small inventory with a group that is a root group and a
 * child at once, a tree that is an empty list, and an ec2 inventory. Names are
 * kept short.
 */
module InventoryExamples {
  import opened RubyValue
  import opened Inventory
  import opened InventoryProperties

  /** A composite group over the given named children. */
  function Group(children: seq<(string, Value)>): Value
  {
    Map([("children", Map(children))])
  }

  /** An inventory as ansible-inventory lists it: a root `all` group. */
  function InventoryOf(groups: seq<(string, Value)>): Value
  {
    Map([("all", Group(groups))])
  }

  /** A group with exactly one child has that child's hosts. */
  lemma OneChildHosts(k: string, v: Value)
    ensures HostsOf(Group([(k, v)])) == HostsOf(v)
  {
    var children := Map([(k, v)]);
    assert SlotOf(children.entries, 0) == 0;
    ChildHostsStep(children, 1);
    assert HostsOf(Group([(k, v)])) == ChildHosts(children, 1);
    if HostsOf(v).Ok? {
      assert [] + HostsOf(v).value == HostsOf(v).value;
    }
  }

  /** A group with two differently named children has their hosts, in order. */
  lemma TwoChildHosts(k1: string, v1: Value, k2: string, v2: Value)
    requires k1 != k2 && HostsOf(v1).Ok? && HostsOf(v2).Ok?
    ensures HostsOf(Group([(k1, v1), (k2, v2)])) == Ok(HostsOf(v1).value + HostsOf(v2).value)
  {
    var children := Map([(k1, v1), (k2, v2)]);
    assert SlotOf(children.entries, 0) == 0;
    assert SlotOf(children.entries, 1) == 1;
    ChildHostsStep(children, 1);
    ChildHostsStep(children, 2);
    assert HostsOf(Group([(k1, v1), (k2, v2)])) == ChildHosts(children, 2);
    assert [] + HostsOf(v1).value == HostsOf(v1).value;
  }

  /** The host leaf holding `m_x` and `n_x`. */
  function MnLeaf(): Value
  {
    Map([("hosts", Map([("m_x", Map([])), ("n_x", Map([]))]))])
  }

  lemma MnLeafHosts()
    ensures HostsOf(MnLeaf()) == Ok(["m.x", "n.x"])
  {
    assert ReplaceChar("m_x", '_', '.') == "m.x";
    assert ReplaceChar("n_x", '_', '.') == "n.x";
    assert DottedKeys([("m_x", Map([])), ("n_x", Map([]))]) == ["m.x", "n.x"];
  }

  /** The group four levels deep from the resolve_hosts_of test. */
  function NestedGroup(): Value
  {
    Group([("staging-mx", Group([("mx", Group([("m.x", Group([("tag_m_x", MnLeaf())]))]))]))])
  }

  /** Both hosts four levels down are found, in key order, dotted. */
  lemma NestedGroupHosts()
    ensures HostsOf(NestedGroup()) == Ok(["m.x", "n.x"])
  {
    MnLeafHosts();
    OneChildHosts("tag_m_x", MnLeaf());
    OneChildHosts("m.x", Group([("tag_m_x", MnLeaf())]));
    OneChildHosts("mx", Group([("m.x", Group([("tag_m_x", MnLeaf())]))]));
    OneChildHosts("staging-mx", Group([("mx", Group([("m.x", Group([("tag_m_x", MnLeaf())]))]))]));
  }

  /** The one-host leaf holding `m_x`. */
  function MLeaf(): Value
  {
    Map([("hosts", Map([("m_x", Map([]))]))])
  }

  /** `vb` nests `vb-c`, which has no hosts, and `vb-m`. */
  function Virtualbox(): Value
  {
    Group([("vb-c", Map([])), ("vb-m", MLeaf())])
  }

  /** The root groups of a small inventory: `vb-c` and `vb-m` are root groups
      as well as children of `vb`. */
  function Roots(): seq<(string, Value)>
  {
    [("mx", MLeaf()), ("ungrouped", Map([])), ("vb", Virtualbox()), ("vb-c", Map([])), ("vb-m", MLeaf())]
  }

  lemma RootsDistinct()
    ensures DistinctKeys(Roots())
  {
  }

  lemma MLeafHosts()
    ensures HostsOf(MLeaf()) == Ok(["m.x"])
  {
    assert ReplaceChar("m_x", '_', '.') == "m.x";
    assert DottedKeys([("m_x", Map([]))]) == ["m.x"];
  }

  /** all_hosts_in of a root group name reads that root group. */
  lemma RootGroupHosts(i: nat)
    requires i < |Roots()|
    ensures AllHostsIn(InventoryOf(Roots()), Str(Roots()[i].0)) == HostsOf(Roots()[i].1)
  {
    assert RootOfGroups(InventoryOf(Roots())) == Ok(Map(Roots()));
    RootsDistinct();
    SlotOfDistinct(Roots(), i);
    assert KeyIndex(Roots(), Roots()[i].0) == i;
    AllHostsInLooksUpRootGroup(InventoryOf(Roots()), Roots(), Str(Roots()[i].0));
  }

  lemma SimpleInventoryHosts()
    ensures AllHostsIn(InventoryOf(Roots()), Str("mx")) == Ok(["m.x"])
    ensures AllHostsIn(InventoryOf(Roots()), Str("vb")) == Ok(["m.x"])
    ensures AllHostsIn(InventoryOf(Roots()), Str("vb-m")) == Ok(["m.x"])
    ensures AllHostsIn(InventoryOf(Roots()), Str("ungrouped")) == Ok([])
  {
    MLeafHosts();
    TwoChildHosts("vb-c", Map([]), "vb-m", MLeaf());
    assert [] + ["m.x"] == ["m.x"];
    RootGroupHosts(0);
    RootGroupHosts(1);
    RootGroupHosts(2);
    RootGroupHosts(4);
  }

  /** An unknown group, and arguments that are not strings at all, have no hosts. */
  lemma SimpleInventoryUnknownGroups()
    ensures AllHostsIn(InventoryOf(Roots()), Str("foo")) == Ok([])
    ensures AllHostsIn(InventoryOf(Roots()), Nil) == Ok([])
    ensures AllHostsIn(InventoryOf(Roots()), Bool(false)) == Ok([])
    ensures AllHostsIn(InventoryOf(Roots()), List([])) == Ok([])
    ensures AllHostsIn(InventoryOf(Roots()), Map([])) == Ok([])
  {
  }

  /** Neither an empty group nor a host leaf has groups below it. */
  lemma LeavesHideNoGroups()
    ensures HiddenGroupsOf(Map([])) == Ok([])
    ensures HiddenGroupsOf(MLeaf()) == Ok([])
  {
  }

  /** Below `vb` are its two children and nothing further. */
  lemma VirtualboxHiddenGroups()
    ensures HiddenGroupsOf(Virtualbox()) == Ok(["vb-c", "vb-m"])
  {
    var vbc := Map([("vb-c", Map([])), ("vb-m", MLeaf())]);
    var nested := ["vb-c", "vb-m"];
    assert SlotOf(vbc.entries, 0) == 0 && SlotOf(vbc.entries, 1) == 1;
    LeavesHideNoGroups();
    var none: seq<string> := [];
    assert none + none == none;
    assert vbc.entries[0].1 == Map([]) && vbc.entries[1].1 == MLeaf();
    GroupsBelowStep(vbc, 1);
    GroupsBelowStep(vbc, 2);
    assert GroupsBelow(vbc, 1) == Ok([]);
    assert GroupsBelow(vbc, 2) == Ok([]);
    assert KeysOf(vbc.entries) == nested;
    assert nested + [] == nested;
    UniqOfDistinct(nested);
  }

  /** One step of the walk over a hash's children with distinct keys, once the
      walk so far and the child it reads next are known. */
  lemma GroupsBelowNext(children: Value, n: nat, prev: seq<string>, more: seq<string>)
    requires children.Map? && DistinctKeys(children.entries) && 0 < n <= |children.entries|
    requires GroupsBelow(children, n - 1) == Ok(prev)
    requires HiddenGroupsOf(children.entries[n - 1].1) == Ok(more)
    ensures GroupsBelow(children, n) == Ok(prev + more)
  {
    SlotOfDistinct(children.entries, n - 1);
    GroupsBelowStep(children, n);
  }

  /** A walk over children that each hide no groups finds nothing. */
  lemma {:induction false} WalkOfLeaves(children: Value, n: nat)
    requires children.Map? && DistinctKeys(children.entries) && n <= |children.entries|
    requires forall i :: 0 <= i < n ==> HiddenGroupsOf(children.entries[i].1) == Ok([])
    ensures GroupsBelow(children, n) == Ok([])
  {
    if n > 0 {
      WalkOfLeaves(children, n - 1);
      var none: seq<string> := [];
      GroupsBelowNext(children, n, none, none);
      assert none + none == none;
    }
  }

  /** A walk over children of which only the j-th hides groups finds exactly those. */
  lemma {:induction false} WalkFindsOne(children: Value, n: nat, j: nat, more: seq<string>)
    requires children.Map? && DistinctKeys(children.entries) && j < n <= |children.entries|
    requires HiddenGroupsOf(children.entries[j].1) == Ok(more)
    requires forall i :: 0 <= i < n && i != j ==> HiddenGroupsOf(children.entries[i].1) == Ok([])
    ensures GroupsBelow(children, n) == Ok(more)
  {
    if n - 1 == j {
      WalkOfLeaves(children, j);
      GroupsBelowNext(children, n, [], more);
      assert [] + more == more;
    } else {
      WalkFindsOne(children, n - 1, j, more);
      GroupsBelowNext(children, n, more, []);
      assert more + [] == more;
    }
  }

  /** Of the root groups only `vb` hides groups: its two children. */
  lemma RootChildGroups(i: nat)
    requires i < |Roots()|
    ensures HiddenGroupsOf(Roots()[i].1) == if i == 2 then Ok(["vb-c", "vb-m"]) else Ok([])
  {
    LeavesHideNoGroups();
    VirtualboxHiddenGroups();
  }

  /** The walk over the root groups finds the two names nested in `vb`. */
  lemma RootWalk()
    ensures GroupsBelow(Map(Roots()), 5) == Ok(["vb-c", "vb-m"])
  {
    RootsDistinct();
    forall i | 0 <= i < 5
      ensures HiddenGroupsOf(Roots()[i].1) == if i == 2 then Ok(["vb-c", "vb-m"]) else Ok([])
    {
      RootChildGroups(i);
    }
    WalkFindsOne(Map(Roots()), 5, 2, ["vb-c", "vb-m"]);
  }

  /** The root group names of the small inventory, in order, each once. */
  lemma RootNames()
    ensures KeysOf(Roots()) == ["mx", "ungrouped", "vb", "vb-c", "vb-m"]
    ensures NoDups(KeysOf(Roots()))
  {
    RootsDistinct();
  }

  /** all_groups lists the root groups in order; the two names also found
      below `vb` are root groups already and appear once. */
  lemma SimpleInventoryGroups()
    ensures GroupsOf(InventoryOf(Roots())) == Ok(["mx", "ungrouped", "vb", "vb-c", "vb-m"])
  {
    assert RootOfGroups(InventoryOf(Roots())) == Ok(Map(Roots()));
    RootNames();
    RootWalk();
    UniqAbsorbs(KeysOf(Roots()), ["vb-c", "vb-m"]);
  }

  /** An inventory that is an empty list raises the RuntimeError of root_of_groups. */
  lemma EmptyListInventoryRaises()
    ensures AllHostsIn(List([]), Str("foo")) == Err(Unexpected)
    ensures GroupsOf(List([])) == Err(Unexpected)
  {
  }

  /** A root that is a string or an array is indexed by position. An
      integer group name too wide for a C long raises RangeError; one that
      fits reads nil beyond the end, or a one-character string that
      resolve_hosts_of rejects. */
  lemma PositionalRootLookups()
    ensures AllHostsIn(Map([("all", Map([("children", Str("abc"))]))]), Num(0x1_0000_0000_0000_0000)) ==
              Err(OutOfRange)
    ensures AllHostsIn(Map([("all", Map([("children", List([Nil]))]))]), Num(-0x8000_0000_0000_0001)) ==
              Err(OutOfRange)
    ensures AllHostsIn(Map([("all", Map([("children", List([Nil]))]))]), Num(0x7FFF_FFFF_FFFF_FFFF)) == Ok([])
    ensures AllHostsIn(Map([("all", Map([("children", Str("abc"))]))]), Num(-3)) == Err(NoMethod)
  {
  }

  /** An ec2 inventory: the `ec2` group lists one host with its variables. */
  function Ec2Hosts(): seq<(string, Value)>
  {
    [("m_x", Map([("ansible_host", Str("10.0.0.1"))]))]
  }

  lemma Ec2InventoryLookups()
    ensures FindHostByEc2Hostname(InventoryOf([("ec2", Map([("hosts", Map(Ec2Hosts()))]))]), Str("m.x")) ==
              Ok(Map([("ansible_host", Str("10.0.0.1"))]))
    ensures FindHostByEc2Hostname(InventoryOf([("ec2", Map([("hosts", Map(Ec2Hosts()))]))]), Str("n.x")) ==
              Ok(Nil)
  {
  }

  /** An inventory without an `ec2` group makes the lookup raise. */
  lemma NoEc2GroupRaises()
    ensures FindHostByEc2Hostname(InventoryOf(Roots()), Str("m.x")) == Err(NoMethod)
  {
  }

  /** The two spellings are not one-to-one: a key with an underscore and a key
      with a dot report the same host name. */
  lemma DottedSpellingCollides()
    ensures ReplaceChar("m_x", '_', '.') == ReplaceChar("m.x", '_', '.')
  {
  }
}
