/**
 * What the resolver promises about the inventory tree: which hosts a group
 * resolves to and when it raises instead, which group names all_groups lists
 * and in what order, and how the two host spellings meet in the ec2 lookup.
 */
module InventoryProperties {
  import opened RubyValue
  import opened Inventory

  /** The value stored under `k` when `v` is a hash, nil otherwise. */
  function Under(v: Value, k: string): Value
  {
    if v.Map? then Lookup(v.entries, k) else Nil
  }

  // ---------------------------------------------------------------------------
  // resolve_hosts_of
  // ---------------------------------------------------------------------------

  /** An absent or empty group has no hosts, and resolving it does not raise. */
  lemma EmptyGroupHasNoHosts(group: Value)
    requires group == Nil || group == Map([]) || group == List([]) || group == Str("")
    ensures HostsOf(group) == Ok([])
  {
  }

  /** A group with `hosts` and no `children` resolves to exactly its host keys,
      in key order, each with every `_` spelled `.`. */
  lemma HostLeafHosts(es: seq<(string, Value)>, hosts: seq<(string, Value)>)
    requires es != [] && KeyIndex(es, "children") < 0 && Lookup(es, "hosts") == Map(hosts)
    ensures HostsOf(Map(es)).Ok?
    ensures |HostsOf(Map(es)).value| == |hosts|
    ensures forall i :: 0 <= i < |hosts| ==>
              HostsOf(Map(es)).value[i] == ReplaceChar(hosts[i].0, '_', '.')
    ensures forall h :: h in HostsOf(Map(es)).value ==> '_' !in h
  {
  }

  /** A non-empty group with neither `children` nor `hosts` raises, carrying
      the node; it is not an empty group. */
  lemma MalformedGroupRaises(es: seq<(string, Value)>)
    requires es != [] && KeyIndex(es, "children") < 0 && KeyIndex(es, "hosts") < 0
    ensures HostsOf(Map(es)) == Err(Bug(Map(es)))
  {
  }

  /** `children` takes precedence over `hosts`: once a group has a `children`
      entry, of any content, adding a `hosts` entry of any content at any
      position changes nothing. */
  lemma ChildrenTakePrecedence(es: seq<(string, Value)>, j: nat, hosts: Value)
    requires j <= |es| && 0 <= KeyIndex(es, "children")
    ensures HostsOf(Map(es[..j] + [("hosts", hosts)] + es[j..])) == HostsOf(Map(es))
  {
    KeyIndexInsert(es, j, ("hosts", hosts), "children");
  }

  /** The nodes resolve_hosts_of accepts: nil, an empty value, a host-leaf
      group with a `hosts` hash, or a group with a `children` hash every one of
      whose children is accepted in turn. */
  ghost predicate Resolvable(v: Value)
  {
    match v
    case Nil => true
    case Bool(_) => false
    case Num(_) => false
    case Str(s) => s == []
    case List(xs) => xs == []
    case Map(es) =>
      es == [] ||
      var c := KeyIndex(es, "children");
      if 0 <= c then
        var children := es[c].1;
        children.Map? &&
        forall i :: 0 <= i < |children.entries| ==> Resolvable(children.entries[i].1)
      else
        Lookup(es, "hosts").Map?
  }

  /** resolve_hosts_of raises exactly when some node it reaches is malformed. */
  lemma {:induction false} HostsOfSucceedsIffResolvable(group: Value)
    requires WellFormed(group)
    ensures HostsOf(group).Ok? <==> Resolvable(group)
    decreases group, 1
  {
    match group
    case Map(es) =>
      var c := KeyIndex(es, "children");
      if es != [] && 0 <= c && es[c].1.Map? {
        var children := es[c].1;
        ChildHostsSucceedIffResolvable(children, |children.entries|);
      }
    case _ =>
  }

  lemma {:induction false} ChildHostsSucceedIffResolvable(children: Value, n: nat)
    requires children.Map? && n <= |children.entries| && WellFormed(children)
    ensures ChildHosts(children, n).Ok? <==>
              forall i :: 0 <= i < n ==> Resolvable(children.entries[i].1)
    decreases children, 0, n
  {
    if n > 0 {
      var es := children.entries;
      var child := es[n - 1].1;
      assert WellFormed(child);
      ChildHostsSucceedIffResolvable(children, n - 1);
      HostsOfSucceedsIffResolvable(child);
      assert ChildHosts(children, n).Ok? <==> ChildHosts(children, n - 1).Ok? && HostsOf(child).Ok? by {
        SlotOfDistinct(es, n - 1);
        ChildHostsOkStep(children, n);
      }
      ResolvableStep(es, n);
    }
  }

  lemma ResolvableStep(es: seq<(string, Value)>, n: nat)
    requires 0 < n <= |es|
    ensures (forall i :: 0 <= i < n ==> Resolvable(es[i].1)) <==>
            (forall i :: 0 <= i < n - 1 ==> Resolvable(es[i].1)) && Resolvable(es[n - 1].1)
  {
  }

  /** `host` is the dotted name of a host key somewhere below `v`, reached
      through `children` hashes, where a `children` hash hides any `hosts`. */
  ghost predicate HostBelow(v: Value, host: string)
  {
    match v
    case Map(es) =>
      var c := KeyIndex(es, "children");
      if 0 <= c then
        var children := es[c].1;
        children.Map? &&
        exists i :: 0 <= i < |children.entries| && HostBelow(children.entries[i].1, host)
      else
        var hosts := Lookup(es, "hosts");
        hosts.Map? &&
        exists i :: 0 <= i < |hosts.entries| && host == ReplaceChar(hosts.entries[i].0, '_', '.')
    case _ => false
  }

  /** When resolve_hosts_of succeeds, it returns every host below the group at
      any depth, and nothing else. */
  lemma {:induction false} HostsOfIsEveryHostBelow(group: Value, host: string)
    requires WellFormed(group) && HostsOf(group).Ok?
    ensures host in HostsOf(group).value <==> HostBelow(group, host)
    decreases group, 1
  {
    match group
    case Map(es) =>
      var c := KeyIndex(es, "children");
      if es != [] && 0 <= c {
        var children := es[c].1;
        ChildHostsAreEveryHostBelow(children, |children.entries|, host);
      } else if es != [] {
        var hosts := Lookup(es, "hosts").entries;
        var hs := HostsOf(group).value;
        assert hs == DottedKeys(hosts);
        if host in hs {
          var i :| 0 <= i < |hs| && hs[i] == host;
          assert host == ReplaceChar(hosts[i].0, '_', '.');
        }
      }
    case _ =>
  }

  lemma {:induction false} ChildHostsAreEveryHostBelow(children: Value, n: nat, host: string)
    requires children.Map? && n <= |children.entries| && WellFormed(children)
    requires ChildHosts(children, n).Ok?
    ensures host in ChildHosts(children, n).value <==>
              exists i :: 0 <= i < n && HostBelow(children.entries[i].1, host)
    decreases children, 0, n
  {
    if n > 0 {
      var es := children.entries;
      var child := es[n - 1].1;
      assert WellFormed(child);
      var before := ChildHosts(children, n - 1);
      var more := HostsOf(child);
      assert before.Ok? && more.Ok? && ChildHosts(children, n).value == before.value + more.value by {
        SlotOfDistinct(es, n - 1);
        ChildHostsStep(children, n);
      }
      ChildHostsAreEveryHostBelow(children, n - 1, host);
      HostsOfIsEveryHostBelow(child, host);
      HostBelowStep(es, n, host);
    }
  }

  lemma HostBelowStep(es: seq<(string, Value)>, n: nat, host: string)
    requires 0 < n <= |es|
    ensures (exists i :: 0 <= i < n && HostBelow(es[i].1, host)) <==>
            (exists i :: 0 <= i < n - 1 && HostBelow(es[i].1, host)) || HostBelow(es[n - 1].1, host)
  {
  }

  // ---------------------------------------------------------------------------
  // all_hosts_in, root_of_groups
  // ---------------------------------------------------------------------------

  /** all_hosts_in looks the name up among the root groups: a name that is not
      a root group (nil, false, [] and {} never are) has no hosts, and a root
      group has the hosts resolve_hosts_of finds for it. */
  lemma AllHostsInLooksUpRootGroup(config: Value, root: seq<(string, Value)>, group: Value)
    requires RootOfGroups(config) == Ok(Map(root))
    ensures !group.Str? ==> AllHostsIn(config, group) == Ok([])
    ensures group.Str? && KeyIndex(root, group.s) < 0 ==> AllHostsIn(config, group) == Ok([])
    ensures group.Str? && 0 <= KeyIndex(root, group.s) ==>
              AllHostsIn(config, group) == HostsOf(root[KeyIndex(root, group.s)].1)
  {
  }

  /** A tree that is not a hash, or whose `all` is missing or neither a hash
      nor a string, or whose `all` hash has a `children` that is missing, nil
      or a boolean, makes both all_hosts_in and all_groups raise. */
  lemma MalformedRootRaises(config: Value, group: Value)
    requires !config.Map? || (!Under(config, "all").Map? && !Under(config, "all").Str?) ||
             (Under(config, "all").Map? &&
              (Under(Under(config, "all"), "children").Nil? || Under(Under(config, "all"), "children").Bool?))
    ensures AllHostsIn(config, group).Err?
    ensures GroupsOf(config).Err?
  {
  }

  // ---------------------------------------------------------------------------
  // find_hidden_groups, all_groups
  // ---------------------------------------------------------------------------

  /** An absent node, false, a node without `children` and a node whose
      `children` is not a hash are leaves of the group walk: they add nothing. */
  lemma HiddenGroupsOfLeaf(parent: Value)
    requires parent == Nil || parent == Bool(false) ||
             (parent.Map? && (KeyIndex(parent.entries, "children") < 0 ||
                              !Lookup(parent.entries, "children").Map?))
    ensures HiddenGroupsOf(parent) == Ok([])
  {
  }

  /** The nodes find_hidden_groups walks without raising: nil, false, and a
      hash whose `children`, when it is a hash, holds only such nodes. */
  ghost predicate Walkable(v: Value)
  {
    match v
    case Nil => true
    case Bool(b) => !b
    case Num(_) => false
    case Str(_) => false
    case List(_) => false
    case Map(es) =>
      var c := KeyIndex(es, "children");
      if 0 <= c then
        var children := es[c].1;
        !children.Map? ||
        forall i :: 0 <= i < |children.entries| ==> Walkable(children.entries[i].1)
      else
        true
  }

  /** find_hidden_groups raises exactly when some node it reaches is true, a
      number, a string or an array. */
  lemma {:induction false} HiddenGroupsSucceedIffWalkable(parent: Value)
    requires WellFormed(parent)
    ensures HiddenGroupsOf(parent).Ok? <==> Walkable(parent)
    decreases parent, 1
  {
    match parent
    case Map(es) =>
      var c := KeyIndex(es, "children");
      if 0 <= c && es[c].1.Map? {
        var children := es[c].1;
        GroupsBelowSucceedIffWalkable(children, |children.entries|);
      }
    case _ =>
  }

  lemma {:induction false} GroupsBelowSucceedIffWalkable(children: Value, n: nat)
    requires children.Map? && n <= |children.entries| && WellFormed(children)
    ensures GroupsBelow(children, n).Ok? <==>
              forall i :: 0 <= i < n ==> Walkable(children.entries[i].1)
    decreases children, 0, n
  {
    if n > 0 {
      var es := children.entries;
      var child := es[n - 1].1;
      assert WellFormed(child);
      GroupsBelowSucceedIffWalkable(children, n - 1);
      HiddenGroupsSucceedIffWalkable(child);
      assert GroupsBelow(children, n).Ok? <==> GroupsBelow(children, n - 1).Ok? && HiddenGroupsOf(child).Ok? by {
        SlotOfDistinct(es, n - 1);
        GroupsBelowOkStep(children, n);
      }
      WalkableStep(es, n);
    }
  }

  lemma WalkableStep(es: seq<(string, Value)>, n: nat)
    requires 0 < n <= |es|
    ensures (forall i :: 0 <= i < n ==> Walkable(es[i].1)) <==>
            (forall i :: 0 <= i < n - 1 ==> Walkable(es[i].1)) && Walkable(es[n - 1].1)
  {
  }

  /** Over a hash of root groups, all_groups raises exactly when some node
      below a root group is true, a number, a string or an array. */
  lemma AllGroupsSucceedIffWalkable(config: Value, root: seq<(string, Value)>)
    requires RootOfGroups(config) == Ok(Map(root)) && WellFormed(Map(root))
    ensures GroupsOf(config).Ok? <==> forall i :: 0 <= i < |root| ==> Walkable(root[i].1)
  {
    GroupsBelowSucceedIffWalkable(Map(root), |root|);
  }

  /** `name` is a group nested at some depth under the `children` of `parent`. */
  ghost predicate GroupBelow(parent: Value, name: string)
  {
    match parent
    case Map(es) =>
      var c := KeyIndex(es, "children");
      0 <= c && es[c].1.Map? &&
      var children := es[c].1.entries;
      exists i :: 0 <= i < |children| && (children[i].0 == name || GroupBelow(children[i].1, name))
    case _ => false
  }

  /** When find_hidden_groups succeeds, it lists every group nested under the
      node at any depth, and nothing else. */
  lemma {:induction false} HiddenGroupsAreEveryGroupBelow(parent: Value, name: string)
    requires WellFormed(parent) && HiddenGroupsOf(parent).Ok?
    ensures name in HiddenGroupsOf(parent).value <==> GroupBelow(parent, name)
    decreases parent, 1
  {
    match parent
    case Map(es) =>
      var c := KeyIndex(es, "children");
      if 0 <= c && es[c].1.Map? {
        var children := es[c].1;
        var ces := children.entries;
        GroupsBelowAreEveryGroupBelow(children, |ces|, name);
        InKeysOf(ces, name);
      }
    case _ =>
  }

  lemma {:induction false} GroupsBelowAreEveryGroupBelow(children: Value, n: nat, name: string)
    requires children.Map? && n <= |children.entries| && WellFormed(children)
    requires GroupsBelow(children, n).Ok?
    ensures name in GroupsBelow(children, n).value <==>
              exists i :: 0 <= i < n && GroupBelow(children.entries[i].1, name)
    decreases children, 0, n
  {
    if n > 0 {
      var es := children.entries;
      var child := es[n - 1].1;
      assert WellFormed(child);
      var before := GroupsBelow(children, n - 1);
      var more := HiddenGroupsOf(child);
      assert before.Ok? && more.Ok? && GroupsBelow(children, n).value == before.value + more.value by {
        SlotOfDistinct(es, n - 1);
        GroupsBelowStep(children, n);
      }
      GroupsBelowAreEveryGroupBelow(children, n - 1, name);
      HiddenGroupsAreEveryGroupBelow(child, name);
      GroupBelowStep(es, n, name);
    }
  }

  lemma GroupBelowStep(es: seq<(string, Value)>, n: nat, name: string)
    requires 0 < n <= |es|
    ensures (exists i :: 0 <= i < n && GroupBelow(es[i].1, name)) <==>
            (exists i :: 0 <= i < n - 1 && GroupBelow(es[i].1, name)) || GroupBelow(es[n - 1].1, name)
  {
  }

  /** When all_groups succeeds, it lists each root group and each group nested
      under one at any depth, each exactly once, and nothing else. */
  lemma AllGroupsAreEveryGroup(config: Value, root: seq<(string, Value)>, name: string)
    requires RootOfGroups(config) == Ok(Map(root)) && WellFormed(Map(root))
    requires GroupsOf(config).Ok?
    ensures NoDups(GroupsOf(config).value)
    ensures name in GroupsOf(config).value <==>
              (exists i :: 0 <= i < |root| && root[i].0 == name) ||
              (exists i :: 0 <= i < |root| && GroupBelow(root[i].1, name))
  {
    var below := GroupsBelow(Map(root), |root|).value;
    assert GroupsOf(config).value == Uniq(KeysOf(root) + below);
    GroupsBelowAreEveryGroupBelow(Map(root), |root|, name);
    InKeysOf(root, name);
  }

  /** all_groups lists the root groups first, in the tree's own key order. */
  lemma AllGroupsRootFirst(config: Value, root: seq<(string, Value)>)
    requires RootOfGroups(config) == Ok(Map(root)) && DistinctKeys(root)
    requires GroupsOf(config).Ok?
    ensures KeysOf(root) <= GroupsOf(config).value
  {
    var keys := KeysOf(root);
    var below := GroupsBelow(Map(root), |root|).value;
    assert GroupsOf(config).value == Uniq(keys + below);
    UniqPrefix(keys, below);
    UniqOfDistinct(keys);
  }

  // ---------------------------------------------------------------------------
  // find_host_by_ec2_hostname and the two host spellings
  // ---------------------------------------------------------------------------

  /** A tree without an `ec2` root group makes the ec2 lookup raise: nil has
      no `[]`. */
  lemma Ec2LookupWithoutEc2Raises(config: Value, hostname: Value)
    requires Under(Under(config, "all"), "children").Map?
    requires KeyIndex(Under(Under(config, "all"), "children").entries, "ec2") < 0
    ensures FindHostByEc2Hostname(config, hostname) == Err(NoMethod)
  {
  }

  /** Under an existing `ec2` `hosts` hash, the lookup reads the key spelled
      with `_` for `.`, and yields nil when there is none. */
  lemma Ec2LookupSpelling(config: Value, hosts: seq<(string, Value)>, hostname: string)
    requires Under(Under(Under(Under(config, "all"), "children"), "ec2"), "hosts") == Map(hosts)
    ensures FindHostByEc2Hostname(config, Str(hostname)) ==
              Ok(Lookup(hosts, ReplaceChar(hostname, '.', '_')))
    ensures KeyIndex(hosts, ReplaceChar(hostname, '.', '_')) < 0 ==>
              FindHostByEc2Hostname(config, Str(hostname)) == Ok(Nil)
  {
  }

  /** The host names resolve_hosts_of reports for the `ec2` group find their
      own entries again through find_host_by_ec2_hostname, for every host key
      without a literal `.`. */
  lemma Ec2HostsRoundTrip(config: Value, ec2: seq<(string, Value)>, hosts: seq<(string, Value)>, i: nat)
    requires Under(Under(Under(config, "all"), "children"), "ec2") == Map(ec2)
    requires KeyIndex(ec2, "children") < 0 && Lookup(ec2, "hosts") == Map(hosts)
    requires DistinctKeys(hosts) && i < |hosts| && '.' !in hosts[i].0
    ensures AllHostsIn(config, Str("ec2")).Ok?
    ensures |AllHostsIn(config, Str("ec2")).value| == |hosts|
    ensures FindHostByEc2Hostname(config, Str(AllHostsIn(config, Str("ec2")).value[i])) == Ok(hosts[i].1)
  {
    var dotted := ReplaceChar(hosts[i].0, '_', '.');
    assert AllHostsIn(config, Str("ec2")) == HostsOf(Map(ec2));
    HostLeafHosts(ec2, hosts);
    ReplaceCharRoundTrip(hosts[i].0, '_', '.');
    Ec2LookupSpelling(config, hosts, dotted);
    SlotOfDistinct(hosts, i);
  }
}
