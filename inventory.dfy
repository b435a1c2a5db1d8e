/**
 * The group/host resolver of the AnsibleInventory class. The parsed inventory
 * (`config`, the result of `ansible-inventory --yaml --list`) is a parameter of
 * every operation; fetching and caching it is not part of this model.
 *
 * The three Ruby methods that grow accumulators in `each` loops
 * (resolve_hosts_of, find_hidden_groups, all_groups) are methods with while
 * loops here, each proved equal to a recursive function that says what it
 * computes; the single-expression lookups are functions.
 */
module Inventory {
  import opened RubyValue

  // ---------------------------------------------------------------------------
  // root_of_groups, all_hosts_in, find_host_by_ec2_hostname
  // ---------------------------------------------------------------------------

  /** `config["all"]["children"]`; whatever that raises becomes Unexpected. */
  function RootOfGroups(config: Value): (r: Result<Value>)
    ensures r.Err? ==> r.error == Unexpected
    ensures !config.Map? && !config.Str? ==> r == Err(Unexpected)
    ensures config.Map? && Lookup(config.entries, "all").Map? ==>
              r == Ok(Lookup(Lookup(config.entries, "all").entries, "children"))
    ensures config.Map? && !Lookup(config.entries, "all").Map? && !Lookup(config.entries, "all").Str? ==>
              r == Err(Unexpected)
  {
    match Index(config, Str("all"))
    case Err(_) => Err(Unexpected)
    case Ok(all) =>
      match Index(all, Str("children"))
      case Err(_) => Err(Unexpected)
      case Ok(children) => Ok(children)
  }

  /** `resolve_hosts_of(root_of_groups[group])`. */
  function AllHostsIn(config: Value, group: Value): (r: Result<seq<string>>)
    ensures RootOfGroups(config).Err? ==> r == Err(Unexpected)
  {
    var root :- RootOfGroups(config);
    var node :- Index(root, group);
    HostsOf(node)
  }

  /** `config["all"]["children"]["ec2"]["hosts"][hostname.gsub(/[.]/, "_")]`:
      the receiver chain is evaluated before the argument, and nothing is rescued. */
  function FindHostByEc2Hostname(config: Value, hostname: Value): (r: Result<Value>)
    ensures hostname.Str? && config.Map? && Lookup(config.entries, "all").Map? ==>
              var children := Lookup(Lookup(config.entries, "all").entries, "children");
              children.Map? && Lookup(children.entries, "ec2").Map? ==>
                var hosts := Lookup(Lookup(children.entries, "ec2").entries, "hosts");
                hosts.Map? ==> r == Ok(Lookup(hosts.entries, ReplaceChar(hostname.s, '.', '_')))
  {
    var all :- Index(config, Str("all"));
    var children :- Index(all, Str("children"));
    var ec2 :- Index(children, Str("ec2"));
    var hosts :- Index(ec2, Str("hosts"));
    var key :- match hostname
               case Str(h) => Ok(Str(ReplaceChar(h, '.', '_')))
               case _ => Err(NoMethod);
    Index(hosts, key)
  }

  // ---------------------------------------------------------------------------
  // resolve_hosts_of
  // ---------------------------------------------------------------------------

  /** The hosts of a host-leaf group: every key, `_` spelled `.`, in key order. */
  function DottedKeys(hosts: seq<(string, Value)>): (r: seq<string>)
    ensures |r| == |hosts|
    ensures forall i :: 0 <= i < |r| ==> r[i] == ReplaceChar(hosts[i].0, '_', '.')
  {
    seq(|hosts|, i requires 0 <= i < |hosts| => ReplaceChar(hosts[i].0, '_', '.'))
  }

  /** No reported host name holds `_`, and spelling `.` back as `_` gives the
      host key again whenever the key held no `.` of its own. */
  lemma DottedKeysSpelling(hosts: seq<(string, Value)>)
    ensures forall h :: h in DottedKeys(hosts) ==> '_' !in h
    ensures forall i :: 0 <= i < |hosts| && '.' !in hosts[i].0 ==>
              ReplaceChar(DottedKeys(hosts)[i], '.', '_') == hosts[i].0
  {
    forall i | 0 <= i < |hosts| && '.' !in hosts[i].0
      ensures ReplaceChar(DottedKeys(hosts)[i], '.', '_') == hosts[i].0
    {
      ReplaceCharRoundTrip(hosts[i].0, '_', '.');
    }
  }

  /** What resolve_hosts_of returns or raises for `group`. No host it returns
      is spelled with an underscore. */
  function HostsOf(group: Value): (r: Result<seq<string>>)
    ensures r.Ok? ==> forall h :: h in r.value ==> '_' !in h
    decreases group, 1
  {
    match group
    case Nil => Ok([])
    case Bool(_) => Err(NoMethod)                               // empty? is undefined
    case Num(_) => Err(NoMethod)
    case Str(s) => if s == [] then Ok([]) else Err(NoMethod)    // key? is undefined
    case List(xs) => if xs == [] then Ok([]) else Err(NoMethod)
    case Map(es) =>
      if es == [] then Ok([])
      else
        var c := KeyIndex(es, "children");
        if 0 <= c then
          var children := es[c].1;
          if children.Map? then ChildHosts(children, |children.entries|)
          else Err(NoMethod)                                    // each_key is undefined
        else
          var h := KeyIndex(es, "hosts");
          if h < 0 then Err(Bug(group))
          else if es[h].1.Map? then Ok(DottedKeys(es[h].1.entries))
          else Err(NoMethod)                                    // keys is undefined
  }

  /** The hosts of the first `n` children of a `children` hash, concatenated in
      key order; the first child that raises ends the walk. */
  function ChildHosts(children: Value, n: nat): (r: Result<seq<string>>)
    requires children.Map? && n <= |children.entries|
    ensures r.Ok? ==> forall h :: h in r.value ==> '_' !in h
    decreases children, 0, n
  {
    if n == 0 then Ok([])
    else
      var before :- ChildHosts(children, n - 1);
      var es := children.entries;
      var more :- HostsOf(es[SlotOf(es, n - 1)].1);
      Ok(before + more)
  }

  /** One step of the walk: the first child that raises ends it. */
  lemma ChildHostsStep(children: Value, n: nat)
    requires children.Map? && 0 < n <= |children.entries|
    ensures var es := children.entries;
            var before := ChildHosts(children, n - 1);
            var more := HostsOf(es[SlotOf(es, n - 1)].1);
            ChildHosts(children, n) ==
              if before.Err? then before
              else if more.Err? then Err(more.error)
              else Ok(before.value + more.value)
  {
  }

  /** The walk over n children succeeds exactly when the walk over the first
      n - 1 does and the n-th child resolves. */
  lemma ChildHostsOkStep(children: Value, n: nat)
    requires children.Map? && 0 < n <= |children.entries|
    ensures var es := children.entries;
            ChildHosts(children, n).Ok? <==>
              ChildHosts(children, n - 1).Ok? && HostsOf(es[SlotOf(es, n - 1)].1).Ok?
  {
  }

  /** Once a child raises, the walk over the later children raises the same. */
  lemma {:induction false} ChildHostsErrorPersists(children: Value, k: nat, n: nat)
    requires children.Map? && k <= n <= |children.entries|
    requires ChildHosts(children, k).Err?
    ensures ChildHosts(children, n) == ChildHosts(children, k)
    decreases n
  {
    if k < n {
      ChildHostsErrorPersists(children, k, n - 1);
      ChildHostsStep(children, n);
    }
  }

  /** resolve_hosts_of, with its loop over the children and its host-key map. */
  method ResolveHostsOf(group: Value) returns (r: Result<seq<string>>)
    ensures r == HostsOf(group)
    decreases group
  {
    var hosts: seq<string> := [];
    match group {
      case Nil => return Ok([]);
      case Bool(_) => return Err(NoMethod);
      case Num(_) => return Err(NoMethod);
      case Str(s) => return if s == [] then Ok([]) else Err(NoMethod);
      case List(xs) => return if xs == [] then Ok([]) else Err(NoMethod);
      case Map(es) =>
        if es == [] {
          return Ok([]);
        }
        var c := KeyIndex(es, "children");
        if 0 <= c {
          var children := es[c].1;
          if !children.Map? {
            return Err(NoMethod);
          }
          var ces := children.entries;
          var i := 0;
          while i < |ces|
            invariant 0 <= i <= |ces|
            invariant ChildHosts(children, i) == Ok(hosts)
          {
            var sub := ResolveHostsOf(ces[SlotOf(ces, i)].1);
            if sub.Err? {
              ChildHostsErrorPersists(children, i + 1, |ces|);
              return Err(sub.error);
            }
            hosts := hosts + sub.value;
            i := i + 1;
          }
          return Ok(hosts);
        }
        var h := KeyIndex(es, "hosts");
        if h < 0 {
          return Err(Bug(group));
        }
        if !es[h].1.Map? {
          return Err(NoMethod);
        }
        assert hosts + DottedKeys(es[h].1.entries) == DottedKeys(es[h].1.entries);
        hosts := hosts + DottedKeys(es[h].1.entries);
        return Ok(hosts);
    }
  }

  // ---------------------------------------------------------------------------
  // find_hidden_groups, all_groups
  // ---------------------------------------------------------------------------

  /** What find_hidden_groups returns or raises for `parent`: the keys of its
      `children` hash followed by everything found below each child, with
      duplicates dropped after their first occurrence. It never lists a name
      twice, and the only exception it raises is NoMethodError. */
  function HiddenGroupsOf(parent: Value): (r: Result<seq<string>>)
    ensures r.Ok? ==> NoDups(r.value)
    ensures r.Err? ==> r.error == NoMethod
    decreases parent, 1
  {
    match parent
    case Nil => Ok([])
    case Bool(b) => if b then Err(NoMethod) else Ok([])         // `!parent` holds only for false
    case Num(_) => Err(NoMethod)                                // key? is undefined
    case Str(_) => Err(NoMethod)
    case List(_) => Err(NoMethod)
    case Map(es) =>
      var c := KeyIndex(es, "children");
      if c < 0 || !es[c].1.Map? then Ok([])
      else
        var children := es[c].1;
        var below :- GroupsBelow(children, |children.entries|);
        Ok(Uniq(KeysOf(children.entries) + below))
  }

  /** find_hidden_groups of the first `n` children of a `children` hash,
      concatenated in key order; the first child that raises ends the walk,
      always with NoMethodError. */
  function GroupsBelow(children: Value, n: nat): (r: Result<seq<string>>)
    requires children.Map? && n <= |children.entries|
    ensures r.Err? ==> r.error == NoMethod
    decreases children, 0, n
  {
    if n == 0 then Ok([])
    else
      var before :- GroupsBelow(children, n - 1);
      var es := children.entries;
      var more :- HiddenGroupsOf(es[SlotOf(es, n - 1)].1);
      Ok(before + more)
  }

  /** One step of the walk: the first child that raises ends it. */
  lemma GroupsBelowStep(children: Value, n: nat)
    requires children.Map? && 0 < n <= |children.entries|
    ensures var es := children.entries;
            var before := GroupsBelow(children, n - 1);
            var more := HiddenGroupsOf(es[SlotOf(es, n - 1)].1);
            GroupsBelow(children, n) ==
              if before.Err? then before
              else if more.Err? then Err(more.error)
              else Ok(before.value + more.value)
  {
  }

  /** The walk over n children succeeds exactly when the walk over the first
      n - 1 does and find_hidden_groups of the n-th child does. */
  lemma GroupsBelowOkStep(children: Value, n: nat)
    requires children.Map? && 0 < n <= |children.entries|
    ensures var es := children.entries;
            GroupsBelow(children, n).Ok? <==>
              GroupsBelow(children, n - 1).Ok? && HiddenGroupsOf(es[SlotOf(es, n - 1)].1).Ok?
  {
  }

  /** Once a child raises, the walk over the later children raises the same. */
  lemma {:induction false} GroupsBelowErrorPersists(children: Value, k: nat, n: nat)
    requires children.Map? && k <= n <= |children.entries|
    requires GroupsBelow(children, k).Err?
    ensures GroupsBelow(children, n) == GroupsBelow(children, k)
    decreases n
  {
    if k < n {
      GroupsBelowErrorPersists(children, k, n - 1);
      GroupsBelowStep(children, n);
    }
  }

  /** What all_groups returns or raises: the root group names, then every name
      found below them, each once. */
  function GroupsOf(config: Value): (r: Result<seq<string>>)
    ensures RootOfGroups(config).Err? ==> r == Err(Unexpected)
    ensures r.Ok? ==> NoDups(r.value)
  {
    var root :- RootOfGroups(config);
    if !root.Map? then Err(NoMethod)                            // keys is undefined
    else
      var below :- GroupsBelow(root, |root.entries|);
      Ok(Uniq(KeysOf(root.entries) + below))
  }

  /** find_hidden_groups. `found.each` walks the key array it started with;
      `found += ...` rebinds `found` to a longer array the walk never sees, so
      what is appended is exactly the walk over the children. */
  method FindHiddenGroups(parent: Value) returns (r: Result<seq<string>>)
    ensures r == HiddenGroupsOf(parent)
    decreases parent, 1
  {
    match parent {
      case Nil => return Ok([]);
      case Bool(b) => return if b then Err(NoMethod) else Ok([]);
      case Num(_) => return Err(NoMethod);
      case Str(_) => return Err(NoMethod);
      case List(_) => return Err(NoMethod);
      case Map(es) =>
        var c := KeyIndex(es, "children");
        if c < 0 || !es[c].1.Map? {
          return Ok([]);
        }
        var children := es[c].1;
        var found := KeysOf(children.entries);
        var below := CollectHiddenGroups(children);
        if below.Err? {
          return Err(below.error);
        }
        found := found + below.value;
        return Ok(Uniq(found));
    }
  }

  /** The `each` loop shared by find_hidden_groups and all_groups: for each key
      of a hash, in order, find_hidden_groups of its value, all appended. */
  method CollectHiddenGroups(children: Value) returns (r: Result<seq<string>>)
    requires children.Map?
    ensures r == GroupsBelow(children, |children.entries|)
    decreases children, 0
  {
    var ces := children.entries;
    var found: seq<string> := [];
    var i := 0;
    while i < |ces|
      invariant 0 <= i <= |ces|
      invariant GroupsBelow(children, i) == Ok(found)
    {
      var sub := FindHiddenGroups(ces[SlotOf(ces, i)].1);
      if sub.Err? {
        GroupsBelowErrorPersists(children, i + 1, |ces|);
        return Err(sub.error);
      }
      found := found + sub.value;
      i := i + 1;
    }
    return Ok(found);
  }

  /** all_groups: the root keys, then find_hidden_groups of each root group
      appended to `hidden_groups`, and `uniq` over the whole. */
  method AllGroups(config: Value) returns (r: Result<seq<string>>)
    ensures r == GroupsOf(config)
  {
    var rootResult := RootOfGroups(config);
    if rootResult.Err? {
      return Err(rootResult.error);
    }
    var root := rootResult.value;
    if !root.Map? {
      return Err(NoMethod);
    }
    var groups := KeysOf(root.entries);
    var hidden := CollectHiddenGroups(root);
    if hidden.Err? {
      return Err(hidden.error);
    }
    return Ok(Uniq(groups + hidden.value));
  }
}
