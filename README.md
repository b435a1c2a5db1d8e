# ansibleinventory resolver, modelled in Dafny

`AnsibleInventory` (in `lib/ansibleinventory.rb`) reads the tree that
`ansible-inventory --yaml --list` prints and answers questions about it.
`config["all"]["children"]` holds the root groups. A group is a hash that has
either a `children` hash of nested groups or a `hosts` hash of host keys. Host
keys spell dots as underscores. The resolver can:

- list the hosts of a group, at any depth (`resolve_hosts_of`, `all_hosts_in`);
- list every group name, root or nested, once each (`find_hidden_groups`,
  `all_groups`);
- look up a host's variables under the `ec2` group by its dotted name
  (`find_host_by_ec2_hostname`).

The model has four modules:

- `RubyValue` (`ruby_value.dfy`) describes a value that `YAML.safe_load` yields:
  nil, booleans, integers, strings, arrays, and hashes as association lists in
  insertion order. It also covers the Ruby core methods the resolver calls.
  Each method has Ruby's answers, including the exception it raises on a
  receiver of the wrong kind, or on an integer index too wide for a 64-bit C
  long:
  - `Hash#[]`, `String#[]`, `Array#[]` and `Integer#[]`, all as `Index`;
  - `String#gsub` with a one-character pattern, as `ReplaceChar`;
  - `Array#uniq`, as `Uniq`;
  - `keys`, as `KeysOf`.
- `Inventory` (`inventory.dfy`) holds the resolver.
  - The three Ruby methods that grow an accumulator in an `each` loop are Dafny
    methods with `while` loops: `ResolveHostsOf`, `FindHiddenGroups` with
    `CollectHiddenGroups`, and `AllGroups`. Each is proved equal to a recursive
    function: `HostsOf`, `HiddenGroupsOf` or `GroupsOf`.
  - The one-expression lookups are functions: `RootOfGroups`, `AllHostsIn` and
    `FindHostByEc2Hostname`.
  - Every exception the Ruby code can raise on the tree it is given is an
    `Err`:
    - the `RuntimeError` of `root_of_groups`;
    - the `RuntimeError` of `resolve_hosts_of`, which carries the offending node;
    - `NoMethodError`;
    - `TypeError`;
    - `RangeError`.
- `InventoryProperties` (`inventory_properties.dfy`) proves what the resolver
  computes:
  - which trees `resolve_hosts_of` accepts;
  - that it returns exactly the hosts below a group;
  - that `find_hidden_groups` and `all_groups` return exactly the groups below,
    each once, with the root groups first;
  - that `children` takes precedence over `hosts`;
  - that the underscore and dot spellings round-trip through
    `find_host_by_ec2_hostname`.
- `InventoryExamples` (`inventory_examples.dfy`) works through trees shaped
  like those in the repository's tests.

The parsed inventory is a parameter of every operation. Running
`ansible-inventory`, parsing its YAML and caching the result are not modelled.

Two behaviours of the code are easy to miss, and the model keeps both:

- A tree without an `ec2` root group makes `find_host_by_ec2_hostname` raise
  `NoMethodError`. It does not answer "not found".
- Recursion has no depth bound and no cycle check. A finite value cannot be
  cyclic, so every walk in the model ends.

## Model

| member | source | states |
|---|---|---|
| Inventory.RootOfGroups | lib/ansibleinventory.rb:89-96 | `config["all"]["children"]`; any exception along the way becomes the one RuntimeError. A tree that is neither a hash nor a string raises it. So does a hash whose `all` is missing, nil, a boolean, a number or an array. A hash whose `all` is a hash yields that hash's `children` entry, or nil. |
| Inventory.AllHostsIn | lib/ansibleinventory.rb:81-83 | A malformed tree raises the RuntimeError of `root_of_groups`. |
| InventoryProperties.AllHostsInLooksUpRootGroup | lib/ansibleinventory.rb:81-83 | A name that is not a root group has no hosts. So has any argument that is not a string (nil, false, `[]`, `{}`). A root group has the hosts `resolve_hosts_of` finds for it. |
| InventoryProperties.MalformedRootRaises | lib/ansibleinventory.rb:81-105 | Both `all_hosts_in` and `all_groups` raise on three kinds of tree. The first is a tree that is not a hash. The second has an `all` that is neither a hash nor a string. The third has an `all` hash whose `children` is missing, nil or a boolean. |
| Inventory.FindHostByEc2Hostname | lib/ansibleinventory.rb:119-121 | Along a path of hashes, the result is the `ec2` `hosts` entry under the name with every `.` spelled `_`, or nil. |
| InventoryProperties.Ec2LookupSpelling | lib/ansibleinventory.rb:119-121 | Under an existing `ec2` `hosts` hash, the lookup reads the underscore spelling of the name. It yields nil for an absent key. |
| InventoryProperties.Ec2LookupWithoutEc2Raises | lib/ansibleinventory.rb:119-121 | A tree whose root groups lack `ec2` makes the lookup raise NoMethodError. |
| InventoryProperties.Ec2HostsRoundTrip | lib/ansibleinventory.rb:119-137 | Take each host name `resolve_hosts_of` reports for an `ec2` host-leaf group. Through `find_host_by_ec2_hostname`, it leads back to that host's own variables. This holds for every host key without a literal `.`. |
| Inventory.DottedKeysSpelling | lib/ansibleinventory.rb:132 | No reported host name contains `_`. Spelling each `.` of a reported name back as `_` gives its host key again, whenever that key had no `.` of its own. |
| Inventory.HostsOf | lib/ansibleinventory.rb:123-137 | No host name it returns contains `_`. |
| Inventory.ChildHosts | lib/ansibleinventory.rb:128-130 | No name the walk over the first n children returns contains `_`. |
| Inventory.ResolveHostsOf | lib/ansibleinventory.rb:123-137 | The loop over the children computes exactly `HostsOf`, with its accumulator and its early exit on an exception. |
| Inventory.ChildHostsErrorPersists | lib/ansibleinventory.rb:128-130 | Once a child raises, the walk over any longer prefix raises the same exception. |
| InventoryProperties.EmptyGroupHasNoHosts | lib/ansibleinventory.rb:125 | nil and every empty value have no hosts and do not raise. |
| InventoryProperties.HostLeafHosts | lib/ansibleinventory.rb:131-132 | A group with `hosts` and no `children` resolves to one name per host key, in key order, each dotted. |
| InventoryProperties.MalformedGroupRaises | lib/ansibleinventory.rb:133-134 | A non-empty group with neither `children` nor `hosts` raises the RuntimeError that carries the node. |
| InventoryProperties.ChildrenTakePrecedence | lib/ansibleinventory.rb:127-132 | Take a group with a `children` entry of any content. Inserting a `hosts` entry of any content at any position changes neither its hosts nor what it raises. |
| InventoryProperties.HostsOfSucceedsIffResolvable | lib/ansibleinventory.rb:123-137 | `resolve_hosts_of` succeeds if and only if every node it reaches is nil, empty, a `hosts` leaf or a `children` group. |
| InventoryProperties.ChildHostsSucceedIffResolvable | lib/ansibleinventory.rb:128-130 | The walk over n children succeeds if and only if each of them is resolvable. |
| InventoryProperties.HostsOfIsEveryHostBelow | lib/ansibleinventory.rb:123-137 | On success, a name is returned if and only if it is the dotted key of a host somewhere below the group. |
| InventoryProperties.ChildHostsAreEveryHostBelow | lib/ansibleinventory.rb:128-130 | On success, the walk over n children returns exactly the hosts below those children. |
| Inventory.HiddenGroupsOf | lib/ansibleinventory.rb:107-117 | What `find_hidden_groups` returns never holds a name twice. The only exception it raises is NoMethodError. |
| Inventory.GroupsBelow | lib/ansibleinventory.rb:101-103 | The walk over the first n children of a hash, used by lines 113-115 and by `all_groups`, raises nothing but NoMethodError. |
| Inventory.GroupsBelowErrorPersists | lib/ansibleinventory.rb:113-115 | Once a child raises, the walk over any longer prefix raises the same exception. |
| Inventory.FindHiddenGroups | lib/ansibleinventory.rb:107-117 | The method computes exactly `HiddenGroupsOf`. The `each` walks the key array taken before `found += ...` rebinds `found`. |
| Inventory.CollectHiddenGroups | lib/ansibleinventory.rb:101-103 | The loop over a hash's children appends `find_hidden_groups` of each. It computes exactly the walk `GroupsBelow`, early exit included. It is shared by `find_hidden_groups` (lines 113-115) and `all_groups`. |
| Inventory.GroupsOf | lib/ansibleinventory.rb:98-105 | A malformed tree raises the RuntimeError of `root_of_groups`. A successful result never holds a name twice. |
| Inventory.AllGroups | lib/ansibleinventory.rb:98-105 | The method computes exactly `GroupsOf`. |
| InventoryProperties.HiddenGroupsOfLeaf | lib/ansibleinventory.rb:108-110 | nil, false, a node without `children` and a node whose `children` is not a hash add no groups and do not raise. |
| InventoryProperties.HiddenGroupsSucceedIffWalkable | lib/ansibleinventory.rb:107-117 | `find_hidden_groups` succeeds if and only if it reaches no node that is true, a number, a string or an array. |
| InventoryProperties.GroupsBelowSucceedIffWalkable | lib/ansibleinventory.rb:113-115 | The walk over n children succeeds if and only if each of them is walkable in that sense. |
| InventoryProperties.AllGroupsSucceedIffWalkable | lib/ansibleinventory.rb:98-105 | Over a hash of root groups, `all_groups` succeeds if and only if every root group is walkable. |
| InventoryProperties.HiddenGroupsAreEveryGroupBelow | lib/ansibleinventory.rb:107-117 | On success, a name is returned if and only if it names a group nested at some depth under the node. |
| InventoryProperties.GroupsBelowAreEveryGroupBelow | lib/ansibleinventory.rb:113-115 | On success, the walk over n children returns exactly the groups nested under those children. |
| InventoryProperties.AllGroupsAreEveryGroup | lib/ansibleinventory.rb:98-105 | On success, `all_groups` lists each root group and each group nested under one. Each appears exactly once, and nothing else appears. |
| InventoryProperties.AllGroupsRootFirst | lib/ansibleinventory.rb:99-104 | The root groups come first, in the tree's key order. |
| RubyValue.Index | lib/ansibleinventory.rb:82 | Element reference raises exactly in three cases. On nil and booleans it raises NoMethodError (`[]` is undefined). On a string given neither an integer nor a string, or an array or integer given a non-integer, it raises TypeError. On a string or array given an integer outside -2^63 .. 2^63 - 1, it raises RangeError. A hash given a non-string key answers nil. |
| RubyValue.IndexHash | lib/ansibleinventory.rb:92 | `h[k]` on a hash with distinct keys answers the value of the entry carrying `k`, and nil when no entry does. |
| RubyValue.IndexSubstring | lib/ansibleinventory.rb:92 | `s[k]` on a string answers `k` when `k` occurs in `s` at some position, and nil otherwise. |
| RubyValue.IndexByPosition | lib/ansibleinventory.rb:82 | An integer group name indexes a string or array root by position. For an index that fits a 64-bit long: a non-negative one counts from the front, a negative one reads what the index plus the length reads, and one out of range on either side is nil. A wider index raises RangeError. |
| RubyValue.Bit | lib/ansibleinventory.rb:82 | `n[k]` on an integer root is a bit: 0 or 1. Bit 0 is the parity, and a negative position reads 0. |
| RubyValue.BitsOfMinusOne | lib/ansibleinventory.rb:82 | Bits are two's complement: every bit of -1 is set. |
| RubyValue.Lookup | lib/ansibleinventory.rb:92 | `h[k]` answers nil or the value of some entry carrying `k`. |
| RubyValue.LookupFound | lib/ansibleinventory.rb:129 | With distinct keys, `h[k]` answers the value of the entry carrying `k`. |
| RubyValue.LookupMissing | lib/ansibleinventory.rb:92 | A key that is not among `h.keys` answers nil. |
| RubyValue.KeyIndexFirst | lib/ansibleinventory.rb:92 | A hash lookup finds the first entry under the key. It answers "absent" only when no entry has the key. |
| RubyValue.KeyIndexInsert | lib/ansibleinventory.rb:127-132 | Inserting an entry under another key, at any position, leaves the key present with the value it had. |
| RubyValue.KeysOf | lib/ansibleinventory.rb:99 | `h.keys` gives one key per entry, in entry order, and no key twice in a hash with distinct keys. |
| RubyValue.SlotOf | lib/ansibleinventory.rb:129 | `h[h.keys[i]]` reads an entry that carries the i-th key. |
| RubyValue.SlotOfDistinct | lib/ansibleinventory.rb:129 | With distinct keys, `h[h.keys[i]]` is the i-th value. |
| RubyValue.InKeysOf | lib/ansibleinventory.rb:99 | A string is among `h.keys` if and only if some entry carries it. |
| RubyValue.IsSubstring | lib/ansibleinventory.rb:92 | The test `String#[]` makes is true if and only if `k` occurs in `s` at some position. |
| RubyValue.ReplaceChar | lib/ansibleinventory.rb:132 | `gsub` with one character keeps the length and replaces exactly the occurrences of that character. Afterwards the replaced character no longer occurs. |
| RubyValue.ReplaceCharRoundTrip | lib/ansibleinventory.rb:120 | Spelling `_` as `.` and back restores every text that had no `.`. |
| RubyValue.Uniq | lib/ansibleinventory.rb:104 | `uniq` keeps exactly the same elements, each once, and is never longer. |
| RubyValue.UniqPrefix | lib/ansibleinventory.rb:104 | The distinct elements of a prefix lead the distinct elements of the whole. |
| RubyValue.UniqOfDistinct | lib/ansibleinventory.rb:116 | `uniq` leaves a duplicate-free list unchanged. |
| RubyValue.UniqAbsorbs | lib/ansibleinventory.rb:104 | Take a duplicate-free list followed by elements it already holds. `uniq` of the two gives back the first list. |
| InventoryExamples.NestedGroupHosts | spec/ansibleinventory_spec.rb:28-57 | A group four levels deep yields both of its hosts, dotted, in key order. |
| InventoryExamples.SimpleInventoryHosts | spec/ansibleinventory_spec.rb:77-95 | Take an inventory with five root groups. A leaf group, a composite group and a root group nested in it yield the one dotted host. The empty group `ungrouped` yields none. |
| InventoryExamples.SimpleInventoryUnknownGroups | spec/ansibleinventory_spec.rb:97-109 | An unknown group name, nil, false, `[]` and `{}` all yield no hosts. |
| InventoryExamples.SimpleInventoryGroups | spec/ansibleinventory_spec.rb:66-74 | `all_groups` lists the five root groups in the tree's order. The two groups also found below `vb` appear once. |
| InventoryExamples.VirtualboxHiddenGroups | lib/ansibleinventory.rb:107-117 | Below the composite group are its two children and nothing further. |
| InventoryExamples.PositionalRootLookups | lib/ansibleinventory.rb:82 | Consider a root that is a string or an array. An integer group name too wide for a 64-bit long raises RangeError. The widest one that fits reads nil beyond the end. A position inside a string reads a one-character string, which `resolve_hosts_of` rejects. |
| InventoryExamples.EmptyListInventoryRaises | spec/ansibleinventory_spec.rb:111-119 | A tree that is an empty list raises the RuntimeError of `root_of_groups`. |
| InventoryExamples.Ec2InventoryLookups | lib/ansibleinventory.rb:119-121 | A dotted name finds its host's variables, and an unknown one yields nil. |
| InventoryExamples.NoEc2GroupRaises | lib/ansibleinventory.rb:119-121 | An inventory without `ec2` makes the lookup raise. |
| InventoryExamples.DottedSpellingCollides | lib/ansibleinventory.rb:132 | The names `m_x` and `m.x` both report as `m.x`, so the dotted spelling is not one-to-one. |

## Left out

- Running the external tools (`config`, `config_host`, `config_list_hosts`,
  `host`, `run_command`, lines 32-76 and 85-87) is left out. These cover
  `Open3`, `Shellwords`, `warn` and the "failed to run" RuntimeError. The
  parsed tree is a parameter instead.
- Parsing YAML is left out. The model starts from the parsed value. Floats,
  dates, symbols and non-string hash keys are not among the modelled values.
- The memoisation of the tree in `@config` is left out, because the tree is a
  parameter. `config_host` tests `@config_host` but stores into `@config[host]`;
  this is not modelled either.
- `version`, `ansible_inventory_path`, `ansible_path` and the misspelled
  `addnsible_inventory_path` accessor are constants with no logic, so they are
  left out.
- The text of the RuntimeError of `resolve_hosts_of` (the node's YAML dump) is
  not modelled. The error carries the node itself.
- Exception messages and classes beyond the five kinds named above are left
  out.
- Concurrency is left out: the class holds no locks and the model has no
  threads.
- Cycles and sharing of nodes are left out. A finite value can hold neither,
  so the model does not need the visited-set or depth bound that the Ruby code
  also lacks.
- The fixture file of the small inventory is not part of this model. The
  examples rebuild it from what the tests expect. There are five root groups,
  in the order the `all_groups` test lists them. The contents of each group
  are chosen so that the `all_hosts_in` expectations hold: `mx` and `vb-m`
  each hold the one host, and `vb` nests `vb-c` and `vb-m`. Names are
  shortened, for example `vb` for `virtualbox` and `m_x` for
  `mx1_trombik_org`.
- `!parent` in `find_hidden_groups` is modelled for the values a parsed tree
  holds: only nil and false are falsy.
- RubyValue.Index: a `String#[]` call with a regular expression, a range, or
  a start and a length is not modelled, because regexps and ranges are
  not among the modelled values. Line 82 passes a single group value,
  never two arguments.
