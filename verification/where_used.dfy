/**
 * The where-used report (f5_where_used.py): discover the nodes, the pools
 * with their members and the virtual servers of one device, record which
 * pools use each node and which virtual servers use each pool, then list
 * the unused items and the usage of the used ones. The three collections
 * the device returns are the inputs.
 */
module WhereUsed {
  import opened Optional
  import opened UsageItem

  /** A pool: its full path and the full paths of its members ("<node>:<port>"). */
  datatype Pool = Pool(path: string, members: seq<string>)

  /** A virtual server: its full path and its pool, when it has one. */
  datatype Virtual = Virtual(path: string, pool: Option<string>)

  /** The KeyError that ends a run: a member whose node was not discovered,
      or a virtual server whose pool was not discovered. */
  datatype Fault = MissingNode(key: string) | MissingPool(key: string)

  /** The node a pool member belongs to: its path up to the first ':'. */
  function NodeKey(member: string): string
  {
    if member == [] || member[0] == ':' then []
    else [member[0]] + NodeKey(member[1..])
  }

  /** The node key is the part of the member path before its first ':', or
      the whole path when it has none. */
  lemma {:induction false} NodeKeyShape(member: string)
    ensures NodeKey(member) <= member
    ensures ':' !in NodeKey(member)
    ensures |NodeKey(member)| == |member| || member[|NodeKey(member)|] == ':'
  {
    if member != [] && member[0] != ':' {
      NodeKeyShape(member[1..]);
    }
  }

  /** The keys of a dictionary filled with these paths, in insertion order:
      a path seen again keeps its first place. */
  function Dedup(paths: seq<string>): seq<string>
  {
    if paths == [] then []
    else
      var d := Dedup(paths[..|paths| - 1]);
      if paths[|paths| - 1] in d then d else d + [paths[|paths| - 1]]
  }

  /** The pool paths, in collection order. */
  function Paths(pools: seq<Pool>): seq<string>
  {
    if pools == [] then [] else Paths(pools[..|pools| - 1]) + [pools[|pools| - 1].path]
  }

  /** The pool path once for each of these members that belongs to node `key`. */
  function Matches(key: string, pool: string, members: seq<string>): seq<string>
  {
    if members == [] then []
    else
      var hit := if NodeKey(members[|members| - 1]) == key then [pool] else [];
      Matches(key, pool, members[..|members| - 1]) + hit
  }

  /** The usage of node `key`: the pools, in collection order, once per member
      that belongs to the node. */
  function NodeUsage(key: string, pools: seq<Pool>): seq<string>
  {
    if pools == [] then []
    else
      var last := pools[|pools| - 1];
      NodeUsage(key, pools[..|pools| - 1]) + Matches(key, last.path, last.members)
  }

  /** The usage of pool `key`: the virtual servers that name it, in collection order. */
  function PoolUsage(key: string, virtuals: seq<Virtual>): seq<string>
  {
    if virtuals == [] then []
    else
      var last := virtuals[|virtuals| - 1];
      var hit := if last.pool == Some(key) then [last.path] else [];
      PoolUsage(key, virtuals[..|virtuals| - 1]) + hit
  }

  /** Every member path of these pools, pool by pool. */
  function Members(pools: seq<Pool>): seq<string>
  {
    if pools == [] then [] else Members(pools[..|pools| - 1]) + pools[|pools| - 1].members
  }

  /** Every member names a discovered node and every pool a virtual server
      names was discovered: the condition under which no lookup fails. */
  predicate Resolves(nodes: seq<string>, pools: seq<Pool>, virtuals: seq<Virtual>)
  {
    (forall m :: m in Members(pools) ==> NodeKey(m) in nodes) &&
    (forall v :: v in virtuals && v.pool.Some? ==> v.pool.value in Paths(pools))
  }

  /** The set of paths listed. */
  function Known(paths: seq<string>): set<string>
  {
    set p | p in paths
  }

  /** The KeyError the member loop of one pool raises: at its first member
      whose node is not known, if any. */
  function MemberFault(members: seq<string>, known: set<string>): Option<Fault>
  {
    if members == [] then None
    else if NodeKey(members[0]) !in known then Some(MissingNode(NodeKey(members[0])))
    else MemberFault(members[1..], known)
  }

  /** The KeyError the pool loop raises: at the first pool whose member loop raises. */
  function PoolsFault(pools: seq<Pool>, known: set<string>): Option<Fault>
  {
    if pools == [] then None
    else
      var f := MemberFault(pools[0].members, known);
      if f.Some? then f else PoolsFault(pools[1..], known)
  }

  /** The KeyError the virtual server loop raises: at the first virtual
      server that names a pool not known. */
  function VirtualsFault(virtuals: seq<Virtual>, known: set<string>): Option<Fault>
  {
    if virtuals == [] then None
    else match virtuals[0].pool
      case Some(p) => if p !in known then Some(MissingPool(p)) else VirtualsFault(virtuals[1..], known)
      case None => VirtualsFault(virtuals[1..], known)
  }

  /** The KeyError a run raises, if any: the pool loop runs to the end
      before the virtual server loop starts. */
  function FirstFault(nodes: seq<string>, pools: seq<Pool>, virtuals: seq<Virtual>): Option<Fault>
  {
    var f := PoolsFault(pools, Known(nodes));
    if f.Some? then f else VirtualsFault(virtuals, Known(Paths(pools)))
  }

  // ---- Properties of the usage graph --------------------------------------

  /** `Paths` lists exactly the pools' paths, one per pool. */
  lemma {:induction false} PathsHas(pools: seq<Pool>, p: string)
    ensures |Paths(pools)| == |pools|
    ensures p in Paths(pools) <==> exists i :: 0 <= i < |pools| && pools[i].path == p
  {
    if pools != [] {
      var init := pools[..|pools| - 1];
      PathsHas(init, p);
      assert forall i :: 0 <= i < |init| ==> init[i] == pools[i];
    }
  }

  /** `Members` holds exactly the members of the pools. */
  lemma {:induction false} MembersHas(pools: seq<Pool>, m: string)
    ensures m in Members(pools) <==> exists i :: 0 <= i < |pools| && m in pools[i].members
  {
    if pools != [] {
      var init := pools[..|pools| - 1];
      MembersHas(init, m);
      assert forall i :: 0 <= i < |init| ==> init[i] == pools[i];
    }
  }

  lemma {:induction false} DedupKeys(paths: seq<string>)
    ensures forall p :: p in Dedup(paths) <==> p in paths
    ensures forall i, j :: 0 <= i < j < |Dedup(paths)| ==> Dedup(paths)[i] != Dedup(paths)[j]
  {
    if paths != [] {
      var init := paths[..|paths| - 1];
      DedupKeys(init);
      assert paths == init + [paths[|paths| - 1]];
    }
  }

  lemma {:induction false} MatchesHas(key: string, pool: string, members: seq<string>, p: string)
    ensures p in Matches(key, pool, members) <==>
      p == pool && exists j :: 0 <= j < |members| && NodeKey(members[j]) == key
  {
    if members != [] {
      var n := |members| - 1;
      var init := members[..n];
      var hit := if NodeKey(members[n]) == key then [pool] else [];
      MatchesHas(key, pool, init, p);
      assert Matches(key, pool, members) == Matches(key, pool, init) + hit;
      if p == pool && exists j :: 0 <= j < |members| && NodeKey(members[j]) == key {
        var j :| 0 <= j < |members| && NodeKey(members[j]) == key;
        if j < n {
          assert init[j] == members[j];
        }
      }
      if p in Matches(key, pool, init) {
        var j :| 0 <= j < |init| && NodeKey(init[j]) == key;
        assert init[j] == members[j];
      }
    }
  }

  /** A pool path is in a node's usage exactly when that pool has a member
      whose path up to the first ':' is the node's path. */
  lemma {:induction false} NodeUsageHas(key: string, pools: seq<Pool>, p: string)
    ensures p in NodeUsage(key, pools) <==>
      exists i, j :: 0 <= i < |pools| && 0 <= j < |pools[i].members| &&
        pools[i].path == p && NodeKey(pools[i].members[j]) == key
  {
    if pools != [] {
      var n := |pools| - 1;
      var init := pools[..n];
      var last := pools[n];
      NodeUsageHas(key, init, p);
      MatchesHas(key, last.path, last.members, p);
      assert NodeUsage(key, pools) == NodeUsage(key, init) + Matches(key, last.path, last.members);
      if exists i, j ::
           0 <= i < |pools| && 0 <= j < |pools[i].members| &&
           pools[i].path == p && NodeKey(pools[i].members[j]) == key
      {
        var i, j :| 0 <= i < |pools| && 0 <= j < |pools[i].members| &&
          pools[i].path == p && NodeKey(pools[i].members[j]) == key;
        if i < n {
          assert init[i] == pools[i];
        }
      }
      if p in NodeUsage(key, init) {
        var i, j :| 0 <= i < |init| && 0 <= j < |init[i].members| &&
          init[i].path == p && NodeKey(init[i].members[j]) == key;
        assert init[i] == pools[i];
      }
    }
  }

  /** A virtual server path is in a pool's usage exactly when a virtual
      server with that path names the pool; one without a pool is in no
      pool's usage. */
  lemma {:induction false} PoolUsageHas(key: string, virtuals: seq<Virtual>, v: string)
    ensures v in PoolUsage(key, virtuals) <==>
      exists i :: 0 <= i < |virtuals| && virtuals[i].path == v && virtuals[i].pool == Some(key)
  {
    if virtuals != [] {
      var init := virtuals[..|virtuals| - 1];
      PoolUsageHas(key, init, v);
      assert forall i :: 0 <= i < |init| ==> init[i] == virtuals[i];
    }
  }

  /** Each virtual server that names the pool adds its path exactly once. */
  lemma {:induction false} PoolUsageCount(key: string, virtuals: seq<Virtual>)
    ensures |PoolUsage(key, virtuals)| == |set i | 0 <= i < |virtuals| && virtuals[i].pool == Some(key)|
  {
    if virtuals != [] {
      var n := |virtuals| - 1;
      var init := virtuals[..n];
      PoolUsageCount(key, init);
      var before := set i | 0 <= i < n && init[i].pool == Some(key);
      var after := set i | 0 <= i < |virtuals| && virtuals[i].pool == Some(key);
      assert forall i :: 0 <= i < n ==> init[i] == virtuals[i];
      assert forall i :: i in before <==> i in after && i < n;
      assert n !in before;
      if virtuals[n].pool == Some(key) {
        assert after == before + {n};
        assert |PoolUsage(key, virtuals)| == |PoolUsage(key, init)| + 1;
      } else {
        assert after == before;
        assert |PoolUsage(key, virtuals)| == |PoolUsage(key, init)|;
      }
    }
  }

  lemma MatchesMiss(key: string, pool: string, members: seq<string>, j: nat)
    requires j < |members| && NodeKey(members[j]) != key
    ensures Matches(key, pool, members[..j + 1]) == Matches(key, pool, members[..j])
  {
    assert members[..j + 1][..j] == members[..j];
  }

  lemma MatchesHit(key: string, pool: string, members: seq<string>, j: nat)
    requires j < |members| && NodeKey(members[j]) == key
    ensures Matches(key, pool, members[..j + 1]) == Matches(key, pool, members[..j]) + [pool]
  {
    assert members[..j + 1][..j] == members[..j];
  }

  lemma NodeUsageNext(key: string, pools: seq<Pool>, i: nat)
    requires i < |pools|
    ensures NodeUsage(key, pools[..i + 1]) == NodeUsage(key, pools[..i]) + Matches(key, pools[i].path, pools[i].members)
  {
    assert pools[..i + 1][..i] == pools[..i];
  }

  lemma PoolUsageMiss(key: string, virtuals: seq<Virtual>, i: nat)
    requires i < |virtuals| && virtuals[i].pool != Some(key)
    ensures PoolUsage(key, virtuals[..i + 1]) == PoolUsage(key, virtuals[..i])
  {
    assert virtuals[..i + 1][..i] == virtuals[..i];
  }

  lemma PoolUsageHit(key: string, virtuals: seq<Virtual>, i: nat)
    requires i < |virtuals| && virtuals[i].pool == Some(key)
    ensures PoolUsage(key, virtuals[..i + 1]) == PoolUsage(key, virtuals[..i]) + [virtuals[i].path]
  {
    assert virtuals[..i + 1][..i] == virtuals[..i];
  }

  lemma PathsNext(pools: seq<Pool>, i: nat)
    requires i < |pools|
    ensures Paths(pools[..i + 1]) == Paths(pools[..i]) + [pools[i].path]
    ensures Members(pools[..i + 1]) == Members(pools[..i]) + pools[i].members
  {
    assert pools[..i + 1][..i] == pools[..i];
  }

  lemma AppendAssoc<T>(a: seq<T>, b: seq<T>, c: seq<T>)
    ensures (a + b) + c == a + (b + c)
  {
  }

  // ---- Which lookup fails -------------------------------------------------

  /** A member whose node is unknown, with every earlier member's node known,
      is the one the KeyError names. */
  lemma {:induction false} MemberFaultAt(members: seq<string>, known: set<string>, j: nat)
    requires j < |members| && NodeKey(members[j]) !in known
    requires forall i :: 0 <= i < j ==> NodeKey(members[i]) in known
    ensures MemberFault(members, known) == Some(MissingNode(NodeKey(members[j])))
  {
    if j > 0 {
      assert NodeKey(members[0]) in known;
      assert forall i :: 0 <= i < j - 1 ==> members[1..][i] == members[i + 1];
      MemberFaultAt(members[1..], known, j - 1);
    }
  }

  lemma MemberFaultNext(members: seq<string>, known: set<string>, j: nat)
    requires j < |members| && NodeKey(members[j]) in known
    ensures MemberFault(members[j..], known) == MemberFault(members[j + 1..], known)
  {
    assert members[j..][1..] == members[j + 1..];
  }

  /** The member loop raises exactly when some member's node is unknown, and
      then at such a member with every earlier one known. */
  lemma {:induction false} MemberFaultHas(members: seq<string>, known: set<string>)
    ensures MemberFault(members, known).None? <==> forall m :: m in members ==> NodeKey(m) in known
    ensures MemberFault(members, known).Some? ==>
      exists j :: 0 <= j < |members| && MemberFault(members, known) == Some(MissingNode(NodeKey(members[j]))) &&
        NodeKey(members[j]) !in known && forall i :: 0 <= i < j ==> NodeKey(members[i]) in known
  {
    if members != [] && NodeKey(members[0]) in known {
      var rest := members[1..];
      MemberFaultHas(rest, known);
      assert forall m :: m in members ==> m == members[0] || m in rest;
      if MemberFault(rest, known).Some? {
        var j :| 0 <= j < |rest| && MemberFault(rest, known) == Some(MissingNode(NodeKey(rest[j]))) &&
          NodeKey(rest[j]) !in known && forall i :: 0 <= i < j ==> NodeKey(rest[i]) in known;
        assert rest[j] == members[j + 1];
        assert forall i :: 1 <= i < j + 1 ==> members[i] == rest[i - 1];
      }
    } else if members != [] {
      assert members[0] in members;
    }
  }

  /** The pool loop raises at the first pool whose member loop raises. */
  lemma {:induction false} PoolsFaultAt(pools: seq<Pool>, known: set<string>, i: nat)
    requires i < |pools| && MemberFault(pools[i].members, known).Some?
    requires forall h :: 0 <= h < i ==> MemberFault(pools[h].members, known).None?
    ensures PoolsFault(pools, known) == MemberFault(pools[i].members, known)
  {
    if i > 0 {
      assert MemberFault(pools[0].members, known).None?;
      assert forall h :: 0 <= h < i - 1 ==> pools[1..][h] == pools[h + 1];
      PoolsFaultAt(pools[1..], known, i - 1);
    }
  }

  /** The pool loop raises nothing exactly when no pool's member loop does. */
  lemma {:induction false} PoolsFaultNone(pools: seq<Pool>, known: set<string>)
    ensures PoolsFault(pools, known).None? <==>
      forall i :: 0 <= i < |pools| ==> MemberFault(pools[i].members, known).None?
    ensures PoolsFault(pools, known).Some? ==>
      exists i :: 0 <= i < |pools| && PoolsFault(pools, known) == MemberFault(pools[i].members, known)
  {
    if pools != [] {
      var f := MemberFault(pools[0].members, known);
      if f.None? {
        PoolsFaultNone(pools[1..], known);
        assert forall i :: 1 <= i < |pools| ==> pools[i] == pools[1..][i - 1];
      }
    }
  }

  /** The pool loop raises exactly when some member's node is unknown, and
      names the node of such a member. */
  lemma PoolsFaultHas(pools: seq<Pool>, known: set<string>)
    ensures PoolsFault(pools, known).None? <==> forall m :: m in Members(pools) ==> NodeKey(m) in known
    ensures PoolsFault(pools, known).Some? ==>
      PoolsFault(pools, known).value.MissingNode? && PoolsFault(pools, known).value.key !in known &&
      exists m :: m in Members(pools) && NodeKey(m) == PoolsFault(pools, known).value.key
  {
    PoolsFaultNone(pools, known);
    forall i | 0 <= i < |pools|
      ensures MemberFault(pools[i].members, known).None? <==> forall m :: m in pools[i].members ==> NodeKey(m) in known
    {
      MemberFaultHas(pools[i].members, known);
    }
    forall m | m in Members(pools)
      ensures exists i :: 0 <= i < |pools| && m in pools[i].members
    {
      MembersHas(pools, m);
    }
    forall i, m | 0 <= i < |pools| && m in pools[i].members
      ensures m in Members(pools)
    {
      MembersHas(pools, m);
    }
    if PoolsFault(pools, known).Some? {
      var i :| 0 <= i < |pools| && PoolsFault(pools, known) == MemberFault(pools[i].members, known);
      var members := pools[i].members;
      MemberFaultHas(members, known);
      var j :| 0 <= j < |members| && MemberFault(members, known) == Some(MissingNode(NodeKey(members[j]))) &&
        NodeKey(members[j]) !in known && forall h :: 0 <= h < j ==> NodeKey(members[h]) in known;
      assert members[j] in members;
    }
  }

  /** A virtual server that names an unknown pool, with every earlier one's
      pool known or absent, is the one the KeyError names. */
  lemma {:induction false} VirtualsFaultAt(virtuals: seq<Virtual>, known: set<string>, j: nat)
    requires j < |virtuals| && virtuals[j].pool.Some? && virtuals[j].pool.value !in known
    requires forall i :: 0 <= i < j && virtuals[i].pool.Some? ==> virtuals[i].pool.value in known
    ensures VirtualsFault(virtuals, known) == Some(MissingPool(virtuals[j].pool.value))
  {
    if j > 0 {
      assert forall i :: 0 <= i < j - 1 ==> virtuals[1..][i] == virtuals[i + 1];
      VirtualsFaultAt(virtuals[1..], known, j - 1);
    }
  }

  /** The virtual server loop raises exactly when some virtual server names
      an unknown pool, and then at such a one with every earlier one fine. */
  lemma {:induction false} VirtualsFaultHas(virtuals: seq<Virtual>, known: set<string>)
    ensures VirtualsFault(virtuals, known).None? <==>
      forall v :: v in virtuals && v.pool.Some? ==> v.pool.value in known
    ensures VirtualsFault(virtuals, known).Some? ==>
      exists j :: 0 <= j < |virtuals| && virtuals[j].pool.Some? &&
        VirtualsFault(virtuals, known) == Some(MissingPool(virtuals[j].pool.value)) &&
        virtuals[j].pool.value !in known &&
        forall i :: 0 <= i < j && virtuals[i].pool.Some? ==> virtuals[i].pool.value in known
  {
    if virtuals != [] && (virtuals[0].pool.None? || virtuals[0].pool.value in known) {
      var rest := virtuals[1..];
      VirtualsFaultHas(rest, known);
      assert forall v :: v in virtuals ==> v == virtuals[0] || v in rest;
      if VirtualsFault(rest, known).Some? {
        var j :| 0 <= j < |rest| && rest[j].pool.Some? &&
          VirtualsFault(rest, known) == Some(MissingPool(rest[j].pool.value)) &&
          rest[j].pool.value !in known &&
          forall i :: 0 <= i < j && rest[i].pool.Some? ==> rest[i].pool.value in known;
        assert rest[j] == virtuals[j + 1];
        assert forall i :: 1 <= i < j + 1 ==> virtuals[i] == rest[i - 1];
      }
    }
  }

  /** A run raises exactly when some lookup fails; a missing node is always
      the one named when there is one, before any missing pool; and the key
      named is one that a member or a virtual server looks up in vain. */
  lemma FirstFaultResolves(nodes: seq<string>, pools: seq<Pool>, virtuals: seq<Virtual>)
    ensures FirstFault(nodes, pools, virtuals).None? <==> Resolves(nodes, pools, virtuals)
    ensures (exists m :: m in Members(pools) && NodeKey(m) !in nodes) ==>
      FirstFault(nodes, pools, virtuals).Some? && FirstFault(nodes, pools, virtuals).value.MissingNode?
    ensures FirstFault(nodes, pools, virtuals).Some? && FirstFault(nodes, pools, virtuals).value.MissingNode? ==>
      var key := FirstFault(nodes, pools, virtuals).value.key;
      key !in nodes && exists m :: m in Members(pools) && NodeKey(m) == key
    ensures FirstFault(nodes, pools, virtuals).Some? && FirstFault(nodes, pools, virtuals).value.MissingPool? ==>
      var key := FirstFault(nodes, pools, virtuals).value.key;
      key !in Paths(pools) && exists v :: v in virtuals && v.pool == Some(key)
  {
    var paths := Known(Paths(pools));
    PoolsFaultHas(pools, Known(nodes));
    VirtualsFaultHas(virtuals, paths);
    if PoolsFault(pools, Known(nodes)).None? && VirtualsFault(virtuals, paths).Some? {
      var j :| 0 <= j < |virtuals| && virtuals[j].pool.Some? &&
        VirtualsFault(virtuals, paths) == Some(MissingPool(virtuals[j].pool.value)) &&
        virtuals[j].pool.value !in paths &&
        forall i :: 0 <= i < j && virtuals[i].pool.Some? ==> virtuals[i].pool.value in paths;
      assert virtuals[j] in virtuals;
    }
  }

  /** A pool whose two members both belong to unknown nodes: the KeyError
      names the first member's node, not any unknown one. */
  lemma FirstMemberNamed()
    ensures FirstFault([], [Pool("p", ["n1:80", "n2:80"])], []) == Some(MissingNode("n1"))
  {
    assert NodeKey(":80") == [];
    assert NodeKey("1:80") == "1";
    assert NodeKey("n1:80") == "n1";
    var members := ["n1:80", "n2:80"];
    MemberFaultAt(members, Known([]), 0);
  }

  /** An unknown node and an unknown pool: the node is named, since the
      pool loop finishes before any virtual server is looked at. */
  lemma NodeNamedBeforePool()
    ensures FirstFault([], [Pool("p", ["n1:80"])], [Virtual("v", Some("q"))]) == Some(MissingNode("n1"))
  {
    assert NodeKey(":80") == [];
    assert NodeKey("1:80") == "1";
    assert NodeKey("n1:80") == "n1";
    MemberFaultAt(["n1:80"], Known([]), 0);
  }

  /** A map whose keys are exactly the listed paths has them as its key set. */
  lemma KnownKeys(m: map<string, Item>, paths: seq<string>)
    requires forall k :: k in m <==> k in paths
    ensures m.Keys == Known(paths)
  {
  }

  // ---- Discovery ----------------------------------------------------------

  /** Distinct keys hold distinct items. */
  ghost predicate Distinct(m: map<string, Item>)
  {
    forall k1, k2 :: k1 in m && k2 in m && k1 != k2 ==> m[k1] != m[k2]
  }

  /** The node loop: one item per node path, each with an empty usage; a path
      listed twice gets a fresh item and keeps its first place. */
  method DiscoverNodes(nodes: seq<string>) returns (nodelist: map<string, Item>, keys: seq<string>)
    ensures keys == Dedup(nodes)
    ensures forall k :: k in nodelist <==> k in nodes
    ensures forall k :: k in nodelist ==> fresh(nodelist[k]) && nodelist[k].name == k && nodelist[k].usage == []
    ensures Distinct(nodelist)
  {
    nodelist := map[];
    keys := [];
    for i := 0 to |nodes|
      invariant keys == Dedup(nodes[..i])
      invariant forall k :: k in nodelist <==> k in nodes[..i]
      invariant forall k :: k in nodelist ==> fresh(nodelist[k]) && nodelist[k].name == k && nodelist[k].usage == []
      invariant Distinct(nodelist)
    {
      assert nodes[..i + 1][..i] == nodes[..i];
      var item := new Item(nodes[i]);
      if nodes[i] !in keys {
        keys := keys + [nodes[i]];
      }
      nodelist := nodelist[nodes[i] := item];
    }
    assert nodes[..|nodes|] == nodes;
  }

  /** The member loop of one pool: each member adds the pool's path to the
      usage of its node; a member whose node is unknown ends the run. */
  method RecordMembers(nodelist: map<string, Item>, pool: Pool) returns (fault: Option<Fault>)
    requires Distinct(nodelist)
    modifies nodelist.Values
    ensures fault.None? <==> forall m :: m in pool.members ==> NodeKey(m) in nodelist
    ensures fault.Some? ==>
      fault.value.MissingNode? && fault.value.key !in nodelist &&
      exists m :: m in pool.members && NodeKey(m) == fault.value.key
    ensures fault == MemberFault(pool.members, nodelist.Keys)
    ensures fault.None? ==> forall k :: k in nodelist ==>
      nodelist[k].usage == old(nodelist[k].usage) + Matches(k, pool.path, pool.members)
  {
    ghost var start := map k | k in nodelist :: nodelist[k].usage;
    fault := None;
    for j := 0 to |pool.members|
      invariant MemberFault(pool.members, nodelist.Keys) == MemberFault(pool.members[j..], nodelist.Keys)
      invariant forall k :: k in nodelist ==> nodelist[k].usage == start[k] + Matches(k, pool.path, pool.members[..j])
    {
      var key := NodeKey(pool.members[j]);
      if key !in nodelist {
        fault := Some(MissingNode(key));
        MemberFaultHas(pool.members, nodelist.Keys);
        return;
      }
      MemberFaultNext(pool.members, nodelist.Keys, j);
      ghost var mid := map k | k in nodelist :: nodelist[k].usage;
      nodelist[key].AddUsage(pool.path);
      MatchesHit(key, pool.path, pool.members, j);
      AppendAssoc(start[key], Matches(key, pool.path, pool.members[..j]), [pool.path]);
      forall k | k in nodelist && k != key
        ensures nodelist[k].usage == start[k] + Matches(k, pool.path, pool.members[..j + 1])
      {
        MatchesMiss(k, pool.path, pool.members, j);
        assert nodelist[k] != nodelist[key];
        assert nodelist[k].usage == mid[k];
      }
    }
    assert pool.members[..|pool.members|] == pool.members;
    assert pool.members[|pool.members|..] == [];
    MemberFaultHas(pool.members, nodelist.Keys);
  }

  /** The pool items so far: each is named after its key, has no usage and
      is none of the node items. */
  ghost predicate PoolItems(poollist: map<string, Item>, nodeItems: set<Item>)
    reads poollist.Values
  {
    forall k :: k in poollist ==> poollist[k] !in nodeItems && poollist[k].name == k && poollist[k].usage == []
  }

  /** One pass of the pool loop: the pool gets a new item under its path (a
      path seen before keeps its place in the key order), then its members
      are recorded against their nodes. The pool is `pools[i]`, and the node
      usages stand at `start` plus what `pools[..i]` recorded; the pass adds
      this pool's share, or names the node its member walk fails on. */
  method DiscoverPool(nodelist: map<string, Item>, poollist: map<string, Item>, keys: seq<string>, pool: Pool,
                      ghost start: map<string, seq<string>>, ghost pools: seq<Pool>, ghost i: nat)
    returns (poollist': map<string, Item>, keys': seq<string>, fault: Option<Fault>)
    requires Distinct(nodelist) && Distinct(poollist)
    requires PoolItems(poollist, nodelist.Values)
    requires i < |pools| && pool == pools[i]
    requires forall k :: k in nodelist ==> k in start && nodelist[k].usage == start[k] + NodeUsage(k, pools[..i])
    modifies nodelist.Values
    ensures keys' == if pool.path in keys then keys else keys + [pool.path]
    ensures pool.path in poollist' && poollist' == poollist[pool.path := poollist'[pool.path]]
    ensures fresh(poollist'[pool.path]) && poollist'[pool.path].name == pool.path && poollist'[pool.path].usage == []
    ensures PoolItems(poollist', nodelist.Values) && Distinct(poollist')
    ensures fault.None? <==> forall m :: m in pool.members ==> NodeKey(m) in nodelist
    ensures fault.Some? ==>
      fault.value.MissingNode? && fault.value.key !in nodelist &&
      exists m :: m in pool.members && NodeKey(m) == fault.value.key
    ensures fault == MemberFault(pool.members, nodelist.Keys)
    ensures fault.None? ==> forall k :: k in nodelist ==>
      nodelist[k].usage == old(nodelist[k].usage) + Matches(k, pool.path, pool.members)
    ensures fault.None? ==> forall k :: k in nodelist ==>
      k in start && nodelist[k].usage == start[k] + NodeUsage(k, pools[..i + 1])
    ensures PoolsFault(pools[i..], nodelist.Keys) == if fault.Some? then fault else PoolsFault(pools[i + 1..], nodelist.Keys)
  {
    var item := new Item(pool.path);
    poollist' := poollist[pool.path := item];
    keys' := if pool.path in keys then keys else keys + [pool.path];
    fault := RecordMembers(nodelist, pool);
    assert pools[i..][0] == pool && pools[i..][1..] == pools[i + 1..];
    forall k | fault.None? && k in nodelist
      ensures nodelist[k].usage == start[k] + NodeUsage(k, pools[..i + 1])
    {
      NodeUsageNext(k, pools, i);
      AppendAssoc(start[k], NodeUsage(k, pools[..i]), Matches(k, pool.path, pool.members));
    }
  }

  /** The pool loop: one item per pool path, with each pool's members
      recorded against their nodes as the pool is discovered. */
  method DiscoverPools(nodelist: map<string, Item>, pools: seq<Pool>)
    returns (poollist: map<string, Item>, keys: seq<string>, fault: Option<Fault>)
    requires Distinct(nodelist)
    modifies nodelist.Values
    ensures fault.None? <==> forall m :: m in Members(pools) ==> NodeKey(m) in nodelist
    ensures fault.Some? ==>
      fault.value.MissingNode? && fault.value.key !in nodelist &&
      exists m :: m in Members(pools) && NodeKey(m) == fault.value.key
    ensures fault == PoolsFault(pools, nodelist.Keys)
    ensures fault.None? ==> keys == Dedup(Paths(pools)) && forall k :: k in poollist <==> k in keys
    ensures fault.None? ==>
      (forall k :: k in poollist ==> !old(allocated(poollist[k]))) && PoolItems(poollist, nodelist.Values) && Distinct(poollist)
    ensures fault.None? ==> forall k :: k in nodelist ==>
      nodelist[k].usage == old(nodelist[k].usage) + NodeUsage(k, pools)
  {
    ghost var start := map k | k in nodelist :: nodelist[k].usage;
    ghost var known := nodelist.Keys;
    poollist := map[];
    keys := [];
    fault := None;
    for i := 0 to |pools|
      invariant forall k :: k in poollist ==> !old(allocated(poollist[k]))
      invariant PoolItems(poollist, nodelist.Values) && Distinct(poollist)
      invariant fault.None?
      invariant PoolsFault(pools, known) == PoolsFault(pools[i..], known)
      invariant keys == Dedup(Paths(pools[..i]))
      invariant forall k :: k in poollist <==> k in keys
      invariant forall k :: k in nodelist ==> k in start && nodelist[k].usage == start[k] + NodeUsage(k, pools[..i])
    {
      PathsNext(pools, i);
      poollist, keys, fault := DiscoverPool(nodelist, poollist, keys, pools[i], start, pools, i);
      if fault.Some? {
        PoolsFaultHas(pools, known);
        return;
      }
    }
    assert pools[..|pools|] == pools;
    assert pools[|pools|..] == [];
    PoolsFaultHas(pools, known);
  }

  /** The virtual server loop: each virtual server with a pool adds its path
      to that pool's usage; one without a pool is skipped; a pool that is
      unknown ends the run. */
  method RecordVirtuals(poollist: map<string, Item>, virtuals: seq<Virtual>) returns (fault: Option<Fault>)
    requires Distinct(poollist)
    modifies poollist.Values
    ensures fault.None? <==> forall v :: v in virtuals && v.pool.Some? ==> v.pool.value in poollist
    ensures fault.Some? ==>
      fault.value.MissingPool? && fault.value.key !in poollist &&
      exists v :: v in virtuals && v.pool == Some(fault.value.key)
    ensures fault == VirtualsFault(virtuals, poollist.Keys)
    ensures fault.None? ==> forall k :: k in poollist ==>
      poollist[k].usage == old(poollist[k].usage) + PoolUsage(k, virtuals)
  {
    ghost var start := map k | k in poollist :: poollist[k].usage;
    fault := None;
    for i := 0 to |virtuals|
      invariant VirtualsFault(virtuals, poollist.Keys) == VirtualsFault(virtuals[i..], poollist.Keys)
      invariant forall k :: k in poollist ==> poollist[k].usage == start[k] + PoolUsage(k, virtuals[..i])
    {
      assert virtuals[..i + 1] == virtuals[..i] + [virtuals[i]];
      assert virtuals[i..][0] == virtuals[i] && virtuals[i..][1..] == virtuals[i + 1..];
      match virtuals[i].pool {
        case None =>
          forall k | k in poollist
            ensures poollist[k].usage == start[k] + PoolUsage(k, virtuals[..i + 1])
          {
            PoolUsageMiss(k, virtuals, i);
          }
        case Some(key) =>
          if key !in poollist {
            fault := Some(MissingPool(key));
            VirtualsFaultHas(virtuals, poollist.Keys);
            assert virtuals[i] in virtuals;
            return;
          }
          ghost var mid := map k | k in poollist :: poollist[k].usage;
          poollist[key].AddUsage(virtuals[i].path);
          PoolUsageHit(key, virtuals, i);
          AppendAssoc(start[key], PoolUsage(key, virtuals[..i]), [virtuals[i].path]);
          forall k | k in poollist && k != key
            ensures poollist[k].usage == start[k] + PoolUsage(k, virtuals[..i + 1])
          {
            PoolUsageMiss(k, virtuals, i);
            assert poollist[k] != poollist[key];
            assert poollist[k].usage == mid[k];
          }
      }
    }
    assert virtuals[..|virtuals|] == virtuals;
    assert virtuals[|virtuals|..] == [];
    VirtualsFaultHas(virtuals, poollist.Keys);
  }

  /** All three discovery loops in order; the first failed lookup ends the run. */
  method Discover(nodes: seq<string>, pools: seq<Pool>, virtuals: seq<Virtual>)
    returns (nodelist: map<string, Item>, nodeKeys: seq<string>,
             poollist: map<string, Item>, poolKeys: seq<string>, fault: Option<Fault>)
    ensures fault == FirstFault(nodes, pools, virtuals)
    ensures fault.None? <==> Resolves(nodes, pools, virtuals)
    ensures fault.Some? && fault.value.MissingNode? ==>
      fault.value.key !in nodes && exists m :: m in Members(pools) && NodeKey(m) == fault.value.key
    ensures fault.Some? && fault.value.MissingPool? ==>
      fault.value.key !in Paths(pools) && exists v :: v in virtuals && v.pool == Some(fault.value.key)
    ensures fault.None? ==> nodeKeys == Dedup(nodes) && poolKeys == Dedup(Paths(pools))
    ensures fault.None? ==> (forall k :: k in nodelist <==> k in nodes) && (forall k :: k in poollist <==> k in Paths(pools))
    ensures fault.None? ==> forall k :: k in nodelist ==> nodelist[k].name == k && nodelist[k].usage == NodeUsage(k, pools)
    ensures fault.None? ==> forall k :: k in poollist ==> poollist[k].name == k && poollist[k].usage == PoolUsage(k, virtuals)
  {
    nodelist, nodeKeys := DiscoverNodes(nodes);
    KnownKeys(nodelist, nodes);
    poollist, poolKeys, fault := DiscoverPools(nodelist, pools);
    if fault.Some? {
      FirstFaultResolves(nodes, pools, virtuals);
      return;
    }
    DedupKeys(Paths(pools));
    KnownKeys(poollist, Paths(pools));
    ghost var nodeUsage := map k | k in nodelist :: nodelist[k].usage;
    fault := RecordVirtuals(poollist, virtuals);
    assert forall k :: k in nodelist ==> nodelist[k].usage == nodeUsage[k];
    FirstFaultResolves(nodes, pools, virtuals);
  }

  // ---- Analysis -----------------------------------------------------------

  datatype Kind = NodeItem | PoolItem

  /** A line of the unused list. */
  datatype Unused = Unused(kind: Kind, key: string)

  /** A line of the usage list: the item and its usage text. */
  datatype InUse = InUse(kind: Kind, key: string, usage: string)

  /** The analysis output: the unused items, whether "no unused items" is
      reported, and the used items with their usage. */
  datatype Report = Report(unused: seq<Unused>, noneUnused: bool, inUse: seq<InUse>)

  /** A run ends with the KeyError or with the report. */
  datatype Run = Failed(fault: Fault) | Reported(report: Report)

  /** A dictionary read out in key order: each key with its item's usage. */
  type Entry = (string, seq<string>)

  /** The unused lines for these entries, in order. */
  function Unuseds(kind: Kind, t: seq<Entry>): seq<Unused>
  {
    if t == [] then []
    else
      var e := t[|t| - 1];
      Unuseds(kind, t[..|t| - 1]) + if e.1 == [] then [Unused(kind, e.0)] else []
  }

  /** The usage lines for these entries, in order. */
  function InUses(kind: Kind, t: seq<Entry>): seq<InUse>
  {
    if t == [] then []
    else
      var e := t[|t| - 1];
      InUses(kind, t[..|t| - 1]) + if e.1 != [] then [InUse(kind, e.0, UsageStr(e.1))] else []
  }

  /** The report for the node table and the pool table. */
  function ReportOf(nt: seq<Entry>, pt: seq<Entry>): Report
  {
    var unused := Unuseds(NodeItem, nt) + Unuseds(PoolItem, pt);
    Report(unused, unused == [], InUses(NodeItem, nt) + InUses(PoolItem, pt))
  }

  /** The dictionary `m` read in the order `keys`. */
  ghost function Table(keys: seq<string>, m: map<string, Item>): seq<Entry>
    requires forall k :: k in keys ==> k in m
    reads m.Values
  {
    seq(|keys|, i requires 0 <= i < |keys| reads m.Values => (keys[i], m[keys[i]].usage))
  }

  /** The node table the discovery loops produce. */
  function NodeTable(nodes: seq<string>, pools: seq<Pool>): seq<Entry>
  {
    var keys := Dedup(nodes);
    seq(|keys|, i requires 0 <= i < |keys| => (keys[i], NodeUsage(keys[i], pools)))
  }

  /** The pool table the discovery loops produce. */
  function PoolTable(pools: seq<Pool>, virtuals: seq<Virtual>): seq<Entry>
  {
    var keys := Dedup(Paths(pools));
    seq(|keys|, i requires 0 <= i < |keys| => (keys[i], PoolUsage(keys[i], virtuals)))
  }

  /** The report a run with these collections ends with when every lookup succeeds. */
  function Expected(nodes: seq<string>, pools: seq<Pool>, virtuals: seq<Virtual>): Report
  {
    ReportOf(NodeTable(nodes, pools), PoolTable(pools, virtuals))
  }

  lemma UnusedsHit(kind: Kind, t: seq<Entry>, i: nat)
    requires i < |t| && t[i].1 == []
    ensures Unuseds(kind, t[..i + 1]) == Unuseds(kind, t[..i]) + [Unused(kind, t[i].0)]
    ensures InUses(kind, t[..i + 1]) == InUses(kind, t[..i])
  {
    assert t[..i + 1][..i] == t[..i];
  }

  lemma UnusedsMiss(kind: Kind, t: seq<Entry>, i: nat)
    requires i < |t| && t[i].1 != []
    ensures Unuseds(kind, t[..i + 1]) == Unuseds(kind, t[..i])
    ensures InUses(kind, t[..i + 1]) == InUses(kind, t[..i]) + [InUse(kind, t[i].0, UsageStr(t[i].1))]
  {
    assert t[..i + 1][..i] == t[..i];
  }

  /** One "Unused Items" loop: each item without usage is listed, in key
      order; `found` records whether any was. */
  method UnusedLines(kind: Kind, keys: seq<string>, items: map<string, Item>) returns (lines: seq<Unused>, found: bool)
    requires forall k :: k in keys ==> k in items
    ensures lines == Unuseds(kind, Table(keys, items))
    ensures found <==> lines != []
  {
    ghost var t := Table(keys, items);
    lines := [];
    found := false;
    for i := 0 to |keys|
      invariant lines == Unuseds(kind, t[..i])
      invariant found <==> lines != []
    {
      var used := items[keys[i]].IsUsed();
      if !used {
        UnusedsHit(kind, t, i);
        lines := lines + [Unused(kind, keys[i])];
        found := true;
      } else {
        UnusedsMiss(kind, t, i);
      }
    }
    assert t[..|keys|] == t;
  }

  /** One "Item Usage" loop: each item with usage is listed with its usage
      text, in key order. */
  method UsedLines(kind: Kind, keys: seq<string>, items: map<string, Item>) returns (lines: seq<InUse>)
    requires forall k :: k in keys ==> k in items
    ensures lines == InUses(kind, Table(keys, items))
  {
    ghost var t := Table(keys, items);
    lines := [];
    for i := 0 to |keys|
      invariant lines == InUses(kind, t[..i])
    {
      var item := items[keys[i]];
      var used := item.IsUsed();
      if used {
        UnusedsMiss(kind, t, i);
        var text := item.GetUsageStr();
        lines := lines + [InUse(kind, keys[i], text)];
      } else {
        UnusedsHit(kind, t, i);
      }
    }
    assert t[..|keys|] == t;
  }

  /** The analysis: the unused nodes then pools, the "no unused items" line
      when none was listed, then the used nodes then pools. */
  method Analyse(nodeKeys: seq<string>, nodelist: map<string, Item>, poolKeys: seq<string>, poollist: map<string, Item>)
    returns (report: Report)
    requires forall k :: k in nodeKeys ==> k in nodelist
    requires forall k :: k in poolKeys ==> k in poollist
    ensures report == ReportOf(Table(nodeKeys, nodelist), Table(poolKeys, poollist))
  {
    var unusedNodes, someNode := UnusedLines(NodeItem, nodeKeys, nodelist);
    var unusedPools, somePool := UnusedLines(PoolItem, poolKeys, poollist);
    var atLeastOneUnused := someNode || somePool;
    var usedNodes := UsedLines(NodeItem, nodeKeys, nodelist);
    var usedPools := UsedLines(PoolItem, poolKeys, poollist);
    report := Report(unusedNodes + unusedPools, !atLeastOneUnused, usedNodes + usedPools);
  }

  /** Reading the discovered dictionaries in key order gives the tables of
      the specification. */
  lemma NodeTableRead(nodes: seq<string>, pools: seq<Pool>, nodeKeys: seq<string>, nodelist: map<string, Item>)
    requires nodeKeys == Dedup(nodes)
    requires forall k :: k in nodeKeys ==> k in nodelist && nodelist[k].usage == NodeUsage(k, pools)
    ensures Table(nodeKeys, nodelist) == NodeTable(nodes, pools)
  {
  }

  lemma PoolTableRead(pools: seq<Pool>, virtuals: seq<Virtual>, poolKeys: seq<string>, poollist: map<string, Item>)
    requires poolKeys == Dedup(Paths(pools))
    requires forall k :: k in poolKeys ==> k in poollist && poollist[k].usage == PoolUsage(k, virtuals)
    ensures Table(poolKeys, poollist) == PoolTable(pools, virtuals)
  {
  }

  /** The whole script on the collections one device returns. */
  method UsageReport(nodes: seq<string>, pools: seq<Pool>, virtuals: seq<Virtual>) returns (run: Run)
    ensures run.Failed? <==> !Resolves(nodes, pools, virtuals)
    ensures run.Failed? ==> FirstFault(nodes, pools, virtuals) == Some(run.fault)
    ensures run.Failed? && run.fault.MissingNode? ==>
      run.fault.key !in nodes && exists m :: m in Members(pools) && NodeKey(m) == run.fault.key
    ensures run.Failed? && run.fault.MissingPool? ==>
      run.fault.key !in Paths(pools) && exists v :: v in virtuals && v.pool == Some(run.fault.key)
    ensures run.Reported? ==> run.report == Expected(nodes, pools, virtuals)
  {
    var nodelist, nodeKeys, poollist, poolKeys, fault := Discover(nodes, pools, virtuals);
    if fault.Some? {
      return Failed(fault.value);
    }
    DedupKeys(nodes);
    DedupKeys(Paths(pools));
    NodeTableRead(nodes, pools, nodeKeys, nodelist);
    PoolTableRead(pools, virtuals, poolKeys, poollist);
    var report := Analyse(nodeKeys, nodelist, poolKeys, poollist);
    return Reported(report);
  }

  // ---- Properties of the report -------------------------------------------

  /** A line is in the unused list exactly when its entry has no usage. */
  lemma {:induction false} UnusedsHas(kind: Kind, t: seq<Entry>, u: Unused)
    ensures u in Unuseds(kind, t) <==> u.kind == kind && exists i :: 0 <= i < |t| && t[i].0 == u.key && t[i].1 == []
  {
    if t != [] {
      var init := t[..|t| - 1];
      UnusedsHas(kind, init, u);
      assert forall i :: 0 <= i < |init| ==> init[i] == t[i];
    }
  }

  /** A line is in the usage list exactly when its entry has usage, and it
      carries that usage's text. */
  lemma {:induction false} InUsesHas(kind: Kind, t: seq<Entry>, u: InUse)
    ensures u in InUses(kind, t) <==>
      u.kind == kind && exists i :: 0 <= i < |t| && t[i].0 == u.key && t[i].1 != [] && u.usage == UsageStr(t[i].1)
  {
    if t != [] {
      var init := t[..|t| - 1];
      InUsesHas(kind, init, u);
      assert forall i :: 0 <= i < |init| ==> init[i] == t[i];
    }
  }

  /** Every entry lands in exactly one of the two lists. */
  lemma {:induction false} Partition(kind: Kind, t: seq<Entry>)
    ensures |Unuseds(kind, t)| + |InUses(kind, t)| == |t|
    ensures Unuseds(kind, t) == [] <==> forall i :: 0 <= i < |t| ==> t[i].1 != []
  {
    if t != [] {
      var init := t[..|t| - 1];
      Partition(kind, init);
      assert forall i :: 0 <= i < |init| ==> init[i] == t[i];
    }
  }

  /** A node has no usage exactly when no member belongs to it. */
  lemma {:induction false} NodeUsageEmpty(key: string, pools: seq<Pool>)
    ensures NodeUsage(key, pools) == [] <==> forall m :: m in Members(pools) ==> NodeKey(m) != key
  {
    if pools != [] {
      var last := pools[|pools| - 1];
      NodeUsageEmpty(key, pools[..|pools| - 1]);
      MatchesHas(key, last.path, last.members, last.path);
      var m := Matches(key, last.path, last.members);
      if m != [] {
        MatchesHas(key, last.path, last.members, m[0]);
      }
      if exists j :: 0 <= j < |last.members| && NodeKey(last.members[j]) == key {
        var j :| 0 <= j < |last.members| && NodeKey(last.members[j]) == key;
        assert last.members[j] in Members(pools);
      }
      if exists x :: x in last.members && NodeKey(x) == key {
        var x :| x in last.members && NodeKey(x) == key;
        var j :| 0 <= j < |last.members| && last.members[j] == x;
      }
    }
  }

  /** A pool has no usage exactly when no virtual server names it. */
  lemma {:induction false} PoolUsageEmpty(key: string, virtuals: seq<Virtual>)
    ensures PoolUsage(key, virtuals) == [] <==> forall v :: v in virtuals ==> v.pool != Some(key)
  {
    if virtuals != [] {
      var init := virtuals[..|virtuals| - 1];
      PoolUsageEmpty(key, init);
      assert virtuals == init + [virtuals[|virtuals| - 1]];
    }
  }

  /** A node is reported unused exactly when it was discovered and no pool
      member belongs to it. */
  lemma NodeReportedUnused(nodes: seq<string>, pools: seq<Pool>, virtuals: seq<Virtual>, key: string)
    ensures Unused(NodeItem, key) in Expected(nodes, pools, virtuals).unused <==>
      key in nodes && forall m :: m in Members(pools) ==> NodeKey(m) != key
  {
    var nt := NodeTable(nodes, pools);
    UnusedsHas(NodeItem, nt, Unused(NodeItem, key));
    UnusedsHas(PoolItem, PoolTable(pools, virtuals), Unused(NodeItem, key));
    DedupKeys(nodes);
    NodeUsageEmpty(key, pools);
    if key in nodes {
      var i :| 0 <= i < |Dedup(nodes)| && Dedup(nodes)[i] == key;
      assert nt[i].0 == key;
    }
  }

  /** A pool is reported unused exactly when it was discovered and no virtual
      server names it. */
  lemma PoolReportedUnused(nodes: seq<string>, pools: seq<Pool>, virtuals: seq<Virtual>, key: string)
    ensures Unused(PoolItem, key) in Expected(nodes, pools, virtuals).unused <==>
      key in Paths(pools) && forall v :: v in virtuals ==> v.pool != Some(key)
  {
    var pt := PoolTable(pools, virtuals);
    UnusedsHas(NodeItem, NodeTable(nodes, pools), Unused(PoolItem, key));
    UnusedsHas(PoolItem, pt, Unused(PoolItem, key));
    DedupKeys(Paths(pools));
    PoolUsageEmpty(key, virtuals);
    if key in Paths(pools) {
      var i :| 0 <= i < |Dedup(Paths(pools))| && Dedup(Paths(pools))[i] == key;
      assert pt[i].0 == key;
    }
  }

  /** A node is listed under usage exactly when it was discovered and has
      usage, and the line shows that usage. */
  lemma NodeReportedUsed(nodes: seq<string>, pools: seq<Pool>, virtuals: seq<Virtual>, key: string, text: string)
    ensures InUse(NodeItem, key, text) in Expected(nodes, pools, virtuals).inUse <==>
      key in nodes && NodeUsage(key, pools) != [] && text == UsageStr(NodeUsage(key, pools))
  {
    var nt := NodeTable(nodes, pools);
    InUsesHas(NodeItem, nt, InUse(NodeItem, key, text));
    InUsesHas(PoolItem, PoolTable(pools, virtuals), InUse(NodeItem, key, text));
    DedupKeys(nodes);
    if key in nodes {
      var i :| 0 <= i < |Dedup(nodes)| && Dedup(nodes)[i] == key;
      assert nt[i].0 == key;
    }
  }

  /** A pool is listed under usage exactly when it was discovered and has
      usage, and the line shows that usage. */
  lemma PoolReportedUsed(nodes: seq<string>, pools: seq<Pool>, virtuals: seq<Virtual>, key: string, text: string)
    ensures InUse(PoolItem, key, text) in Expected(nodes, pools, virtuals).inUse <==>
      key in Paths(pools) && PoolUsage(key, virtuals) != [] && text == UsageStr(PoolUsage(key, virtuals))
  {
    var pt := PoolTable(pools, virtuals);
    InUsesHas(NodeItem, NodeTable(nodes, pools), InUse(PoolItem, key, text));
    InUsesHas(PoolItem, pt, InUse(PoolItem, key, text));
    DedupKeys(Paths(pools));
    if key in Paths(pools) {
      var i :| 0 <= i < |Dedup(Paths(pools))| && Dedup(Paths(pools))[i] == key;
      assert pt[i].0 == key;
    }
  }

  lemma NodeTableUsed(nodes: seq<string>, pools: seq<Pool>)
    ensures (forall i :: 0 <= i < |NodeTable(nodes, pools)| ==> NodeTable(nodes, pools)[i].1 != []) <==>
      forall k :: k in nodes ==> NodeUsage(k, pools) != []
  {
    var nt := NodeTable(nodes, pools);
    DedupKeys(nodes);
    if forall i :: 0 <= i < |nt| ==> nt[i].1 != [] {
      forall k | k in nodes
        ensures NodeUsage(k, pools) != []
      {
        var i :| 0 <= i < |Dedup(nodes)| && Dedup(nodes)[i] == k;
        assert nt[i].1 != [];
      }
    }
    if forall k :: k in nodes ==> NodeUsage(k, pools) != [] {
      forall i | 0 <= i < |nt|
        ensures nt[i].1 != []
      {
        assert Dedup(nodes)[i] in Dedup(nodes);
      }
    }
  }

  lemma PoolTableUsed(pools: seq<Pool>, virtuals: seq<Virtual>)
    ensures (forall i :: 0 <= i < |PoolTable(pools, virtuals)| ==> PoolTable(pools, virtuals)[i].1 != []) <==>
      forall k :: k in Paths(pools) ==> PoolUsage(k, virtuals) != []
  {
    var pt := PoolTable(pools, virtuals);
    DedupKeys(Paths(pools));
    if forall i :: 0 <= i < |pt| ==> pt[i].1 != [] {
      forall k | k in Paths(pools)
        ensures PoolUsage(k, virtuals) != []
      {
        var i :| 0 <= i < |Dedup(Paths(pools))| && Dedup(Paths(pools))[i] == k;
        assert pt[i].1 != [];
      }
    }
    if forall k :: k in Paths(pools) ==> PoolUsage(k, virtuals) != [] {
      forall i | 0 <= i < |pt|
        ensures pt[i].1 != []
      {
        var k := Dedup(Paths(pools))[i];
        assert k in Dedup(Paths(pools));
        assert pt[i] == (k, PoolUsage(k, virtuals));
      }
    }
  }

  /** "No unused items" is reported exactly when every node and every pool
      has usage; each discovered node and pool is listed exactly once. */
  lemma ReportPartition(nodes: seq<string>, pools: seq<Pool>, virtuals: seq<Virtual>)
    ensures Expected(nodes, pools, virtuals).noneUnused <==>
      (forall k :: k in nodes ==> NodeUsage(k, pools) != []) &&
      (forall k :: k in Paths(pools) ==> PoolUsage(k, virtuals) != [])
    ensures |Expected(nodes, pools, virtuals).unused| + |Expected(nodes, pools, virtuals).inUse| ==
      |Dedup(nodes)| + |Dedup(Paths(pools))|
  {
    Partition(NodeItem, NodeTable(nodes, pools));
    Partition(PoolItem, PoolTable(pools, virtuals));
    NodeTableUsed(nodes, pools);
    PoolTableUsed(pools, virtuals);
  }
}
