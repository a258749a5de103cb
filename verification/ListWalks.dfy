/** Bounded walks over linked lists in guest memory: circular lists, and hash buckets of chains ended by zero. */
module ListWalks {
  import opened Machine

  /** `next` reads the pointer stored in a list node; `readable` says whether the record at an address can be read. */
  datatype Guest = Guest(next: nat -> Option<nat>, readable: nat -> bool)

  datatype Result = Walked(records: seq<nat>) | Unreadable | TooMany | Looped | BelowOffset | BadBuckets | Overflow

  ghost predicate Distinct(nodes: seq<nat>) {
    forall i, j :: 0 <= i < j < |nodes| ==> nodes[i] != nodes[j]
  }

  /** From `start`, each node points to the one after it, and none is `stop`. */
  ghost predicate Chain(g: Guest, start: nat, nodes: seq<nat>, stop: nat) {
    && (forall i :: 0 <= i < |nodes| ==> nodes[i] != stop)
    && (nodes != [] ==> nodes[0] == start)
    && (forall i :: 0 <= i < |nodes| - 1 ==> g.next(nodes[i]) == Some(nodes[i + 1]))
  }

  /** Where a chain leads. */
  function Reaches(g: Guest, start: nat, nodes: seq<nat>): Option<nat> {
    if nodes == [] then Some(start) else g.next(nodes[|nodes| - 1])
  }

  /** The whole list from `start` to `stop`. */
  ghost predicate List(g: Guest, start: nat, nodes: seq<nat>, stop: nat) {
    Chain(g, start, nodes, stop) && Reaches(g, start, nodes) == Some(stop)
  }

  // --- A list that ends is free of repetition and unique ---

  lemma {:induction false} SameOnwards(g: Guest, start: nat, nodes: seq<nat>, stop: nat, i: nat, j: nat, k: nat)
    requires Chain(g, start, nodes, stop) && i < j && j + k < |nodes| && nodes[i] == nodes[j]
    ensures nodes[i + k] == nodes[j + k]
  {
    if k > 0 {
      SameOnwards(g, start, nodes, stop, i, j, k - 1);
      assert g.next(nodes[i + k - 1]) == Some(nodes[i + k]);
      assert g.next(nodes[j + k - 1]) == Some(nodes[j + k]);
    }
  }

  lemma ListIsDistinct(g: Guest, start: nat, nodes: seq<nat>, stop: nat)
    requires List(g, start, nodes, stop)
    ensures Distinct(nodes)
  {
    forall i, j | 0 <= i < j < |nodes| ensures nodes[i] != nodes[j] {
      var k := |nodes| - 1 - j;
      assert g.next(nodes[i + k]) == Some(nodes[i + k + 1]);
      if nodes[i] == nodes[j] {
        SameOnwards(g, start, nodes, stop, i, j, k);
      }
    }
  }

  /** What has been walked is a beginning of the list. */
  lemma {:induction false} WalkedIsPrefix(g: Guest, start: nat, path: seq<nat>, nodes: seq<nat>, stop: nat)
    requires Chain(g, start, path, stop) && List(g, start, nodes, stop)
    ensures |path| <= |nodes| && path == nodes[..|path|]
  {
    if path != [] {
      var n := |path| - 1;
      WalkedIsPrefix(g, start, path[..n], nodes, stop);
      if n > 0 {
        assert path[n - 1] == nodes[n - 1];
        assert g.next(path[n - 1]) == Some(path[n]);
      }
      assert n < |nodes| && path[n] == nodes[n];
    }
  }

  lemma NextOnList(g: Guest, start: nat, path: seq<nat>, nodes: seq<nat>, stop: nat)
    requires Chain(g, start, path, stop) && List(g, start, nodes, stop)
    ensures |path| <= |nodes| && path == nodes[..|path|]
    ensures Reaches(g, start, path) == Some(if |path| < |nodes| then nodes[|path|] else stop)
  {
    WalkedIsPrefix(g, start, path, nodes, stop);
  }

  // --- Circular lists ---

  function Records(nodes: seq<nat>, offset: nat): seq<int> {
    seq(|nodes|, i requires 0 <= i < |nodes| => nodes[i] - offset)
  }

  ghost predicate Sound(g: Guest, nodes: seq<nat>, offset: nat) {
    forall i :: 0 <= i < |nodes| ==> nodes[i] >= offset && g.readable(nodes[i] - offset)
  }

  /** The list is whole, its records can be read, and it keeps to the limit, `already` records being counted before it.
      */
  ghost predicate Walkable(g: Guest, start: nat, stop: nat, offset: nat, limit: nat, already: nat, nodes: seq<nat>) {
    List(g, start, nodes, stop) && Sound(g, nodes, offset) && (nodes == [] || already + |nodes| <= limit)
  }

  lemma WalkableNode(g: Guest, start: nat, stop: nat, offset: nat, limit: nat, already: nat, nodes: seq<nat>,
                     path: seq<nat>, node: nat)
    requires Walkable(g, start, stop, offset, limit, already, nodes)
    requires Chain(g, start, path, stop) && Reaches(g, start, path) == Some(node) && node != stop
    ensures already + |path| < limit && node >= offset && g.readable(node - offset) && g.next(node).Some?
  {
    NextOnList(g, start, path, nodes, stop);
    var n := |path|;
    assert node == nodes[n];
    assert n < |nodes| - 1 ==> g.next(nodes[n]) == Some(nodes[n + 1]);
  }

  lemma ListNeverLoops(g: Guest, start: nat, path: seq<nat>, nodes: seq<nat>, stop: nat, node: nat)
    requires List(g, start, nodes, stop)
    requires Chain(g, start, path, stop) && Reaches(g, start, path) == Some(node) && node != stop
    ensures node !in path
  {
    NextOnList(g, start, path, nodes, stop);
    ListIsDistinct(g, start, nodes, stop);
  }

  lemma Extend(g: Guest, start: nat, path: seq<nat>, stop: nat, node: nat)
    requires Chain(g, start, path, stop) && Reaches(g, start, path) == Some(node) && node != stop
    ensures Chain(g, start, path + [node], stop) && Reaches(g, start, path + [node]) == g.next(node)
  {
  }

  /**
   * The loop shared by the walks of tasks, modules and ftrace operations, from the first node back to the head. It
   * succeeds exactly on the lists that are whole, readable and within the limit, and then returns each record once.
   */
  method WalkCircle(g: Guest, head: nat, offset: nat, limit: nat,
                    already: nat) returns (r: Result, ghost nodes: seq<nat>)
    ensures r.Walked? ==> g.next(head).Some? && Walkable(g, g.next(head).value, head, offset, limit, already, nodes)
    ensures r.Walked? ==> r.records == Records(nodes, offset) && Distinct(nodes)
    ensures !r.Walked? && g.next(head).Some? ==>
              forall other :: !Walkable(g, g.next(head).value, head, offset, limit, already, other)
    // Only a list that never comes back is called a loop.
    ensures r == Looped ==> g.next(head).Some? && forall other :: !List(g, g.next(head).value, other, head)
  {
    hide Chain, Reaches, List, Sound, Distinct;
    nodes := [];
    var first := g.next(head);
    if first.None? { return Unreadable, nodes; }
    var start := first.value;
    var node, out: seq<nat>, visited := start, [], {};
    StartOfChain(g, start, head);
    NoRecords(g, offset);
    while node != head
      invariant Chain(g, start, nodes, head) && Reaches(g, start, nodes) == Some(node)
      invariant Sound(g, nodes, offset) && (nodes == [] || already + |nodes| <= limit)
      invariant |out| == |nodes| && out == Records(nodes, offset) && visited == set n | n in nodes
      decreases limit - |nodes|
    {
      forall other | Walkable(g, start, head, offset, limit, already, other)
        ensures already + |nodes| < limit && node >= offset && g.readable(node - offset) && g.next(node).Some?
      {
        WalkableNode(g, start, head, offset, limit, already, other, nodes, node);
      }
      forall other | List(g, start, other, head) ensures node !in nodes {
        ListNeverLoops(g, start, nodes, other, head, node);
      }
      if already + |out| >= limit { return TooMany, nodes; }
      if node in visited { return Looped, nodes; }
      visited := visited + {node};
      if node < offset { return BelowOffset, nodes; }
      if !g.readable(node - offset) { return Unreadable, nodes; }
      out := out + [node - offset];
      var next := g.next(node);
      if next.None? { return Unreadable, nodes; }
      Extend(g, start, nodes, head, node);
      MoreRecords(g, nodes, offset, node);
      nodes, node := nodes + [node], next.value;
    }
    ChainIsList(g, start, nodes, head);
    ListIsDistinct(g, start, nodes, head);
    r := Walked(out);
  }

  lemma StartOfChain(g: Guest, start: nat, stop: nat)
    ensures Chain(g, start, [], stop) && Reaches(g, start, []) == Some(start)
  {
  }

  lemma ChainIsList(g: Guest, start: nat, nodes: seq<nat>, stop: nat)
    requires Chain(g, start, nodes, stop) && Reaches(g, start, nodes) == Some(stop)
    ensures List(g, start, nodes, stop)
  {
  }

  lemma NoRecords(g: Guest, offset: nat)
    ensures Sound(g, [], offset) && Records([], offset) == []
  {
  }

  lemma MoreRecords(g: Guest, nodes: seq<nat>, offset: nat, node: nat)
    requires Sound(g, nodes, offset) && node >= offset && g.readable(node - offset)
    ensures Sound(g, nodes + [node], offset)
            && Records(nodes + [node], offset) == Records(nodes, offset) + [node - offset]
  {
  }

  /** `walk_linux_modules` and the ftrace walk: the head is not a record. */
  method WalkModules(g: Guest, head: nat, offset: nat, limit: nat) returns (r: Result)
    ensures r.Walked? <==>
              g.next(head).Some? && exists nodes :: Walkable(g, g.next(head).value, head, offset, limit, 0, nodes)
    ensures r.Walked? ==>
              exists nodes :: Walkable(g, g.next(head).value, head, offset, limit, 0, nodes) && Distinct(nodes)
                                         && r.records == Records(nodes, offset)
  {
    hide Walkable, Distinct;
    ghost var nodes;
    r, nodes := WalkCircle(g, head, offset, limit, 0);
  }

  /** `walk_task_list`: the record of the head itself comes first, and counts against the limit. */
  method WalkTasks(g: Guest, head: nat, offset: nat, limit: nat) returns (r: Result)
    ensures r.Walked? <==> head >= offset && g.readable(head - offset) && g.next(head).Some?
                           && exists nodes :: Walkable(g, g.next(head).value, head, offset, limit, 1, nodes)
    ensures r.Walked? ==>
              exists nodes :: Walkable(g, g.next(head).value, head, offset, limit, 1, nodes) && Distinct([head] + nodes)
                                         && r.records == Records([head] + nodes, offset)
  {
    hide Walkable, Distinct;
    if head < offset { return BelowOffset; }
    if !g.readable(head - offset) { return Unreadable; }
    ghost var nodes;
    r, nodes := WalkCircle(g, head, offset, limit, 1);
    if r.Walked? {
      HeadComesFirst(g, head, offset, limit, nodes);
      r := Walked([head - offset] + r.records);
    }
  }

  lemma HeadComesFirst(g: Guest, head: nat, offset: nat, limit: nat, nodes: seq<nat>)
    requires g.next(head).Some? && Walkable(g, g.next(head).value, head, offset, limit, 1, nodes) && Distinct(nodes)
    ensures Distinct([head] + nodes)
    ensures Records([head] + nodes, offset) == [head - offset] + Records(nodes, offset)
  {
  }

  // --- Buckets of chains ended by zero ---

  function Flat(chains: seq<seq<nat>>): seq<nat> {
    if chains == [] then [] else Flat(chains[..|chains| - 1]) + chains[|chains| - 1]
  }

  /** The chain of one bucket, from the pointer its slot in the table holds. */
  ghost predicate Bucket(g: Guest, table: nat, b: nat, nodes: seq<nat>) {
    table + 8 * b <= U64_MAX && g.next(table + 8 * b).Some? && List(g, g.next(table + 8 * b).value, nodes, 0)
  }

  ghost predicate Buckets(g: Guest, table: nat, chains: seq<seq<nat>>) {
    forall b :: 0 <= b < |chains| ==> Bucket(g, table, b, chains[b])
  }

  /** The buckets hold these chains, whole, readable, within the limit, and no node twice. */
  ghost predicate Probes(g: Guest, table: nat, offset: nat, limit: nat, chains: seq<seq<nat>>) {
    && Buckets(g, table, chains)
    && Sound(g, Flat(chains), offset) && Distinct(Flat(chains)) && |Flat(chains)| <= limit
  }

  lemma ListIsUnique(g: Guest, start: nat, a: seq<nat>, b: seq<nat>, stop: nat)
    requires List(g, start, a, stop) && List(g, start, b, stop)
    ensures a == b
  {
    WalkedIsPrefix(g, start, a, b, stop);
    WalkedIsPrefix(g, start, b, a, stop);
  }

  lemma {:induction false} FlatPrefix(chains: seq<seq<nat>>, n: nat)
    requires n <= |chains|
    ensures Flat(chains[..n]) <= Flat(chains)
  {
    if n < |chains| {
      var m := |chains| - 1;
      FlatPrefix(chains[..m], n);
      assert chains[..m][..n] == chains[..n];
    } else {
      assert chains[..n] == chains;
    }
  }

  lemma FlatSnoc(chains: seq<seq<nat>>, chain: seq<nat>)
    ensures Flat(chains + [chain]) == Flat(chains) + chain
  {
    assert (chains + [chain])[..|chains|] == chains;
  }

  /** A beginning of good buckets is good. */
  lemma ProbesPrefix(g: Guest, table: nat, offset: nat, limit: nat, chains: seq<seq<nat>>, n: nat)
    requires Probes(g, table, offset, limit, chains) && n <= |chains|
    ensures Probes(g, table, offset, limit, chains[..n])
  {
    hide Bucket, Flat;
    FlatPrefix(chains, n);
    var some, all := Flat(chains[..n]), Flat(chains);
    assert forall i :: 0 <= i < |some| ==> some[i] == all[i];
  }

  lemma {:induction false} ProbesUnique(g: Guest, table: nat, offset: nat, limit: nat, a: seq<seq<nat>>,
                                        b: seq<seq<nat>>)
    requires Probes(g, table, offset, limit, a) && Probes(g, table, offset, limit, b) && |a| == |b|
    ensures a == b
  {
    hide Flat, Sound, Distinct, List;
    forall i | 0 <= i < |a| ensures a[i] == b[i] {
      assert Bucket(g, table, i, a[i]) && Bucket(g, table, i, b[i]);
      ListIsUnique(g, g.next(table + 8 * i).value, a[i], b[i], 0);
    }
  }

  /** The chain from `start` continues the nodes already found. */
  ghost predicate Continues(g: Guest, start: nat, offset: nat, limit: nat, before: seq<nat>, nodes: seq<nat>) {
    List(g, start, nodes, 0) && Sound(g, nodes, offset) && Distinct(before + nodes) && |before + nodes| <= limit
  }

  lemma ContinuesNode(g: Guest, start: nat, offset: nat, limit: nat, before: seq<nat>, nodes: seq<nat>, path: seq<nat>,
                      node: nat)
    requires Continues(g, start, offset, limit, before, nodes)
    requires Chain(g, start, path, 0) && Reaches(g, start, path) == Some(node) && node != 0
    ensures |before + path| < limit && node !in before + path && node >= offset && g.readable(node - offset)
            && g.next(node).Some?
  {
    NextOnList(g, start, path, nodes, 0);
    var n, m := |path|, |before|;
    assert node == nodes[n] == (before + nodes)[m + n];
    assert forall i :: 0 <= i < m + n ==> (before + path)[i] == (before + nodes)[i];
    assert n < |nodes| - 1 ==> g.next(nodes[n]) == Some(nodes[n + 1]);
  }

  lemma OneMore(before: seq<nat>, path: seq<nat>, node: nat)
    requires Distinct(before + path) && node !in before + path
    ensures Distinct(before + (path + [node])) && before + (path + [node]) == before + path + [node]
  {
    var all := before + path;
    assert forall i :: 0 <= i < |all| ==> all[i] in all;
    assert before + (path + [node]) == all + [node];
  }

  /** The inner loop over one bucket, with the nodes and the limit shared by all buckets. */
  method WalkBucket(g: Guest, start: nat, offset: nat, limit: nat, already: seq<nat>, seen: set<nat>,
                    ghost before: seq<nat>)
    returns (r: Result, visited: set<nat>, ghost nodes: seq<nat>)
    requires Sound(g, before, offset) && Distinct(before) && |before| <= limit
    requires |already| == |before| && already == Records(before, offset) && seen == set n | n in before
    ensures r.Walked? ==> Continues(g, start, offset, limit, before, nodes)
    ensures r.Walked? ==> |r.records| == |before + nodes| && r.records == Records(before + nodes, offset)
                          && Sound(g, before + nodes, offset) && visited == set n | n in before + nodes
    ensures r != BadBuckets
    ensures !r.Walked? ==> forall other :: !Continues(g, start, offset, limit, before, other)
  {
    hide Chain, Reaches, List, Sound, Distinct;
    var node, out: seq<nat> := start, already;
    nodes, visited := [], seen;
    StartOfChain(g, start, 0);
    NoRecords(g, offset);
    assert before + [] == before;
    while node != 0
      invariant Chain(g, start, nodes, 0) && Reaches(g, start, nodes) == Some(node)
      invariant Sound(g, nodes, offset) && Sound(g, before + nodes, offset) && Distinct(before + nodes)
                && |before + nodes| <= limit
      invariant |out| == |before + nodes| && out == Records(before + nodes, offset)
                && visited == set n | n in before + nodes
      decreases limit - |nodes|
    {
      forall other | Continues(g, start, offset, limit, before, other)
        ensures |before + nodes| < limit && node !in before + nodes && node >= offset && g.readable(node - offset)
                && g.next(node).Some?
      {
        ContinuesNode(g, start, offset, limit, before, other, nodes, node);
      }
      if |out| >= limit { return TooMany, visited, nodes; }
      if node in visited { return Looped, visited, nodes; }
      visited := visited + {node};
      if node < offset { return BelowOffset, visited, nodes; }
      if !g.readable(node - offset) { return Unreadable, visited, nodes; }
      out := out + [node - offset];
      var next := g.next(node);
      if next.None? { return Unreadable, visited, nodes; }
      Extend(g, start, nodes, 0, node);
      MoreRecords(g, nodes, offset, node);
      MoreRecords(g, before + nodes, offset, node);
      OneMore(before, nodes, node);
      nodes, node := nodes + [node], next.value;
    }
    ChainIsList(g, start, nodes, 0);
    r := Walked(out);
  }

  lemma SoundAppend(g: Guest, a: seq<nat>, b: seq<nat>, offset: nat)
    requires Sound(g, a, offset)
    ensures Sound(g, a + b, offset) <==> Sound(g, b, offset)
  {
    assert forall i :: 0 <= i < |b| ==> b[i] == (a + b)[|a| + i];
  }

  lemma ProbesSnoc(g: Guest, table: nat, offset: nat, limit: nat, chains: seq<seq<nat>>, chain: seq<nat>)
    requires Probes(g, table, offset, limit, chains)
    requires table + 8 * |chains| <= U64_MAX && g.next(table + 8 * |chains|).Some?
    ensures Probes(g, table, offset, limit, chains + [chain]) <==>
            Continues(g, g.next(table + 8 * |chains|).value, offset, limit, Flat(chains), chain)
  {
    hide Flat, List, Distinct, Sound, Buckets;
    FlatSnoc(chains, chain);
    SoundAppend(g, Flat(chains), chain, offset);
    BucketsSnoc(g, table, chains, chain);
  }

  lemma BucketsSnoc(g: Guest, table: nat, chains: seq<seq<nat>>, chain: seq<nat>)
    requires Buckets(g, table, chains)
    ensures Buckets(g, table, chains + [chain]) <==> Bucket(g, table, |chains|, chain)
  {
    hide Bucket;
    assert (chains + [chain])[|chains|] == chain;
  }

  /** Good buckets continue what the first of them hold. */
  lemma FullContinues(g: Guest, table: nat, offset: nat, limit: nat, chains: seq<seq<nat>>, full: seq<seq<nat>>)
    requires Probes(g, table, offset, limit, chains) && Probes(g, table, offset, limit, full) && |chains| < |full|
    ensures table + 8 * |chains| <= U64_MAX && g.next(table + 8 * |chains|).Some?
    ensures Continues(g, g.next(table + 8 * |chains|).value, offset, limit, Flat(chains), full[|chains|])
  {
    hide Flat, List, Distinct, Continues, Sound;
    var b := |chains|;
    assert Bucket(g, table, b, full[b]);
    ProbesPrefix(g, table, offset, limit, full, b);
    ProbesUnique(g, table, offset, limit, full[..b], chains);
    ProbesPrefix(g, table, offset, limit, full, b + 1);
    assert full[..b + 1] == chains + [full[b]];
    ProbesSnoc(g, table, offset, limit, chains, full[b]);
  }

  /**
   * `inspect_linux_kprobes`: succeeds exactly when every bucket holds a whole chain and no node occurs twice, within a
   * bucket or across buckets, and then returns the records of all chains in order.
   */
  method WalkKprobes(g: Guest, table: nat, buckets: nat, maxBuckets: nat, offset: nat, limit: nat) returns (r: Result)
    ensures r == BadBuckets <==> buckets == 0 || buckets > maxBuckets
    ensures r.Walked? <==>
            && 0 < buckets <= maxBuckets
            && exists chains :: |chains| == buckets && Probes(g, table, offset, limit, chains)
    ensures r.Walked? ==> exists chains ::
              && |chains| == buckets && Probes(g, table, offset, limit, chains)
              && r.records == Records(Flat(chains), offset)
  {
    if buckets == 0 || buckets > maxBuckets { return BadBuckets; }
    NoRecords(g, offset);
    var out: seq<nat>, visited := [], {};
    ghost var chains: seq<seq<nat>> := [];
    assert Probes(g, table, offset, limit, chains);
    hide Flat, List, Distinct, Sound, Bucket, Continues;
    for b := 0 to buckets
      invariant |chains| == b && Probes(g, table, offset, limit, chains)
      invariant |out| == |Flat(chains)| && out == Records(Flat(chains), offset) && visited == set n | n in Flat(chains)
    {
      forall full | |full| == buckets && Probes(g, table, offset, limit, full)
        ensures table + 8 * b <= U64_MAX && g.next(table + 8 * b).Some?
        ensures Continues(g, g.next(table + 8 * b).value, offset, limit, Flat(chains), full[b])
      {
        FullContinues(g, table, offset, limit, chains, full);
      }
      if table + 8 * b > U64_MAX { return Overflow; }
      var first := g.next(table + 8 * b);
      if first.None? { return Unreadable; }
      ghost var nodes;
      r, visited, nodes := WalkBucket(g, first.value, offset, limit, out, visited, Flat(chains));
      if !r.Walked? { return; }
      ProbesSnoc(g, table, offset, limit, chains, nodes);
      FlatSnoc(chains, nodes);
      out, chains := r.records, chains + [nodes];
    }
    r := Walked(out);
  }
}
