/** Whole runs of `btree_insert`, and what the invariant means for a reader of the tree. */
module BTreeRuns {
  import opened DataConfig
  import opened MergeSpec
  import opened Compaction
  import opened PageLayout
  import opened BTreeShape
  import opened BTreeUpdates
  import opened BTree
  import opened PagedNodes
  import opened BTreeInsert
  import L = LeafSearch

  /** A map after a run of inserts, oldest first. */
  function Applied(cfg: Config, ops: seq<Pair>): map<Key, Message> {
    if ops == [] then map[]
    else Inserted(cfg, Applied(cfg, ops[..|ops| - 1]), ops[|ops| - 1].key, ops[|ops| - 1].msg)
  }

  /** The messages a run has for one key, newest first. */
  function MessagesFor(ops: seq<Pair>, k: Key): seq<Message> {
    if ops == [] then []
    else
      var last := ops[|ops| - 1];
      (if last.key == k then [last.msg] else []) + MessagesFor(ops[..|ops| - 1], k)
  }

  /** Merging on arrival comes to the fold of all messages, newest to oldest. */
  lemma {:induction false} AppliedIsFold(cfg: Config, ops: seq<Pair>, k: Key)
    requires MergeAssociative(cfg)
    ensures Get(Applied(cfg, ops), k) == FoldMessages(cfg, k, MessagesFor(ops, k))
  {
    if ops != [] {
      var last, before := ops[|ops| - 1], ops[..|ops| - 1];
      AppliedIsFold(cfg, before, k);
      if last.key == k {
        FoldConcat(cfg, k, [last.msg], MessagesFor(before, k));
        assert [last.msg][..0] == [];
      } else {
        assert [] + MessagesFor(before, k) == MessagesFor(before, k);
      }
    }
  }

  datatype Op = Op(key: Image, value: L.Value)

  /** The messages that were stored, oldest first. */
  function StoredOps(f: Format, ops: seq<Op>, outcomes: seq<Outcome>): seq<Pair>
    requires |outcomes| <= |ops|
  {
    if outcomes == [] then []
    else
      var n := |outcomes| - 1;
      StoredOps(f, ops, outcomes[..n])
      + if outcomes[n].Stored? then [Pair(f.rank(ops[n].key), f.read(ops[n].value))] else []
  }

  /** The messages `btree_insert` does not refuse, oldest first. */
  function AcceptedOps(f: Format, ops: seq<Op>): seq<Pair> {
    if ops == [] then []
    else
      var n := |ops| - 1;
      AcceptedOps(f, ops[..n])
      + if Refuses(f, ops[n].key, ops[n].value) then [] else [Pair(f.rank(ops[n].key), f.read(ops[n].value))]
  }

  /** An insert ended as it should, given what the inserts before it had stored. */
  ghost predicate EndedAt(f: Format, ops: seq<Op>, outcomes: seq<Outcome>, i: nat)
    requires i < |outcomes| <= |ops|
  {
    && (outcomes[i].Stored? ==>
          (outcomes[i].wasUnique <==> f.rank(ops[i].key) !in Applied(f.cfg, StoredOps(f, ops, outcomes[..i]))))
    && (outcomes[i] == BadParam <==> Refuses(f, ops[i].key, ops[i].value))
    && (ShortKeys(f) ==> outcomes[i] != NoRoom)
  }

  /** How the claims of all inserts fared; insert i tried those from asked[i] up to asked[i + 1]. */
  ghost predicate AllServed(f: Format, claims: nat -> bool, attempts: nat, outcomes: seq<Outcome>, asked: seq<nat>) {
    && |asked| == |outcomes| + 1 && asked[0] == 0
    && forall i | 0 <= i < |outcomes| :: Served(f, claims, asked[i], asked[i + 1], attempts, outcomes[i])
  }

  /** With every claim granted and short keys a run stores all it accepts. */
  lemma {:induction false} NoneStartsOver(f: Format, ops: seq<Op>, claims: nat -> bool, attempts: nat,
      outcomes: seq<Outcome>, asked: seq<nat>)
    requires |outcomes| <= |ops| && AllServed(f, claims, attempts, outcomes, asked)
    requires forall i | 0 <= i < |outcomes| :: EndedAt(f, ops, outcomes, i)
    requires ShortKeys(f) && attempts > 0 && forall i: nat :: claims(i)
    ensures StoredOps(f, ops, outcomes) == AcceptedOps(f, ops[..|outcomes|])
  {
    hide Refuses, Served;
    if outcomes != [] {
      var n := |outcomes| - 1;
      forall i | 0 <= i < n ensures EndedAt(f, ops, outcomes[..n], i) {
        assert EndedAt(f, ops, outcomes, i) && outcomes[..n][..i] == outcomes[..i];
      }
      NoneStartsOver(f, ops, claims, attempts, outcomes[..n], asked[..n + 1]);
      assert EndedAt(f, ops, outcomes, n) && ops[..n + 1][..n] == ops[..n];
      AlwaysGranted(f, claims, asked[n], asked[n + 1], attempts, outcomes[n]);
    }
  }

  lemma AlwaysGranted(f: Format, claims: nat -> bool, from: nat, end: nat, attempts: nat, outcome: Outcome)
    requires Served(f, claims, from, end, attempts, outcome) && ShortKeys(f) && attempts > 0
    requires forall i: nat :: claims(i)
    ensures outcome.Stored? || outcome == BadParam
  {
    assert Granted(claims, from, end);
  }

  /**
    Any run of inserts on a new tree, each given up after some number of descents or not, up
    to the first one for which a page has no room: for every key the tree holds the
    newest-to-oldest merge of the stored messages. With short keys there is always room, and
    with every claim granted, too, everything that is accepted is stored.
   */
  method RunInserts(format: Format, ops: seq<Op>, attempts: nat, claims: nat -> bool)
    returns (paged: PagedTree, outcomes: seq<Outcome>, asked: seq<nat>)
    requires FormatOk(format) && MergeAssociative(format.cfg)
    requires forall i | 0 <= i < |ops| :: WithinLimit(format, ops[i].key, ops[i].value)
    ensures paged.Valid() && |outcomes| <= |ops|
    ensures |outcomes| < |ops| ==> outcomes != [] && outcomes[|outcomes| - 1] == NoRoom
    ensures forall i | 0 <= i < |outcomes| :: EndedAt(format, ops, outcomes, i)
    ensures AllServed(format, claims, attempts, outcomes, asked)
    ensures ShortKeys(format) ==> |outcomes| == |ops|
    ensures ShortKeys(format) && attempts > 0 && (forall i: nat :: claims(i)) ==>
      paged.tree.contents == Applied(format.cfg, AcceptedOps(format, ops))
    ensures var stored := StoredOps(format, ops, outcomes);
      && paged.tree.contents == Applied(format.cfg, stored)
      && forall k :: Get(paged.tree.contents, k) == FoldMessages(format.cfg, k, MessagesFor(stored, k))
  {
    hide PagedTree.Valid, Inserted, FoldMessages, MergeAssociative, EndedAt, FormatOk, Served, Refuses;
    paged := new PagedTree(format, claims);
    outcomes, asked := [], [0];
    for i := 0 to |ops|
      invariant paged.Valid() && fresh(paged) && fresh(paged.tree) && paged.format == format && |outcomes| == i
      invariant paged.tree.contents == Applied(format.cfg, StoredOps(format, ops, outcomes))
      invariant paged.claims == claims && AllServed(format, claims, attempts, outcomes, asked)
      invariant asked[i] == paged.asked
      invariant forall j | 0 <= j < i :: EndedAt(format, ops, outcomes, j)
      invariant ShortKeys(format) ==> forall j | 0 <= j < i :: outcomes[j] != NoRoom
    {
      ghost var was := outcomes;
      var outcome := paged.InsertMessage(ops[i].key, ops[i].value, attempts);
      outcomes, asked := outcomes + [outcome], asked + [paged.asked];
      OneMore(format, ops, was, outcome);
      if outcome == NoRoom {
        break;
      }
    }
    ghost var stored := StoredOps(format, ops, outcomes);
    if ShortKeys(format) && attempts > 0 && (forall i: nat :: claims(i)) {
      NoneStartsOver(format, ops, claims, attempts, outcomes, asked);
      assert ops[..|outcomes|] == ops;
    }
    forall k ensures Get(paged.tree.contents, k) == FoldMessages(format.cfg, k, MessagesFor(stored, k)) {
      AppliedIsFold(format.cfg, stored, k);
    }
  }

  lemma OneMore(f: Format, ops: seq<Op>, was: seq<Outcome>, outcome: Outcome)
    requires |was| < |ops| && forall j | 0 <= j < |was| :: EndedAt(f, ops, was, j)
    ensures var outcomes, stored, op := was + [outcome], StoredOps(f, ops, was), ops[|was|];
      && Applied(f.cfg, StoredOps(f, ops, outcomes))
         == (if outcome.Stored? then Inserted(f.cfg, Applied(f.cfg, stored), f.rank(op.key), f.read(op.value))
             else Applied(f.cfg, stored))
      && (Ends(f, Applied(f.cfg, stored), op.key, op.value, outcome, Applied(f.cfg, StoredOps(f, ops, outcomes))) ==>
            forall j | 0 <= j <= |was| :: EndedAt(f, ops, outcomes, j))
  {
    hide Inserted;
    var outcomes, stored := was + [outcome], StoredOps(f, ops, was);
    assert outcomes[..|was|] == was;
    if outcome.Stored? {
      var all := StoredOps(f, ops, outcomes);
      assert all[..|all| - 1] == stored;
    } else {
      assert stored + [] == stored;
    }
    forall j | 0 <= j < |was| ensures EndedAt(f, ops, outcomes, j) {
      assert EndedAt(f, ops, was, j);
      assert outcomes[..j] == was[..j];
    }
  }

  /** What `btree_verify_node` checks: equal heights, and pivots that are the children's first keys. */
  lemma TreeShape(nodes: Nodes, bounds: map<Addr, Bounds>, root: Addr, a: Addr, i: nat)
    requires TreeOk(nodes, bounds, root) && a in nodes && nodes[a].Index? && i < |nodes[a].children|
    ensures Increasing(nodes[a].pivots) && |nodes[a].pivots| == |nodes[a].children|
    ensures nodes[a].children[i] in nodes && Height(nodes[nodes[a].children[i]]) + 1 == Height(nodes[a])
    ensures i > 0 ==>
      HasMinKey(nodes[nodes[a].children[i]]) && MinKey(nodes[nodes[a].children[i]]) == nodes[a].pivots[i]
    ensures MinAtLeast(nodes[nodes[a].children[i]], nodes[a].pivots[i])
  {
    OkAt(nodes, bounds, a);
    assert ChildOk(nodes, bounds, nodes[a], bounds[a], i);
    OkAt(nodes, bounds, nodes[a].children[i]);
  }

  /** Every leaf is strictly sorted and ends before its right neighbour starts. */
  lemma LeafChainSorted(nodes: Nodes, bounds: map<Addr, Bounds>, root: Addr, a: Addr)
    requires TreeOk(nodes, bounds, root) && a in nodes && nodes[a].Leaf?
    ensures StrictlySorted(nodes[a].entries)
    ensures nodes[a].next != NO_ADDR ==>
      && nodes[a].next in nodes && nodes[nodes[a].next].Leaf? && nodes[nodes[a].next].prev == a
      && nodes[nodes[a].next].entries != []
      && forall i | 0 <= i < |nodes[a].entries| :: nodes[a].entries[i].key < nodes[nodes[a].next].entries[0].key
  {
    OkAt(nodes, bounds, a);
    LinksAt(nodes, bounds, a);
    if nodes[a].next != NO_ADDR {
      OkAt(nodes, bounds, nodes[a].next);
    }
  }
}
