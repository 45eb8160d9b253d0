/**
  The asynchronous point lookup (btree.c:2228-2374) on a tree that does not change: a state
  machine that is resumed after every page that was locked, short of I/O requests, or read
  from disk, and that holds references hand over hand.
 */
module AsyncLookup {
  import opened Wrappers
  import opened DataConfig
  import opened MergeSpec
  import opened BTreeShape
  import opened BTreeUpdates
  import opened BTree

  datatype State = Start | GetNode | GetIndexComplete | GetLeafComplete

  /** What `cache_get_async` may answer. */
  datatype CacheResult = Locked | NoReqs | IoStarted | Success

  function RefsOf(node: Option<Addr>): multiset<Addr> {
    match node case None => multiset{} case Some(a) => multiset{a}
  }

  /** The answers from `from` up to `end` have all been Success. */
  ghost predicate AllSuccess(answers: nat -> CacheResult, from: nat, end: nat) {
    from <= end && forall i: nat | from <= i < end :: answers(i) == Success
  }

  /** How many of the first `end` answers were in the way. */
  ghost function Obstacles(answers: nat -> CacheResult, end: nat): nat {
    if end == 0 then 0 else Obstacles(answers, end - 1) + if answers(end - 1) == Success then 0 else 1
  }

  lemma {:induction false} NoObstacles(answers: nat -> CacheResult, from: nat, end: nat)
    requires AllSuccess(answers, from, end)
    ensures Obstacles(answers, from) == Obstacles(answers, end)
    decreases end
  {
    if from != end {
      NoObstacles(answers, from, end - 1);
    }
  }

  class Request {
    const nodes: Nodes
    const root: Addr
    const target: Key
    /** What the cache answers, request by request. */
    const answers: nat -> CacheResult
    ghost const bounds: map<Addr, Bounds>
    ghost const contents: map<Key, Message>

    var state: State
    var childAddr: Addr
    var node: Option<Addr>
    /** The page the cache has handed over. */
    var page: Option<Addr>
    /** How many pages the cache has been asked for. */
    var asked: nat
    /** References on pages, as the cache counts them for this request. */
    var refs: multiset<Addr>

    ghost predicate TreeValid() {
      TreeOk(nodes, bounds, root) && Represents(nodes, bounds, contents)
    }

    /** Page c is on the way to the target, below the node n that is held. */
    ghost predicate OnPath(c: Addr, n: Option<Addr>) {
      && c in nodes && c in bounds && In(bounds[c], target)
      && (n.Some? ==> n.value in nodes && nodes[n.value].Index? && c in nodes[n.value].children)
    }

    ghost predicate InState(s: State, c: Addr, n: Option<Addr>, p: Option<Addr>, r: multiset<Addr>) {
      match s
      case Start => r == multiset{}
      case GetNode => OnPath(c, n) && p == None && r == RefsOf(n)
      case GetIndexComplete => OnPath(c, n) && p == Some(c) && r == RefsOf(n) + multiset{c}
      case GetLeafComplete =>
        n == Some(c) && c in nodes && nodes[c].Leaf? && c in bounds && In(bounds[c], target) && r == multiset{c}
    }

    ghost predicate Valid()
      reads this`state, this`childAddr, this`node, this`page, this`refs
    {
      TreeValid() && InState(state, childAddr, node, page, refs)
    }

    constructor (nodes: Nodes, root: Addr, target: Key, ghost bounds: map<Addr, Bounds>,
        ghost contents: map<Key, Message>, answers: nat -> CacheResult)
      requires TreeOk(nodes, bounds, root) && Represents(nodes, bounds, contents)
      ensures this.answers == answers && asked == 0
      ensures Valid() && this.contents == contents && this.target == target && refs == multiset{} && state == Start
    {
      this.nodes, this.root, this.target, this.bounds, this.contents := nodes, root, target, bounds, contents;
      this.answers, asked := answers, 0;
      state, childAddr, node, page, refs := Start, NO_ADDR, None, None, multiset{};
    }

    /** Index levels still to go, and the place in the state machine. */
    ghost function Measure(s: State, c: Addr): (nat, nat) {
      (if s != Start && c in nodes then Height(nodes[c]) else 0,
       match s case Start => 0 case GetNode => 3 case GetIndexComplete => 2 case GetLeafComplete => 1)
    }

    /** `btree_async_callback`: the read that was started has completed. */
    method Callback()
      requires Valid() && state == GetNode
      modifies this`page, this`refs, this`state
      ensures Valid() && state == GetIndexComplete
    {
      hide TreeOk, Represents, In;
      page, refs, state := Some(childAddr), refs + multiset{childAddr}, GetIndexComplete;
    }

    /**
      One invocation of `btree_lookup_async_with_ref`. It returns early only with the first
      answer of the cache that is not a success. On success the answer is that of the
      synchronous lookup, and the leaf is held exactly when there is something to read in it.
     */
    method Resume() returns (res: CacheResult, found: Option<Message>)
      requires Valid()
      modifies this
      ensures res != Success ==> Valid() && state == GetNode
      ensures if res == Success then AllSuccess(answers, old(asked), asked)
              else old(asked) < asked && AllSuccess(answers, old(asked), asked - 1) && answers(asked - 1) == res
      ensures res == Success ==>
        && found == Get(contents, target)
        && refs == if found.Some? then multiset{childAddr} else multiset{}
    {
      hide TreeValid, InState, AllSuccess, Height, Get;
      NoneYet(answers, asked);
      found := None;
      if state == Start {
        Starts(childAddr, node, page, refs);
        childAddr, node, page, state := root, None, None, GetNode;
      }
      while true
        invariant Valid() && state != Start && AllSuccess(answers, old(asked), asked)
        decreases Measure(state, childAddr).0, Measure(state, childAddr).1
      {
        match state {
          case GetNode =>
            res := answers(asked);
            OneMore(answers, old(asked), asked);
            asked := asked + 1;
            if res != Success {
              return;
            }
            Arrives(childAddr, node, page, refs);
            page, refs, state := Some(childAddr), refs + multiset{childAddr}, GetIndexComplete;
          case GetIndexComplete =>
            IndexComplete();
          case GetLeafComplete =>
            found := LeafComplete();
            return Success, found;
          case Start =>
        }
      }
    }

    lemma Starts(c: Addr, n: Option<Addr>, p: Option<Addr>, r: multiset<Addr>)
      requires TreeValid() && InState(Start, c, n, p, r)
      ensures InState(GetNode, root, None, None, r)
    {
      hide TreeOk, Represents, In;
      RootCovers(nodes, bounds, root, target);
    }

    lemma Arrives(c: Addr, n: Option<Addr>, p: Option<Addr>, r: multiset<Addr>)
      requires InState(GetNode, c, n, p, r)
      ensures InState(GetIndexComplete, c, n, Some(c), r + multiset{c})
    {
    }

    /** The state after a page has arrived: only now is the parent released. */
    method IndexComplete()
      requires Valid() && state == GetIndexComplete
      modifies this`state, this`childAddr, this`node, this`page, this`refs
      ensures Valid() && (state == GetNode || state == GetLeafComplete)
      ensures state == GetNode ==>
        && node == Some(old(childAddr)) && childAddr in nodes && old(childAddr) in nodes
        && Height(nodes[childAddr]) + 1 == Height(nodes[old(childAddr)])
      ensures state == GetLeafComplete ==> childAddr == old(childAddr)
    {
      hide TreeValid, In, Height;
      if node.Some? {
        refs := refs - multiset{node.value};
      }
      node, page := Some(childAddr), None;
      LeafOrIndex(childAddr);
      if Height(nodes[childAddr]) == 0 {
        state := GetLeafComplete;
      } else {
        childAddr := NextChild(childAddr);
        state := GetNode;
      }
    }

    lemma LeafOrIndex(a: Addr)
      requires TreeValid() && a in nodes
      ensures Height(nodes[a]) == 0 <==> nodes[a].Leaf?
    {
      hide Represents, In;
      OkAt(nodes, bounds, a);
    }

    /** The child of index a on the way to the target. */
    method NextChild(a: Addr) returns (c: Addr)
      requires TreeValid() && a in nodes && nodes[a].Index? && a in bounds && In(bounds[a], target)
      ensures c in nodes && c in bounds && In(bounds[c], target) && c in nodes[a].children
      ensures Height(nodes[c]) + 1 == Height(nodes[a])
    {
      hide TreeOk, Represents, In, NodeOk;
      NodeAt(nodes, bounds, root, a);
      PivotsIncrease(nodes, bounds, a);
      var idx, _ := FindPivot(nodes[a].pivots, target);
      var childIdx := if idx < 0 then 0 else idx;
      ChildCovers(nodes, bounds, a, childIdx, target);
      c := nodes[a].children[childIdx];
    }

    /** The last state: the leaf is searched, and given back if it has nothing to read. */
    method LeafComplete() returns (found: Option<Message>)
      requires Valid() && state == GetLeafComplete
      modifies this`refs
      ensures found == Get(contents, target)
      ensures refs == if found.Some? then multiset{childAddr} else multiset{}
    {
      hide TreeOk, Represents, In;
      found := None;
      LeafHolds(nodes, bounds, root, contents, childAddr, target);
      var idx, isFound := FindTuple(nodes[childAddr].entries, target);
      if isFound {
        found := Some(nodes[childAddr].entries[idx].msg);
      } else {
        refs := refs - multiset{childAddr};
      }
    }
  }

  lemma OneMore(answers: nat -> CacheResult, from: nat, end: nat)
    requires AllSuccess(answers, from, end)
    ensures from <= end && (answers(end) == Success ==> AllSuccess(answers, from, end + 1))
  {
  }

  lemma NoneYet(answers: nat -> CacheResult, from: nat)
    ensures AllSuccess(answers, from, from)
  {
  }

  lemma NodeAt(nodes: Nodes, bounds: map<Addr, Bounds>, root: Addr, a: Addr)
    requires TreeOk(nodes, bounds, root) && a in nodes
    ensures NodeOk(nodes, bounds, a) && (Height(nodes[a]) == 0 <==> nodes[a].Leaf?)
  {
    OkAt(nodes, bounds, a);
  }

  /**
    The whole lookup, resumed up to `attempts` times, against `btree_lookup`: it is done exactly
    when there were fewer obstacles than that.
   */
  method Run(nodes: Nodes, root: Addr, target: Key, ghost bounds: map<Addr, Bounds>, ghost contents: map<Key, Message>,
      answers: nat -> CacheResult, attempts: nat)
    returns (done: bool, found: Option<Message>, refs: multiset<Addr>, asked: nat)
    requires TreeOk(nodes, bounds, root) && Represents(nodes, bounds, contents)
    ensures done <==> Obstacles(answers, asked) < attempts
    ensures done ==> found == Get(contents, target)
    ensures done ==> |refs| == if found.Some? then 1 else 0
  {
    hide TreeOk, Represents;
    var request := new Request(nodes, root, target, bounds, contents, answers);
    done, found, refs, asked := false, None, multiset{}, 0;
    for i := 0 to attempts
      invariant fresh(request) && request.Valid() && request.contents == contents && request.target == target
      invariant request.answers == answers && request.asked == asked && Obstacles(answers, asked) == i
    {
      var res, answer := request.Resume();
      NoObstacles(answers, asked, if res == Success then request.asked else request.asked - 1);
      asked := request.asked;
      if res == Success {
        return true, answer, request.refs, asked;
      }
      if res == IoStarted {
        request.Callback();
      }
    }
  }
}
