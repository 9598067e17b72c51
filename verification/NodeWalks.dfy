/** `BaseGraphNodeModel.subtree` and `path_to_root`: walks over `parent_id` links. */
module NodeWalks {
  import opened Options
  import opened Cte

  type Id = int

  datatype Row = Row(parentId: Option<Id>, depth: int, name: string)

  /** The place of a name in the database's collation. */
  type Collation = string -> int
  datatype Node = Node(id: Id, row: Row)

  type Table = map<Id, Row>

  // ---------- subtree ----------

  /** Is the search continued below `p`? Always below the start itself. */
  predicate Expands(t: Table, self: Node, maxDepth: Option<int>, p: Id) {
    p == self.id || maxDepth.None? || (p in t && t[p].depth < self.row.depth + maxDepth.value)
  }

  /** `v` is first met `k` links below `self`, through nodes that are expanded. */
  ghost predicate At(t: Table, self: Node, maxDepth: Option<int>, v: Id, k: nat)
    decreases k
  {
    if k == 0 then v == self.id
    else
      && v != self.id && v in t && t[v].parentId.Some?
      && Expands(t, self, maxDepth, t[v].parentId.value)
      && At(t, self, maxDepth, t[v].parentId.value, k - 1)
  }

  ghost predicate Met(t: Table, self: Node, maxDepth: Option<int>, v: Id) {
    exists k: nat :: At(t, self, maxDepth, v, k)
  }

  /** `k` child links lead from `self` down to `v`, possibly through `self` again. */
  ghost predicate Linked(t: Table, self: Node, v: Id, k: nat)
    decreases k
  {
    if k == 0 then v == self.id
    else v in t && t[v].parentId.Some? && Linked(t, self, t[v].parentId.value, k - 1)
  }

  lemma {:induction false} AtUnique(t: Table, self: Node, maxDepth: Option<int>, v: Id, j: nat, k: nat)
    requires At(t, self, maxDepth, v, j) && At(t, self, maxDepth, v, k)
    ensures j == k
    decreases j
  {
    if j > 0 && k > 0 {
      AtUnique(t, self, maxDepth, t[v].parentId.value, j - 1, k - 1);
    }
  }

  /** `k` is the least number of child links from `self` to `v`. */
  ghost predicate Shortest(t: Table, self: Node, v: Id, k: nat) {
    Linked(t, self, v, k) && forall j: nat :: Linked(t, self, v, j) ==> k <= j
  }

  /** Without a depth limit the place of a node is its shortest link distance. */
  lemma {:induction false} AtIsShortest(t: Table, self: Node, v: Id, k: nat)
    ensures At(t, self, None, v, k) <==> Shortest(t, self, v, k)
    decreases k
  {
    assert Linked(t, self, v, 0) <==> v == self.id;
    if k > 0 && v in t && t[v].parentId.Some? {
      var p := t[v].parentId.value;
      AtIsShortest(t, self, p, k - 1);
      if At(t, self, None, v, k) {
        forall j: nat | Linked(t, self, v, j) ensures k <= j {
          assert j > 0 && Linked(t, self, p, j - 1);
        }
      }
      if Shortest(t, self, v, k) {
        forall j: nat | Linked(t, self, p, j) ensures k - 1 <= j {
          assert Linked(t, self, v, j + 1);
        }
      }
    }
  }

  /** Every child of `self`, and every child of a stored node, is one deeper. */
  ghost predicate DepthsFit(t: Table, self: Node) {
    forall v :: v in t && v != self.id && t[v].parentId.Some? ==>
      var p := t[v].parentId.value;
      && (p == self.id ==> t[v].depth == self.row.depth + 1)
      && (p != self.id && p in t ==> t[v].depth == t[p].depth + 1)
  }

  lemma {:induction false} DepthOfPlace(t: Table, self: Node, maxDepth: Option<int>, v: Id, k: nat)
    requires DepthsFit(t, self) && At(t, self, maxDepth, v, k) && k > 0
    ensures t[v].depth == self.row.depth + k
    decreases k
  {
    var p := t[v].parentId.value;
    if k > 1 {
      DepthOfPlace(t, self, maxDepth, p, k - 1);
    }
  }

  /** With fitting depths a limit `m` keeps exactly what lies within max(1, m) links. */
  lemma {:induction false} LimitIsDistance(t: Table, self: Node, m: int, v: Id, k: nat)
    requires DepthsFit(t, self)
    ensures At(t, self, Some(m), v, k) <==> At(t, self, None, v, k) && k <= (if m < 1 then 1 else m)
    decreases k
  {
    if k > 0 && v in t && t[v].parentId.Some? {
      var p := t[v].parentId.value;
      LimitIsDistance(t, self, m, p, k - 1);
      if k > 1 && At(t, self, None, p, k - 1) {
        DepthOfPlace(t, self, None, p, k - 1);
      }
    }
  }

  /** What a caller would expect of the limit: the nodes within `m` links and no others. */
  ghost predicate LimitHonoured(t: Table, self: Node, m: int) {
    forall v, k: nat :: At(t, self, Some(m), v, k) <==> At(t, self, None, v, k) && k <= m
  }

  /** A child of `v` that is not the start of the search. */
  ghost predicate HasOtherChild(t: Table, self: Node, v: Id) {
    exists c :: c in t && c != self.id && t[c].parentId == Some(v)
  }

  /**
   The depth column decides as the links would: a node with children within `m` links is
   shallower than the bound iff its children are still within `m` links.
   */
  ghost predicate DepthsDecide(t: Table, self: Node, m: int) {
    forall v, k: nat :: At(t, self, None, v, k) && 1 <= k <= m && HasOtherChild(t, self, v) ==>
      (v in t && (t[v].depth < self.row.depth + m <==> k < m))
  }

  lemma StoredBelow(t: Table, self: Node, maxDepth: Option<int>, v: Id, k: nat)
    requires At(t, self, maxDepth, v, k) && k > 0
    ensures v in t && v != self.id && t[v].parentId.Some? && HasOtherChild(t, self, t[v].parentId.value)
    ensures Expands(t, self, maxDepth, t[v].parentId.value) && At(t, self, maxDepth, t[v].parentId.value, k - 1)
  {
  }

  lemma {:induction false} DecidedLimit(t: Table, self: Node, m: int, v: Id, k: nat)
    requires m >= 1 && DepthsDecide(t, self, m)
    ensures At(t, self, Some(m), v, k) <==> At(t, self, None, v, k) && k <= m
    decreases k
  {
    if k > 0 && v in t && v != self.id && t[v].parentId.Some? {
      var p := t[v].parentId.value;
      DecidedLimit(t, self, m, p, k - 1);
      assert HasOtherChild(t, self, p);
      if p != self.id && At(t, self, None, p, k - 1) && k - 1 <= m {
        assert 1 <= k - 1;
        assert Expands(t, self, Some(m), p) <==> k - 1 < m;
      }
    }
  }

  lemma HonouredDecides(t: Table, self: Node, m: int, v: Id, k: nat)
    requires m >= 1 && LimitHonoured(t, self, m)
    requires At(t, self, None, v, k) && 1 <= k <= m && HasOtherChild(t, self, v)
    ensures v in t && (t[v].depth < self.row.depth + m <==> k < m)
  {
    var c :| c in t && c != self.id && t[c].parentId == Some(v);
    StoredBelow(t, self, None, v, k);
    assert At(t, self, Some(m), v, k);
    assert At(t, self, None, c, k + 1);
    assert At(t, self, Some(m), c, k + 1) <==> Expands(t, self, Some(m), v);
  }

  lemma {:induction false} BelowMeansChild(t: Table, self: Node, maxDepth: Option<int>, v: Id, k: nat)
    requires At(t, self, maxDepth, v, k) && k > 0
    ensures HasOtherChild(t, self, self.id)
    decreases k
  {
    StoredBelow(t, self, maxDepth, v, k);
    if k > 1 {
      BelowMeansChild(t, self, maxDepth, t[v].parentId.value, k - 1);
    }
  }

  /**
   On any table: a limit of at least 1 is honoured iff the depth column decides as the links
   would; a limit of 0 iff there are no children; a negative one never.
   */
  lemma LimitHonouredIff(t: Table, self: Node, m: int)
    ensures LimitHonoured(t, self, m) <==>
      if m >= 1 then DepthsDecide(t, self, m) else m == 0 && !HasOtherChild(t, self, self.id)
  {
    assert At(t, self, None, self.id, 0) && At(t, self, Some(m), self.id, 0);
    if m >= 1 {
      if DepthsDecide(t, self, m) {
        forall v, k: nat ensures At(t, self, Some(m), v, k) <==> At(t, self, None, v, k) && k <= m {
          DecidedLimit(t, self, m, v, k);
        }
      }
      if LimitHonoured(t, self, m) {
        forall v, k: nat | At(t, self, None, v, k) && 1 <= k <= m && HasOtherChild(t, self, v)
          ensures v in t && (t[v].depth < self.row.depth + m <==> k < m)
        {
          HonouredDecides(t, self, m, v, k);
        }
      }
    } else if m == 0 {
      if HasOtherChild(t, self, self.id) {
        var c :| c in t && c != self.id && t[c].parentId == Some(self.id);
        assert At(t, self, Some(0), c, 1);
      } else {
        forall v, k: nat ensures At(t, self, Some(0), v, k) <==> At(t, self, None, v, k) && k <= 0 {
          if k > 0 && At(t, self, Some(0), v, k) {
            BelowMeansChild(t, self, Some(0), v, k);
          }
        }
      }
    }
  }

  /** Depths that follow the links decide as they do. */
  lemma FittingDepthsDecide(t: Table, self: Node, m: int)
    requires DepthsFit(t, self)
    ensures DepthsDecide(t, self, m)
  {
    forall v, k: nat | At(t, self, None, v, k) && 1 <= k <= m
      ensures v in t && (t[v].depth < self.row.depth + m <==> k < m)
    {
      DepthOfPlace(t, self, None, v, k);
    }
  }

  /** A chain of three nodes created with the default depth. */
  function FlatChain(name: string): Table {
    map[1 := Row(None, 0, name), 2 := Row(Some(1), 0, name), 3 := Row(Some(2), 0, name)]
  }

  /** `subtree(max_depth=1)` on the first of them returns the third, two links away. */
  lemma DefaultDepthsBreakLimit(name: string)
    ensures var t := FlatChain(name); var self := Node(1, t[1]);
      At(t, self, Some(1), 3, 2) && !LimitHonoured(t, self, 1)
  {
    var t := FlatChain(name);
    var self := Node(1, t[1]);
    assert At(t, self, Some(1), 1, 0);
    assert At(t, self, Some(1), 2, 1);
    assert At(t, self, Some(1), 3, 2);
  }

  ghost predicate NearestFirst(t: Table, self: Node, maxDepth: Option<int>, result: seq<Id>) {
    forall i, j, a: nat, b: nat ::
      (0 <= i < j < |result| && At(t, self, maxDepth, result[i], a) && At(t, self, maxDepth, result[j], b) ==> a <= b)
  }

  /** The state of the breadth-first loop between two nodes taken from the queue. */
  ghost predicate Searching(t: Table, self: Node, maxDepth: Option<int>, result: seq<Id>, queue: seq<Id>,
                            visited: set<Id>, place: map<Id, nat>)
  {
    && Distinct(result)
    && (forall i :: 0 <= i < |result| ==> result[i] in visited)
    && (forall v :: v in visited ==> v in result)
    && place.Keys == visited && self.id in visited
    && (forall v :: v in visited ==> At(t, self, maxDepth, v, place[v]))
    && (forall i, j :: 0 <= i < j < |result| ==> place[result[i]] <= place[result[j]])
    && (forall i :: 0 <= i < |queue| ==> queue[i] in visited && Expands(t, self, maxDepth, queue[i]))
    && (forall i, j :: 0 <= i < j < |queue| ==> place[queue[i]] <= place[queue[j]])
    && (forall v :: v in visited && queue != [] ==> place[v] <= place[queue[0]] + 1)
  }

  ghost predicate ChildrenSeen(t: Table, visited: set<Id>, v: Id) {
    forall c :: c in t && t[c].parentId == Some(v) ==> c in visited
  }

  /** A visited node to be expanded is still queued, or all its children have been seen. */
  ghost predicate Frontier(t: Table, self: Node, maxDepth: Option<int>, visited: set<Id>, queue: seq<Id>) {
    forall v :: v in visited && Expands(t, self, maxDepth, v) ==> v in queue || ChildrenSeen(t, visited, v)
  }

  /** Children of one node are listed by name. */
  ghost predicate SiblingsByName(t: Table, self: Node, collate: Collation, result: seq<Id>) {
    forall i, j :: 0 <= i < j < |result| && AreSiblings(t, self, result[i], result[j]) ==>
      collate(t[result[i]].name) <= collate(t[result[j]].name)
  }

  predicate AreSiblings(t: Table, self: Node, a: Id, b: Id) {
    a in t && b in t && a != self.id && b != self.id && t[a].parentId == t[b].parentId
  }

  /** Nodes are visited after their parents, and no child of a queued node has been visited. */
  ghost predicate InOrder(t: Table, self: Node, collate: Collation, result: seq<Id>, queue: seq<Id>, visited: set<Id>) {
    && SiblingsByName(t, self, collate, result)
    && (forall i :: 0 <= i < |result| ==> result[i] in visited)
    && Distinct(queue)
    && (forall v :: v in visited && v != self.id ==> v in t && t[v].parentId.Some? && t[v].parentId.value in visited)
    && (forall v :: v in visited && v != self.id && v in t && t[v].parentId.Some? ==> t[v].parentId.value !in queue)
  }

  /** `children().all()`: the rows that name `p` as their parent, by name. */
  method ChildrenOf(t: Table, p: Id, collate: Collation) returns (children: seq<Id>)
    ensures Distinct(children)
    ensures forall c :: c in children <==> c in t && t[c].parentId == Some(p)
    ensures forall i, j :: 0 <= i < j < |children| && children[i] in t && children[j] in t ==>
      collate(t[children[i]].name) <= collate(t[children[j]].name)
  {
    var rows := set c | c in t && t[c].parentId == Some(p);
    var key := (c: Id) => if c in t then collate(t[c].name) else 0;
    children := OrderByLimit(rows, key, None);
    UnlimitedReturnsAll(rows, key, children);
    forall i, j | 0 <= i < j < |children| && children[i] in t && children[j] in t
      ensures collate(t[children[i]].name) <= collate(t[children[j]].name)
    {
      assert key(children[i]) <= key(children[j]);
    }
  }

  /** The next child of `current` is listed behind its siblings and may be queued. */
  lemma DiscoverKeepsOrder(t: Table, self: Node, collate: Collation, current: Id, result: seq<Id>, queue: seq<Id>,
                           visited: set<Id>, child: Id)
    requires InOrder(t, self, collate, result, queue, visited) && current in visited && current !in queue
    requires self.id in visited && child in t && t[child].parentId == Some(current) && child !in visited
    requires forall q :: q in queue ==> q in visited
    requires forall v :: v in visited && v != self.id && v in t && t[v].parentId == Some(current) ==>
      collate(t[v].name) <= collate(t[child].name)
    ensures InOrder(t, self, collate, result + [child], queue, visited + {child})
    ensures InOrder(t, self, collate, result + [child], queue + [child], visited + {child})
    ensures current !in queue + [child]
  {
    var result' := result + [child];
    forall i, j | 0 <= i < j < |result'| && AreSiblings(t, self, result'[i], result'[j])
      ensures collate(t[result'[i]].name) <= collate(t[result'[j]].name)
    {
      assert result'[i] == result[i] && result[i] in visited;
    }
  }

  /** A child of the node at the head of the queue joins the result, one link further. */
  lemma DiscoverKeepsSearching(t: Table, self: Node, maxDepth: Option<int>, result: seq<Id>, queue: seq<Id>,
                               visited: set<Id>, place: map<Id, nat>, child: Id)
    requires Searching(t, self, maxDepth, result, queue, visited, place) && queue != []
    requires child in t && t[child].parentId == Some(queue[0]) && child !in visited
    ensures Searching(t, self, maxDepth, result + [child], queue, visited + {child},
        place[child := place[queue[0]] + 1])
  {
    var place' := place[child := place[queue[0]] + 1];
    assert queue[0] in visited && At(t, self, maxDepth, queue[0], place[queue[0]]);
    assert At(t, self, maxDepth, child, place'[child]);
    forall i | 0 <= i < |result|
      ensures result[i] in visited && result[i] != child && place[result[i]] <= place[queue[0]] + 1
    {
    }
    var result' := result + [child];
    forall i, j | 0 <= i < j < |result'|
      ensures result'[i] in place' && result'[j] in place' && place'[result'[i]] <= place'[result'[j]]
    {
      assert result'[i] == result[i];
    }
  }

  /** The child is queued itself if it is to be expanded, so the frontier stays complete. */
  lemma FrontierGrows(t: Table, self: Node, maxDepth: Option<int>, visited: set<Id>, queue: seq<Id>, queue': seq<Id>,
                      child: Id)
    requires Frontier(t, self, maxDepth, visited, queue)
    requires forall q :: q in queue ==> q in queue'
    requires Expands(t, self, maxDepth, child) ==> child in queue'
    ensures Frontier(t, self, maxDepth, visited + {child}, queue')
  {
    forall v | v in visited + {child} && Expands(t, self, maxDepth, v) && v !in queue'
      ensures ChildrenSeen(t, visited + {child}, v)
    {
      assert ChildrenSeen(t, visited, v);
    }
  }

  /** One unseen child: result, queue and frontier stay in order. */
  lemma VisitOne(t: Table, self: Node, maxDepth: Option<int>, current: Id, result: seq<Id>, queue: seq<Id>,
                 visited: set<Id>, place: map<Id, nat>, child: Id)
    requires Searching(t, self, maxDepth, result, [current] + queue, visited, place)
    requires Frontier(t, self, maxDepth, visited, [current] + queue)
    requires child in t && t[child].parentId == Some(current) && child !in visited
    ensures current in place
    ensures var queue' := if Expands(t, self, maxDepth, child) then queue + [child] else queue;
      Searching(t, self, maxDepth, result + [child], [current] + queue', visited + {child},
          place[child := place[current] + 1])
      && Frontier(t, self, maxDepth, visited + {child}, [current] + queue')
  {
    var before := [current] + queue;
    assert before[0] == current;
    var queue' := if Expands(t, self, maxDepth, child) then queue + [child] else queue;
    DiscoverKeepsSearching(t, self, maxDepth, result, before, visited, place, child);
    assert Frontier(t, self, maxDepth, visited + {child}, [current] + queue') by {
      var after := [current] + queue';
      forall q | q in before ensures q in after {
        assert q == current || q in queue;
      }
      FrontierGrows(t, self, maxDepth, visited, before, after, child);
    }
    if Expands(t, self, maxDepth, child) {
      QueueBehind(t, self, maxDepth, current, result + [child], queue, visited + {child},
                  place[child := place[current] + 1], child);
    }
  }

  lemma QueueBehind(t: Table, self: Node, maxDepth: Option<int>, current: Id, result: seq<Id>, queue: seq<Id>,
                    visited: set<Id>, place: map<Id, nat>, child: Id)
    requires Searching(t, self, maxDepth, result, [current] + queue, visited, place) && current in place
    requires child in visited && Expands(t, self, maxDepth, child) && place[child] == place[current] + 1
    ensures Searching(t, self, maxDepth, result, [current] + (queue + [child]), visited, place)
  {
    assert ([current] + queue) + [child] == [current] + (queue + [child]);
  }

  /** Everything the loops keep up; `pending` is the queue, or the queue behind the node being expanded. */
  ghost predicate Exploring(
      t: Table, self: Node, maxDepth: Option<int>, collate: Collation,
      pending: seq<Id>, result: seq<Id>, queue: seq<Id>, visited: set<Id>, place: map<Id, nat>)
  {
    && Searching(t, self, maxDepth, result, pending, visited, place)
    && Frontier(t, self, maxDepth, visited, pending)
    && InOrder(t, self, collate, result, queue, visited)
    && visited <= t.Keys + {self.id} && result != [] && result[0] == self.id
  }

  /** The first `n` children have been visited, and no others. */
  ghost predicate VisitedUpTo(t: Table, self: Node, current: Id, children: seq<Id>, n: nat, queue: seq<Id>,
                              visited: set<Id>)
    requires n <= |children|
  {
    && current !in queue
    && (forall i :: 0 <= i < n ==> children[i] in visited)
    && (forall v :: v in visited && v != self.id && v in t && t[v].parentId == Some(current) ==> v in children[..n])
  }

  ghost predicate IsChildList(t: Table, collate: Collation, current: Id, children: seq<Id>) {
    && (forall c :: c in children <==> c in t && t[c].parentId == Some(current))
    && (forall i, j :: 0 <= i < j < |children| && children[i] in t && children[j] in t ==>
          collate(t[children[i]].name) <= collate(t[children[j]].name))
  }

  /** A new child is listed, and queued if the search goes on below it. */
  lemma TakeChild(t: Table, self: Node, maxDepth: Option<int>, collate: Collation, current: Id, children: seq<Id>,
                  n: nat, result: seq<Id>, queue: seq<Id>, visited: set<Id>, place: map<Id, nat>)
    requires Exploring(t, self, maxDepth, collate, [current] + queue, result, queue, visited, place)
    requires IsChildList(t, collate, current, children) && n < |children| && children[n] !in visited
    requires VisitedUpTo(t, self, current, children, n, queue, visited)
    ensures current in place
    ensures var child := children[n];
      var queue' := if Expands(t, self, maxDepth, child) then queue + [child] else queue;
      && Exploring(t, self, maxDepth, collate, [current] + queue', result + [child], queue', visited + {child},
                   place[child := place[current] + 1])
      && VisitedUpTo(t, self, current, children, n + 1, queue', visited + {child})
  {
    var child := children[n];
    assert child in children;
    assert children[..n + 1] == children[..n] + [child];
    QueuedIsVisited(t, self, maxDepth, current, result, queue, visited, place);
    DiscoverKeepsOrder(t, self, collate, current, result, queue, visited, child);
    VisitOne(t, self, maxDepth, current, result, queue, visited, place, child);
  }

  lemma SkipChild(t: Table, self: Node, current: Id, children: seq<Id>, n: nat, queue: seq<Id>, visited: set<Id>)
    requires n < |children| && children[n] in visited && VisitedUpTo(t, self, current, children, n, queue, visited)
    ensures VisitedUpTo(t, self, current, children, n + 1, queue, visited)
  {
    assert children[..n + 1] == children[..n] + [children[n]];
  }

  /** The inner loop: all children of the node taken from the head of the queue. */
  method VisitChildren(t: Table, self: Node, maxDepth: Option<int>, collate: Collation, current: Id,
                       result: seq<Id>, queue: seq<Id>, visited: set<Id>, ghost place: map<Id, nat>)
    returns (result': seq<Id>, queue': seq<Id>, visited': set<Id>, ghost place': map<Id, nat>)
    requires Exploring(t, self, maxDepth, collate, [current] + queue, result, [current] + queue, visited, place)
    ensures Exploring(t, self, maxDepth, collate, queue', result', queue', visited', place')
    ensures visited <= visited' && (visited' == visited ==> queue' == queue)
  {
    result', queue', visited', place' := result, queue, visited, place;
    StartChildren(t, self, collate, current, result, queue, visited);
    var children := ChildrenOf(t, current, collate);
    assert children[..0] == [];
    var n := 0;
    while n < |children|
      invariant n <= |children|
      invariant Exploring(t, self, maxDepth, collate, [current] + queue', result', queue', visited', place')
      invariant VisitedUpTo(t, self, current, children, n, queue', visited')
      invariant visited <= visited' && (visited' == visited ==> queue' == queue)
    {
      var child := children[n];
      if child !in visited' {
        TakeChild(t, self, maxDepth, collate, current, children, n, result', queue', visited', place');
        result' := result' + [child];
        place' := place'[child := place'[current] + 1];
        var row := t[child];
        if maxDepth.None? || row.depth < self.row.depth + maxDepth.value {
          queue' := queue' + [child];
        }
        visited' := visited' + {child};
      } else {
        SkipChild(t, self, current, children, n, queue', visited');
      }
      n := n + 1;
    }
    PopKeepsSearching(t, self, maxDepth, result', current, queue', visited', place');
  }

  lemma StartChildren(t: Table, self: Node, collate: Collation, current: Id, result: seq<Id>, queue: seq<Id>,
                      visited: set<Id>)
    requires InOrder(t, self, collate, result, [current] + queue, visited)
    ensures InOrder(t, self, collate, result, queue, visited) && current !in queue
    ensures forall v :: v in visited && v != self.id && v in t ==> t[v].parentId != Some(current)
  {
    var whole := [current] + queue;
    assert whole[0] == current && forall i :: 0 <= i < |queue| ==> whole[i + 1] == queue[i];
    assert current in whole;
  }

  lemma QueuedIsVisited(t: Table, self: Node, maxDepth: Option<int>, current: Id, result: seq<Id>, queue: seq<Id>,
                        visited: set<Id>, place: map<Id, nat>)
    requires Searching(t, self, maxDepth, result, [current] + queue, visited, place)
    ensures current in visited && self.id in visited && forall q :: q in queue ==> q in visited
  {
    var whole := [current] + queue;
    assert whole[0] == current;
    forall q | q in queue ensures q in visited {
      var i :| 0 <= i < |queue| && queue[i] == q;
      assert whole[i + 1] == q;
    }
  }

  /**
   Exactly the nodes met below `self` through expanded nodes, each once, in order of their
   distance and siblings by name, on any finite table. The first entry is the instance itself.
   */
  method Subtree(t: Table, self: Node, maxDepth: Option<int>, collate: Collation) returns (result: seq<Id>)
    ensures Distinct(result) && result != [] && result[0] == self.id
    ensures forall v :: v in result <==> Met(t, self, maxDepth, v)
    ensures NearestFirst(t, self, maxDepth, result) && SiblingsByName(t, self, collate, result)
  {
    result := [self.id];
    var queue := [self.id];
    var visited := {self.id};
    ghost var place: map<Id, nat> := map[self.id := 0];
    ghost var all := t.Keys + {self.id};
    StartSearching(t, self, maxDepth, collate);
    while queue != []
      invariant Exploring(t, self, maxDepth, collate, queue, result, queue, visited, place)
      decreases |all - visited|, |queue|
    {
      ghost var seen := visited;
      var current := queue[0];
      assert [current] + queue[1..] == queue;
      result, queue, visited, place :=
        VisitChildren(t, self, maxDepth, collate, current, result, queue[1..], visited, place);
      if visited != seen {
        SmallerSet(all - visited, all - seen);
      }
    }
    SearchIsDone(t, self, maxDepth, result, visited, place);
  }

  /** With the queue empty everything that can be met has been met. */
  lemma SearchIsDone(t: Table, self: Node, maxDepth: Option<int>, result: seq<Id>, visited: set<Id>,
                     place: map<Id, nat>)
    requires Searching(t, self, maxDepth, result, [], visited, place) && Frontier(t, self, maxDepth, visited, [])
    ensures forall v :: v in result <==> Met(t, self, maxDepth, v)
    ensures NearestFirst(t, self, maxDepth, result)
  {
    forall v ensures v in result <==> Met(t, self, maxDepth, v) {
      if v in result {
        var i :| 0 <= i < |result| && result[i] == v;
        assert At(t, self, maxDepth, v, place[v]);
      }
      if k: nat :| At(t, self, maxDepth, v, k) {
        ClosedCovers(t, self, maxDepth, visited, v, k);
      }
    }
    forall i, j, a: nat, b: nat | 0 <= i < j < |result| && At(t, self, maxDepth, result[i], a)
      && At(t, self, maxDepth, result[j], b)
      ensures a <= b
    {
      AtUnique(t, self, maxDepth, result[i], a, place[result[i]]);
      AtUnique(t, self, maxDepth, result[j], b, place[result[j]]);
    }
  }

  lemma SmallerSet(a: set<Id>, b: set<Id>)
    requires a < b
    ensures |a| < |b|
  {
    assert |b - a| == |b| - |a|;
    assert b - a != {};
  }

  lemma StartSearching(t: Table, self: Node, maxDepth: Option<int>, collate: Collation)
    ensures Exploring(t, self, maxDepth, collate, [self.id], [self.id], [self.id], {self.id}, map[self.id := 0])
  {
  }

  lemma PopKeepsSearching(t: Table, self: Node, maxDepth: Option<int>, result: seq<Id>, current: Id, queue: seq<Id>,
                          visited: set<Id>, place: map<Id, nat>)
    requires Searching(t, self, maxDepth, result, [current] + queue, visited, place)
    requires Frontier(t, self, maxDepth, visited, [current] + queue) && ChildrenSeen(t, visited, current)
    ensures Searching(t, self, maxDepth, result, queue, visited, place)
    ensures Frontier(t, self, maxDepth, visited, queue)
  {
    var whole := [current] + queue;
    assert forall i :: 0 <= i < |queue| ==> queue[i] == whole[i + 1];
    if queue != [] {
      assert place[whole[0]] <= place[whole[1]];
    }
  }

  lemma {:induction false} ClosedCovers(t: Table, self: Node, maxDepth: Option<int>, visited: set<Id>, v: Id, k: nat)
    requires self.id in visited
    requires forall u :: u in visited && Expands(t, self, maxDepth, u) ==> ChildrenSeen(t, visited, u)
    requires At(t, self, maxDepth, v, k)
    ensures v in visited
    decreases k
  {
    if k > 0 {
      ClosedCovers(t, self, maxDepth, visited, t[v].parentId.value, k - 1);
      assert ChildrenSeen(t, visited, t[v].parentId.value);
    }
  }

  ghost predicate ReachableDown(t: Table, self: Node, v: Id) {
    exists k: nat :: Linked(t, self, v, k)
  }

  /** Without a limit the result is what child links reach, through any number of links. */
  lemma SubtreeIsReachability(t: Table, self: Node, v: Id)
    ensures Met(t, self, None, v) <==> ReachableDown(t, self, v)
  {
    if Met(t, self, None, v) {
      var k: nat :| At(t, self, None, v, k);
      AtIsShortest(t, self, v, k);
    }
    if ReachableDown(t, self, v) {
      var k: nat :| Linked(t, self, v, k);
      var j := ShortestLink(t, self, v, k);
      AtIsShortest(t, self, v, j);
    }
  }

  lemma {:induction false} ShortestLink(t: Table, self: Node, v: Id, k: nat) returns (j: nat)
    requires Linked(t, self, v, k)
    ensures Shortest(t, self, v, j)
    decreases k
  {
    if i: nat :| i < k && Linked(t, self, v, i) {
      j := ShortestLink(t, self, v, i);
    } else {
      j := k;
    }
  }

  // ---------- path_to_root ----------

  /** The `n`-th ancestor: the instance itself first, then stored rows, while rows exist. */
  function Up(t: Table, self: Node, n: nat): Option<Node> {
    if n == 0 then Some(self)
    else
      match Up(t, self, n - 1)
      case None => None
      case Some(x) =>
        if x.row.parentId.Some? && x.row.parentId.value in t
        then Some(Node(x.row.parentId.value, t[x.row.parentId.value])) else None
  }

  /** The first ancestors are stored under pairwise different ids. */
  ghost predicate IsChain(t: Table, self: Node, path: seq<Node>) {
    && path != []
    && (forall i :: 0 <= i < |path| ==> Up(t, self, i) == Some(path[i]))
    && (forall i, j :: 0 <= i < j < |path| ==> path[i].id != path[j].id)
  }

  /** A chain starts at the instance and goes on to the stored row of each parent, no id twice. */
  lemma ChainIsLinks(t: Table, self: Node, path: seq<Node>)
    ensures IsChain(t, self, path) <==>
      && path != [] && path[0] == self
      && (forall i :: 0 < i < |path| ==>
        path[i - 1].row.parentId == Some(path[i].id) && path[i].id in t && path[i].row == t[path[i].id])
      && (forall i, j :: 0 <= i < j < |path| ==> path[i].id != path[j].id)
  {
    if IsChain(t, self, path) {
      forall i | 0 < i < |path|
        ensures path[i - 1].row.parentId == Some(path[i].id) && path[i].id in t && path[i].row == t[path[i].id]
      {
        assert Up(t, self, i) == Some(path[i]) && Up(t, self, i - 1) == Some(path[i - 1]);
      }
    } else if path != [] && path[0] == self && forall i :: 0 < i < |path| ==>
      path[i - 1].row.parentId == Some(path[i].id) && path[i].id in t && path[i].row == t[path[i].id]
    {
      forall i | 0 <= i < |path| ensures Up(t, self, i) == Some(path[i]) {
        UpAlongLinks(t, self, path, i);
      }
    }
  }

  lemma {:induction false} UpAlongLinks(t: Table, self: Node, path: seq<Node>, i: nat)
    requires i < |path| && path[0] == self
    requires forall k :: 0 < k < |path| ==>
      path[k - 1].row.parentId == Some(path[k].id) && path[k].id in t && path[k].row == t[path[k].id]
    ensures Up(t, self, i) == Some(path[i])
    decreases i
  {
    if i > 0 {
      UpAlongLinks(t, self, path, i - 1);
      assert path[i - 1].row.parentId == Some(path[i].id);
    }
  }

  /** The last node of the chain names a parent that is not stored. */
  ghost predicate Dangles(t: Table, path: seq<Node>)
    requires path != []
  {
    var last := path[|path| - 1];
    last.row.parentId.Some? && last.row.parentId.value !in t
  }

  ghost predicate Has(path: seq<Node>, id: Id) {
    exists i :: 0 <= i < |path| && path[i].id == id
  }

  /** The chain is complete: it ends at a root, or would continue with a node it has. */
  ghost predicate Complete(t: Table, path: seq<Node>)
    requires path != []
  {
    var last := path[|path| - 1];
    last.row.parentId.Some? ==> last.row.parentId.value in t && Has(path, last.row.parentId.value)
  }

  function InsertByDepth(x: Node, sorted: seq<Node>): seq<Node> {
    if sorted == [] then [x]
    else if x.row.depth <= sorted[0].row.depth then [x] + sorted
    else [sorted[0]] + InsertByDepth(x, sorted[1..])
  }

  /** `sorted(path, key=depth)`; nodes of equal depth keep their order. */
  function SortByDepth(path: seq<Node>): seq<Node> {
    if path == [] then [] else InsertByDepth(path[0], SortByDepth(path[1..]))
  }

  function Reversed(path: seq<Node>): seq<Node> {
    if path == [] then [] else Reversed(path[1..]) + [path[0]]
  }

  ghost predicate DepthsAscend(nodes: seq<Node>) {
    forall i, j :: 0 <= i < j < |nodes| ==> nodes[i].row.depth <= nodes[j].row.depth
  }

  /** The nodes of one depth, in the order in which they are listed. */
  function OfDepth(nodes: seq<Node>, d: int): seq<Node> {
    if nodes == [] then []
    else (if nodes[0].row.depth == d then [nodes[0]] else []) + OfDepth(nodes[1..], d)
  }

  /** The same nodes by ascending depth, where those of one depth keep their order. */
  ghost predicate SortedByDepth(sorted: seq<Node>, nodes: seq<Node>) {
    && multiset(sorted) == multiset(nodes) && DepthsAscend(sorted)
    && forall d :: OfDepth(sorted, d) == OfDepth(nodes, d)
  }

  /** The result for a chain: stably sorted, and equal to what inserting one by one computes. */
  ghost predicate IsResult(r: seq<Node>, path: seq<Node>) {
    SortedByDepth(r, path) && r == SortByDepth(path)
  }

  ghost predicate Awaits(path: seq<Node>, parent: Id)
    requires path != []
  {
    path[|path| - 1].row.parentId == Some(parent)
  }

  lemma {:induction false} InsertMembers(x: Node, sorted: seq<Node>)
    ensures multiset(InsertByDepth(x, sorted)) == multiset{x} + multiset(sorted)
    decreases |sorted|
  {
    if sorted != [] && x.row.depth > sorted[0].row.depth {
      InsertMembers(x, sorted[1..]);
      assert sorted == [sorted[0]] + sorted[1..];
    }
  }

  lemma {:induction false} InsertAscends(x: Node, sorted: seq<Node>)
    requires DepthsAscend(sorted)
    ensures DepthsAscend(InsertByDepth(x, sorted))
    decreases |sorted|
  {
    if sorted != [] && x.row.depth > sorted[0].row.depth {
      InsertAscends(x, sorted[1..]);
      InsertMembers(x, sorted[1..]);
      InFrontOf(sorted[0], x, sorted[1..], InsertByDepth(x, sorted[1..]));
    }
  }

  lemma InFrontOf(first: Node, x: Node, rest: seq<Node>, inserted: seq<Node>)
    requires DepthsAscend(inserted) && multiset(inserted) == multiset{x} + multiset(rest)
    requires first.row.depth <= x.row.depth && forall n :: n in rest ==> first.row.depth <= n.row.depth
    ensures DepthsAscend([first] + inserted)
  {
    forall n | n in inserted ensures first.row.depth <= n.row.depth {
      assert n in multiset(inserted);
    }
  }

  lemma OfDepthCons(x: Node, nodes: seq<Node>, d: int)
    ensures OfDepth([x] + nodes, d) == (if x.row.depth == d then [x] else []) + OfDepth(nodes, d)
  {
    assert ([x] + nodes)[1..] == nodes;
  }

  lemma {:induction false} InsertKeepsOrder(x: Node, sorted: seq<Node>, d: int)
    ensures OfDepth(InsertByDepth(x, sorted), d) == (if x.row.depth == d then [x] else []) + OfDepth(sorted, d)
    decreases |sorted|
  {
    if sorted == [] || x.row.depth <= sorted[0].row.depth {
      OfDepthCons(x, sorted, d);
      assert [x] + [] == [x];
    } else {
      var y, rest := sorted[0], sorted[1..];
      assert sorted == [y] + rest;
      InsertKeepsOrder(x, rest, d);
      OfDepthCons(y, InsertByDepth(x, rest), d);
      OfDepthCons(y, rest, d);
    }
  }

  /** The sort is a stable sort by depth. */
  lemma {:induction false} SortIsStable(nodes: seq<Node>)
    ensures SortedByDepth(SortByDepth(nodes), nodes)
    decreases |nodes|
  {
    if nodes != [] {
      var rest := nodes[1..];
      assert nodes == [nodes[0]] + rest;
      SortIsStable(rest);
      InsertMembers(nodes[0], SortByDepth(rest));
      InsertAscends(nodes[0], SortByDepth(rest));
      forall d ensures OfDepth(SortByDepth(nodes), d) == OfDepth(nodes, d) {
        InsertKeepsOrder(nodes[0], SortByDepth(rest), d);
      }
    }
  }

  /**
   Ends on every table. It fails iff the chain of pairwise different ancestors runs into
   a parent that is not stored, and names that parent; otherwise it returns the complete
   chain, stably sorted by depth.
   */
  method PathToRoot(t: Table, self: Node) returns (r: Result<seq<Node>, Id>)
    ensures r.Err? <==> exists path :: IsChain(t, self, path) && Dangles(t, path)
    ensures r.Err? ==> exists path :: IsChain(t, self, path) && Dangles(t, path) && Awaits(path, r.error)
    ensures r.Ok? ==> exists path :: IsChain(t, self, path) && Complete(t, path) && IsResult(r.value, path)
  {
    var path: seq<Node> := [];
    var visited: set<Id> := {};
    var current := self;
    ghost var all := t.Keys + {self.id};
    while true
      invariant Up(t, self, |path|) == Some(current) && current.id in all
      invariant forall v :: v in visited <==> Has(path, v)
      invariant path != [] ==>
        IsChain(t, self, path) && path[|path| - 1].row.parentId == Some(current.id) && current.id in t
      invariant visited <= all
      decreases |all - visited|
    {
      if current.id in visited {
        break;
      }
      ExtendChain(t, self, path, current);
      assert forall v :: Has(path + [current], v) <==> Has(path, v) || v == current.id by { HasExtend(path, current); }
      visited := visited + {current.id};
      path := path + [current];
      if current.row.parentId.None? {
        break;
      }
      var parent := current.row.parentId.value;
      if parent !in t {
        assert Dangles(t, path) && Awaits(path, parent);
        return Err(parent);
      }
      current := Node(parent, t[parent]);
    }
    forall other | IsChain(t, self, other) ensures !Dangles(t, other) {
      CompleteNeverDangles(t, self, path, other);
    }
    r := Ok(SortByDepth(path));
    assert IsResult(r.value, path) by { SortIsStable(path); }
  }

  lemma HasExtend(path: seq<Node>, x: Node)
    ensures forall v :: Has(path + [x], v) <==> Has(path, v) || v == x.id
  {
    forall v ensures Has(path + [x], v) <==> Has(path, v) || v == x.id {
      if i :| 0 <= i < |path| && path[i].id == v {
        assert (path + [x])[i].id == v;
      }
      assert (path + [x])[|path|].id == x.id;
    }
  }

  lemma ExtendChain(t: Table, self: Node, path: seq<Node>, next: Node)
    requires path == [] || IsChain(t, self, path)
    requires Up(t, self, |path|) == Some(next) && forall i :: 0 <= i < |path| ==> path[i].id != next.id
    ensures IsChain(t, self, path + [next])
  {
  }

  /** Two chains share their nodes as far as the shorter one goes. */
  lemma ChainsAgree(t: Table, self: Node, a: seq<Node>, b: seq<Node>, i: nat)
    requires IsChain(t, self, a) && IsChain(t, self, b) && i < |a| && i < |b|
    ensures a[i] == b[i]
  {
    assert Up(t, self, i) == Some(a[i]) && Up(t, self, i) == Some(b[i]);
  }

  lemma LongerMeansIncomplete(t: Table, self: Node, path: seq<Node>, other: seq<Node>)
    requires IsChain(t, self, path) && IsChain(t, self, other) && |other| > |path|
    ensures !Complete(t, path)
  {
    var n := |path|;
    assert Up(t, self, n) == Some(other[n]) && Up(t, self, n - 1) == Some(path[n - 1]);
    assert path[n - 1].row.parentId == Some(other[n].id);
    forall i | 0 <= i < n ensures path[i].id != other[n].id {
      ChainsAgree(t, self, path, other, i);
    }
  }

  /** A complete chain is the longest, and where it goes on no other chain dangles. */
  lemma CompleteNeverDangles(t: Table, self: Node, path: seq<Node>, other: seq<Node>)
    requires IsChain(t, self, path) && Complete(t, path) && IsChain(t, self, other)
    ensures !Dangles(t, other)
  {
    if |other| > |path| {
      LongerMeansIncomplete(t, self, path, other);
    }
    var m := |other|;
    ChainsAgree(t, self, path, other, m - 1);
    if m < |path| {
      assert Up(t, self, m) == Some(path[m]) && Up(t, self, m - 1) == Some(other[m - 1]);
    }
  }

  ghost predicate DepthsDescend(path: seq<Node>) {
    forall i, j :: 0 <= i < j < |path| ==> path[j].row.depth < path[i].row.depth
  }

  lemma {:induction false} InsertLast(x: Node, sorted: seq<Node>)
    requires forall i :: 0 <= i < |sorted| ==> sorted[i].row.depth < x.row.depth
    ensures InsertByDepth(x, sorted) == sorted + [x]
    decreases |sorted|
  {
    if sorted != [] {
      InsertLast(x, sorted[1..]);
    }
  }

  lemma {:induction false} ReversedMembers(path: seq<Node>, x: Node)
    ensures x in Reversed(path) <==> x in path
    decreases |path|
  {
    if path != [] {
      ReversedMembers(path[1..], x);
      assert path == [path[0]] + path[1..];
    }
  }

  /** Where depths descend along the parent links, the result is the reversed chain, root first. */
  lemma {:induction false} SortIsReverse(path: seq<Node>)
    requires DepthsDescend(path)
    ensures SortByDepth(path) == Reversed(path)
    decreases |path|
  {
    if path != [] {
      var rest := path[1..];
      SortIsReverse(rest);
      forall i | 0 <= i < |Reversed(rest)| ensures Reversed(rest)[i].row.depth < path[0].row.depth {
        ReversedMembers(rest, Reversed(rest)[i]);
        var k :| 0 <= k < |rest| && rest[k] == Reversed(rest)[i];
        assert path[k + 1] == rest[k];
      }
      InsertLast(path[0], Reversed(rest));
    }
  }

  /** A node is inserted last only if it is deeper than all the others. */
  lemma {:induction false} InsertedLast(x: Node, sorted: seq<Node>)
    requires x !in sorted
    ensures |InsertByDepth(x, sorted)| == |sorted| + 1
    ensures InsertByDepth(x, sorted)[|sorted|] == x ==>
      InsertByDepth(x, sorted) == sorted + [x] && forall n :: n in sorted ==> n.row.depth < x.row.depth
    decreases |sorted|
  {
    if sorted != [] {
      if x.row.depth <= sorted[0].row.depth {
        assert InsertByDepth(x, sorted)[|sorted|] == sorted[|sorted| - 1];
      } else {
        InsertedLast(x, sorted[1..]);
        assert InsertByDepth(x, sorted)[|sorted|] == InsertByDepth(x, sorted[1..])[|sorted| - 1];
        assert sorted == [sorted[0]] + sorted[1..];
      }
    }
  }

  lemma {:induction false} SortMembers(path: seq<Node>)
    ensures forall n :: n in SortByDepth(path) <==> n in path
  {
    SortIsStable(path);
    forall n ensures n in SortByDepth(path) <==> n in path {
      assert n in multiset(SortByDepth(path)) <==> n in multiset(path);
    }
  }

  /** Different nodes are sorted into the reversed chain iff depths descend strictly along it. */
  lemma {:induction false} SortIsReverseIff(path: seq<Node>)
    requires forall i, j :: 0 <= i < j < |path| ==> path[i] != path[j]
    ensures SortByDepth(path) == Reversed(path) <==> DepthsDescend(path)
    decreases |path|
  {
    if DepthsDescend(path) {
      SortIsReverse(path);
    }
    if path != [] && SortByDepth(path) == Reversed(path) {
      var x, rest := path[0], path[1..];
      SortMembers(rest);
      assert x !in rest;
      InsertedLast(x, SortByDepth(rest));
      assert (Reversed(rest) + [x])[|Reversed(rest)|] == x;
      assert SortByDepth(rest) == SortByDepth(path)[..|SortByDepth(rest)|] == Reversed(rest);
      SortIsReverseIff(rest);
      forall i, j | 0 <= i < j < |path| ensures path[j].row.depth < path[i].row.depth {
        assert path[j] == rest[j - 1] && path[j] in rest;
        if i > 0 {
          assert path[i] == rest[i - 1];
        }
      }
    }
  }

  /** The result of `path_to_root` runs from the root down iff depths descend along the parents. */
  lemma RootFirstIffDepthsDescend(t: Table, self: Node, path: seq<Node>)
    requires IsChain(t, self, path)
    ensures SortByDepth(path) == Reversed(path) <==> DepthsDescend(path)
  {
    SortIsReverseIff(path);
  }

  /** Every stored node is one deeper than its stored parent. */
  ghost predicate DepthsFollowParents(t: Table) {
    forall v :: v in t && t[v].parentId.Some? && t[v].parentId.value in t ==>
      t[v].depth == t[t[v].parentId.value].depth + 1
  }

  lemma {:induction false} ChainDescends(t: Table, self: Node, path: seq<Node>, i: nat, j: nat)
    requires DepthsFollowParents(t) && self.id in t && t[self.id] == self.row
    requires IsChain(t, self, path) && i < j < |path|
    ensures path[j].row.depth < path[i].row.depth
    decreases j
  {
    assert Up(t, self, j) == Some(path[j]) && Up(t, self, j - 1) == Some(path[j - 1]);
    StoredOnTheWay(t, self, j - 1);
    if i < j - 1 {
      ChainDescends(t, self, path, i, j - 1);
    }
  }

  lemma {:induction false} StoredOnTheWay(t: Table, self: Node, n: nat)
    requires self.id in t && t[self.id] == self.row
    ensures Up(t, self, n).Some? ==>
      Up(t, self, n).value.id in t && t[Up(t, self, n).value.id] == Up(t, self, n).value.row
    decreases n
  {
    if n > 0 {
      StoredOnTheWay(t, self, n - 1);
    }
  }

  /** For a stored node of a table with consistent depths: root first, down to the node. */
  lemma PathToRootIsReversedChain(t: Table, self: Node, path: seq<Node>)
    requires DepthsFollowParents(t) && self.id in t && t[self.id] == self.row && IsChain(t, self, path)
    ensures SortByDepth(path) == Reversed(path)
  {
    forall i, j | 0 <= i < j < |path| ensures path[j].row.depth < path[i].row.depth {
      ChainDescends(t, self, path, i, j);
    }
    SortIsReverse(path);
  }

  /** A root and a child, both created with the default depth: the child is listed first. */
  lemma DefaultDepthsListChildFirst(name: string)
    ensures var t := map[1 := Row(None, 0, name), 2 := Row(Some(1), 0, name)];
      var root, child := Node(1, t[1]), Node(2, t[2]);
      && IsChain(t, child, [child, root]) && Complete(t, [child, root])
      && SortByDepth([child, root]) == [child, root] != Reversed([child, root])
  {
    var t := map[1 := Row(None, 0, name), 2 := Row(Some(1), 0, name)];
    var root, child := Node(1, t[1]), Node(2, t[2]);
    var path := [child, root];
    assert Up(t, child, 0) == Some(child) && Up(t, child, 1) == Some(root);
    assert path[1..] == [root] && [root][1..] == [];
    assert SortByDepth([root]) == [root] && Reversed([root]) == [root];
    assert Reversed(path)[0] == root;
  }
}
