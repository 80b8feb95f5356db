/** The hypergraph peeling behind the perfect-hash index.

    Every key is an edge over three slots. Peeling repeatedly removes an edge that is
    alone on one of its slots; the index can be built exactly when it removes them all. */
module Peeling {
  import opened Wrappers

  datatype Edge = Edge(a: nat, b: nat, c: nat) {
    function Slot(i: nat): (s: nat)
      requires i < 3
    {
      if i == 0 then a else if i == 1 then b else c
    }

    predicate Touches(s: nat) {
      s == a || s == b || s == c
    }
  }

  datatype Vertex = Vertex(slot: int, prev: int, next: int)

  // usize::MAX on the supported 64-bit targets.
  const NONE: int := 0xFFFF_FFFF_FFFF_FFFF

  ghost predicate EdgesOver(edges: seq<Edge>, slotCnt: nat) {
    && 3 * |edges| < NONE
    && slotCnt < NONE
    && forall e :: 0 <= e < |edges| ==>
                     && edges[e].a < slotCnt && edges[e].b < slotCnt && edges[e].c < slotCnt
                     && edges[e].a != edges[e].b && edges[e].a != edges[e].c && edges[e].b != edges[e].c
  }

  // ----- what peeling means

  ghost predicate SharedIn(edges: seq<Edge>, core: set<nat>, e: nat, s: nat)
    requires forall x :: x in core ==> x < |edges|
  {
    exists other :: other in core && other != e && edges[other].Touches(s)
  }

  /** A nonempty set of edges that touches each of its slots at least twice: peeling can
      never start on it. */
  ghost predicate IsCore(edges: seq<Edge>, core: set<nat>) {
    && core != {}
    && (forall e :: e in core ==> e < |edges|)
    && forall e, i :: e in core && 0 <= i < 3 ==> SharedIn(edges, core, e, edges[e].Slot(i))
  }

  ghost predicate Distinct(s: seq<nat>) {
    forall i, j :: 0 <= i < j < |s| ==> s[i] != s[j]
  }

  ghost predicate InRange(s: seq<nat>, n: nat) {
    forall i :: 0 <= i < |s| ==> s[i] < n
  }

  /** Slot `k` of the i-th removed edge is touched by no edge that is still there. */
  ghost predicate FreesSlot(edges: seq<Edge>, order: seq<nat>, i: nat, k: nat)
    requires i < |order| && k < 3 && InRange(order, |edges|)
  {
    forall e: nat :: e < |edges| && e !in order[..i + 1] ==> !edges[e].Touches(edges[order[i]].Slot(k))
  }

  ghost predicate Frees(edges: seq<Edge>, order: seq<nat>, i: nat)
    requires i < |order| && InRange(order, |edges|)
  {
    FreesSlot(edges, order, i, 0) || FreesSlot(edges, order, i, 1) || FreesSlot(edges, order, i, 2)
  }

  /** A sequence of removals, each possible at its moment. */
  ghost predicate PeelPrefix(edges: seq<Edge>, order: seq<nat>) {
    && InRange(order, |edges|)
    && Distinct(order)
    && forall i :: 0 <= i < |order| ==> Frees(edges, order, i)
  }

  ghost predicate PeelOrder(edges: seq<Edge>, order: seq<nat>) {
    PeelPrefix(edges, order) && |order| == |edges|
  }

  // ----- the intrusive lists

  ghost function SlotOf(edges: seq<Edge>, node: nat): nat
    requires node < 3 * |edges|
  {
    edges[node / 3].Slot(node % 3)
  }

  ghost predicate Alive(vs: seq<Vertex>, node: int) {
    0 <= node < |vs| && vs[node].slot != NONE
  }

  /** Nodes of a slot form a doubly linked list in descending node order, entered at heads[slot]. */
  ghost predicate NodeLinked(edges: seq<Edge>, heads: seq<int>, vs: seq<Vertex>, node: nat)
    requires |vs| == 3 * |edges| && node < |vs|
  {
    var v := vs[node];
    && v.slot == SlotOf(edges, node)
    && 0 <= v.slot < |heads|
    && (v.prev == NONE ==> heads[v.slot] == node)
    && (v.prev != NONE ==> node < v.prev && Alive(vs, v.prev) && vs[v.prev].slot == v.slot && vs[v.prev].next == node)
    && (v.next != NONE ==>
        0 <= v.next < node && Alive(vs, v.next) && vs[v.next].slot == v.slot && vs[v.next].prev == node)
  }

  ghost predicate HeadLinked(heads: seq<int>, vs: seq<Vertex>, s: nat)
    requires s < |heads|
  {
    heads[s] != NONE ==> Alive(vs, heads[s]) && vs[heads[s]].slot == s && vs[heads[s]].prev == NONE
  }

  ghost predicate Linked(edges: seq<Edge>, heads: seq<int>, vs: seq<Vertex>) {
    && |vs| == 3 * |edges| < NONE
    && (forall node {:trigger NodeLinked(edges, heads, vs, node)} ::
          0 <= node < |vs| && vs[node].slot != NONE ==> NodeLinked(edges, heads, vs, node))
    && (forall s {:trigger HeadLinked(heads, vs, s)} :: 0 <= s < |heads| ==> HeadLinked(heads, vs, s))
  }

  /** Exactly one node is left on slot `s`. */
  ghost predicate Single(heads: seq<int>, vs: seq<Vertex>, s: nat) {
    s < |heads| && heads[s] != NONE && 0 <= heads[s] < |vs| && vs[heads[s]].next == NONE
  }

  /** Walking `prev` from any live node ends at the head, so a lone head is the only node. */
  lemma {:induction false} LoneHead(edges: seq<Edge>, heads: seq<int>, vs: seq<Vertex>, node: nat)
    requires Linked(edges, heads, vs) && Alive(vs, node)
    ensures 0 <= vs[node].slot < |heads| && 0 <= heads[vs[node].slot] < |vs|
    ensures heads[vs[node].slot] != NONE
    ensures node == heads[vs[node].slot] || vs[heads[vs[node].slot]].next != NONE
    decreases |vs| - node
  {
    assert NodeLinked(edges, heads, vs, node);
    var p := vs[node].prev;
    if p != NONE {
      LoneHead(edges, heads, vs, p);
    }
  }

  function UnlinkedHeads(heads: seq<int>, vs: seq<Vertex>, node: nat): (r: seq<int>)
    requires node < |vs| && 0 <= vs[node].slot < |heads|
  {
    if vs[node].prev != NONE then heads else heads[vs[node].slot := vs[node].next]
  }

  function UnlinkedVertices(vs: seq<Vertex>, node: nat): (r: seq<Vertex>)
    requires node < |vs|
    requires vs[node].prev == NONE || 0 <= vs[node].prev < |vs|
    requires vs[node].next == NONE || 0 <= vs[node].next < |vs|
  {
    var v := vs[node];
    var vs1 := if v.prev != NONE then vs[v.prev := vs[v.prev].(next := v.next)] else vs;
    var vs2 := if v.next != NONE then vs1[v.next := vs1[v.next].(prev := v.prev)] else vs1;
    vs2[node := vs2[node].(slot := NONE)]
  }

  lemma UnlinkKeepsNode(edges: seq<Edge>, heads: seq<int>, vs: seq<Vertex>, node: nat, m: nat)
    requires Linked(edges, heads, vs) && Alive(vs, node) && NodeLinked(edges, heads, vs, node)
    requires Alive(vs, m) && m != node
    ensures NodeLinked(edges, UnlinkedHeads(heads, vs, node), UnlinkedVertices(vs, node), m)
  {
    assert NodeLinked(edges, heads, vs, m);
    if vs[m].prev != NONE { assert NodeLinked(edges, heads, vs, vs[m].prev); }
    if vs[m].next != NONE { assert NodeLinked(edges, heads, vs, vs[m].next); }
    assert HeadLinked(heads, vs, vs[node].slot);
  }

  lemma UnlinkKeepsHead(edges: seq<Edge>, heads: seq<int>, vs: seq<Vertex>, node: nat, s: nat)
    requires Linked(edges, heads, vs) && Alive(vs, node) && NodeLinked(edges, heads, vs, node)
    requires s < |heads|
    ensures HeadLinked(UnlinkedHeads(heads, vs, node), UnlinkedVertices(vs, node), s)
    ensures s != vs[node].slot ==>
              (Single(UnlinkedHeads(heads, vs, node), UnlinkedVertices(vs, node), s) <==> Single(heads, vs, s))
    ensures s == vs[node].slot && Single(heads, vs, s) ==> UnlinkedHeads(heads, vs, node)[s] == NONE
  {
    assert HeadLinked(heads, vs, s);
    if heads[s] != NONE { assert NodeLinked(edges, heads, vs, heads[s]); }
    LoneHead(edges, heads, vs, node);
  }

  lemma UnlinkSlots(edges: seq<Edge>, heads: seq<int>, vs: seq<Vertex>, node: nat)
    requires Linked(edges, heads, vs) && Alive(vs, node) && NodeLinked(edges, heads, vs, node)
    ensures |UnlinkedVertices(vs, node)| == |vs|
    ensures forall m :: 0 <= m < |vs| ==> UnlinkedVertices(vs, node)[m].slot == if m == node then NONE else vs[m].slot
  {
  }

  /** Removing one node keeps every list well formed. */
  lemma UnlinkKeepsLinked(edges: seq<Edge>, heads: seq<int>, vs: seq<Vertex>, node: nat)
    requires Linked(edges, heads, vs) && Alive(vs, node) && NodeLinked(edges, heads, vs, node)
    ensures Linked(edges, UnlinkedHeads(heads, vs, node), UnlinkedVertices(vs, node))
  {
    UnlinkSlots(edges, heads, vs, node);
    var heads', vs' := UnlinkedHeads(heads, vs, node), UnlinkedVertices(vs, node);
    forall m | 0 <= m < |vs'| && vs'[m].slot != NONE ensures NodeLinked(edges, heads', vs', m) {
      UnlinkKeepsNode(edges, heads, vs, node, m);
    }
    forall s | 0 <= s < |heads'| ensures HeadLinked(heads', vs', s) {
      UnlinkKeepsHead(edges, heads, vs, node, s);
    }
  }

  // ----- the work queue

  ghost predicate Waits(heads: seq<int>, vs: seq<Vertex>, queue: seq<nat>, from: nat, s: nat)
    requires from <= |queue|
  {
    Single(heads, vs, s) ==> s in queue[from..]
  }

  ghost predicate Settled(heads: seq<int>, vs: seq<Vertex>, s: nat)
    requires s < |heads|
  {
    heads[s] == NONE || Single(heads, vs, s)
  }

  /** Slots enter the queue once, when they are down to one node, and every such slot is
      still to be visited; `visiting` is the slot being handled now. */
  ghost predicate QueueOk(heads: seq<int>, vs: seq<Vertex>, queue: seq<nat>, from: nat, visiting: int) {
    && from <= |queue|
    && Distinct(queue) && InRange(queue, |heads|)
    && (forall s {:trigger Waits(heads, vs, queue, from, s)} ::
          0 <= s < |heads| && s != visiting ==> Waits(heads, vs, queue, from, s))
    && (forall i {:trigger queue[i]} :: 0 <= i < |queue| ==> Settled(heads, vs, queue[i]))
  }

  lemma QueueAfterUnlink(edges: seq<Edge>, heads: seq<int>, vs: seq<Vertex>, node: nat,
                         queue: seq<nat>, from: nat, visiting: int)
    requires Linked(edges, heads, vs) && Alive(vs, node) && NodeLinked(edges, heads, vs, node)
    requires QueueOk(heads, vs, queue, from, visiting)
    ensures var heads', vs', s := UnlinkedHeads(heads, vs, node), UnlinkedVertices(vs, node), vs[node].slot;
            QueueOk(heads', vs', if Single(heads', vs', s) then queue + [s] else queue, from, visiting)
  {
    var heads', vs', s := UnlinkedHeads(heads, vs, node), UnlinkedVertices(vs, node), vs[node].slot;
    var queue' := if Single(heads', vs', s) then queue + [s] else queue;
    LoneHead(edges, heads, vs, node);
    UnlinkKeepsHead(edges, heads, vs, node, s);
    if Single(heads', vs', s) {
      forall i | 0 <= i < |queue| ensures queue[i] != s {
        assert Settled(heads, vs, queue[i]);
      }
      assert queue'[from..] == queue[from..] + [s];
      assert queue'[|queue|] == s;
    }
    forall t | 0 <= t < |heads'| && t != visiting ensures Waits(heads', vs', queue', from, t) {
      UnlinkKeepsHead(edges, heads, vs, node, t);
      assert Waits(heads, vs, queue, from, t);
    }
    forall i | 0 <= i < |queue'| ensures Settled(heads', vs', queue'[i]) {
      if i < |queue| {
        UnlinkKeepsHead(edges, heads, vs, node, queue[i]);
        assert Settled(heads, vs, queue[i]);
      }
    }
  }

  /** Takes one node out of its list and enqueues the slot when that leaves it with one node. */
  method UnlinkNode(ghost edges: seq<Edge>, heads: array<int>, vertices: array<Vertex>, node: nat,
                    queue: seq<nat>, ghost from: nat, ghost visiting: int)
    returns (queue': seq<nat>)
    requires Linked(edges, heads[..], vertices[..]) && Alive(vertices[..], node)
    requires QueueOk(heads[..], vertices[..], queue, from, visiting)
    modifies heads, vertices
    ensures Linked(edges, heads[..], vertices[..])
    ensures forall m :: 0 <= m < vertices.Length ==>
                          vertices[m].slot == if m == node then NONE else old(vertices[m].slot)
    ensures queue <= queue' && QueueOk(heads[..], vertices[..], queue', from, visiting)
  {
    ghost var heads0, vs0 := heads[..], vertices[..];
    assert NodeLinked(edges, heads0, vs0, node);
    UnlinkSlots(edges, heads0, vs0, node);
    UnlinkKeepsLinked(edges, heads0, vs0, node);
    QueueAfterUnlink(edges, heads0, vs0, node, queue, from, visiting);
    ghost var heads1, vs1 := UnlinkedHeads(heads0, vs0, node), UnlinkedVertices(vs0, node);
    assert HeadLinked(heads1, vs1, vs0[node].slot);

    var vertex := vertices[node];
    if vertex.prev != NONE {
      vertices[vertex.prev] := vertices[vertex.prev].(next := vertex.next);
    } else {
      heads[vertex.slot] := vertex.next;
    }
    if vertex.next != NONE {
      vertices[vertex.next] := vertices[vertex.next].(prev := vertex.prev);
    }
    assert heads[..] == heads1;
    assert vertices[..][node := vertices[node].(slot := NONE)] == vs1;
    var head := heads[vertex.slot];
    queue' := queue;
    if head != NONE && vertices[head].next == NONE {
      queue' := queue + [vertex.slot];
    }
    vertices[node] := vertices[node].(slot := NONE);
    assert vertices[..] == vs1;
  }

  // ----- building the lists

  function PushedVertices(vs: seq<Vertex>, node: nat, slot: nat, head: int): (r: seq<Vertex>)
    requires node < |vs| && (head == NONE || 0 <= head < |vs|)
  {
    var vs1 := vs[node := Vertex(slot, NONE, head)];
    if head != NONE then vs1[head := vs1[head].(prev := node)] else vs1
  }

  ghost predicate AliveBelow(vs: seq<Vertex>, n: nat) {
    forall m :: 0 <= m < |vs| ==> (vs[m].slot != NONE <==> m < n)
  }

  /** Pushing the next node in front keeps the lists descending and linked. */
  lemma PushKeepsLinked(edges: seq<Edge>, heads: seq<int>, vs: seq<Vertex>, node: nat, slot: nat)
    requires EdgesOver(edges, |heads|) && Linked(edges, heads, vs) && AliveBelow(vs, node)
    requires node < |vs| && slot == SlotOf(edges, node) && slot < |heads|
    ensures heads[slot] == NONE || 0 <= heads[slot] < node
    ensures Linked(edges, heads[slot := node], PushedVertices(vs, node, slot, heads[slot]))
    ensures AliveBelow(PushedVertices(vs, node, slot, heads[slot]), node + 1)
  {
    hide NodeLinked, AliveBelow, PushedVertices;
    assert HeadLinked(heads, vs, slot);
    HeadBelow(heads, vs, node, slot);
    PushAlive(vs, node, slot, heads[slot]);
    var heads', vs' := heads[slot := node], PushedVertices(vs, node, slot, heads[slot]);
    forall m | 0 <= m < |vs'| && vs'[m].slot != NONE ensures NodeLinked(edges, heads', vs', m) {
      PushKeepsNode(edges, heads, vs, node, slot, m);
    }
    forall s | 0 <= s < |heads'| ensures HeadLinked(heads', vs', s) {
      assert HeadLinked(heads, vs, s);
      PushKeepsHead(heads, vs, node, slot, s);
    }
  }

  lemma HeadBelow(heads: seq<int>, vs: seq<Vertex>, node: nat, slot: nat)
    requires slot < |heads| && HeadLinked(heads, vs, slot) && AliveBelow(vs, node) && slot != NONE
    ensures heads[slot] == NONE || 0 <= heads[slot] < node
  {
  }

  lemma PushAlive(vs: seq<Vertex>, node: nat, slot: nat, head: int)
    requires AliveBelow(vs, node) && node < |vs| && slot != NONE && (head == NONE || 0 <= head < node)
    ensures |PushedVertices(vs, node, slot, head)| == |vs|
    ensures AliveBelow(PushedVertices(vs, node, slot, head), node + 1)
  {
  }

  lemma PushKeepsHead(heads: seq<int>, vs: seq<Vertex>, node: nat, slot: nat, s: nat)
    requires slot < |heads| && s < |heads| && HeadLinked(heads, vs, s) && HeadLinked(heads, vs, slot)
    requires AliveBelow(vs, node)
    requires node < |vs| && slot != NONE && (heads[slot] == NONE || 0 <= heads[slot] < node)
    ensures HeadLinked(heads[slot := node], PushedVertices(vs, node, slot, heads[slot]), s)
  {
  }

  lemma PushKeepsNode(edges: seq<Edge>, heads: seq<int>, vs: seq<Vertex>, node: nat, slot: nat, m: nat)
    requires EdgesOver(edges, |heads|) && Linked(edges, heads, vs) && AliveBelow(vs, node)
    requires node < |vs| && slot == SlotOf(edges, node) && slot < |heads|
        && (heads[slot] == NONE || 0 <= heads[slot] < node)
    requires m < |vs| && PushedVertices(vs, node, slot, heads[slot])[m].slot != NONE
    ensures NodeLinked(edges, heads[slot := node], PushedVertices(vs, node, slot, heads[slot]), m)
  {
    assert HeadLinked(heads, vs, slot);
    if m < node { assert NodeLinked(edges, heads, vs, m); }
  }

  method BuildLists(edges: seq<Edge>, heads: array<int>, vertices: array<Vertex>)
    requires EdgesOver(edges, heads.Length) && vertices.Length == 3 * |edges|
    requires forall s :: 0 <= s < heads.Length ==> heads[s] == NONE
    requires forall m :: 0 <= m < vertices.Length ==> vertices[m].slot == NONE
    modifies heads, vertices
    ensures Linked(edges, heads[..], vertices[..]) && AliveBelow(vertices[..], 3 * |edges|)
  {
    assert Linked(edges, heads[..], vertices[..]) by {
      forall s | 0 <= s < heads.Length ensures HeadLinked(heads[..], vertices[..], s) {}
    }
    for edgeIdx := 0 to |edges|
      invariant Linked(edges, heads[..], vertices[..]) && AliveBelow(vertices[..], 3 * edgeIdx)
    {
      for slotIndex := 0 to 3
        invariant Linked(edges, heads[..], vertices[..]) && AliveBelow(vertices[..], 3 * edgeIdx + slotIndex)
      {
        var slot := edges[edgeIdx].Slot(slotIndex);
        var node := edgeIdx * 3 + slotIndex;
        ghost var heads0, vs0 := heads[..], vertices[..];
        PushKeepsLinked(edges, heads0, vs0, node, slot);
        var head := heads[slot];
        vertices[node] := Vertex(slot, NONE, head);
        if head != NONE {
          vertices[head] := vertices[head].(prev := node);
        }
        heads[slot] := node;
        assert heads[..] == heads0[slot := node];
        assert vertices[..] == PushedVertices(vs0, node, slot, head);
      }
    }
  }

  method InitialQueue(heads: array<int>, vertices: array<Vertex>) returns (queue: seq<nat>)
    requires forall s :: 0 <= s < heads.Length ==> heads[s] == NONE || 0 <= heads[s] < vertices.Length
    ensures QueueOk(heads[..], vertices[..], queue, 0, -1)
  {
    queue := [];
    for slot := 0 to heads.Length
      invariant Distinct(queue) && InRange(queue, slot)
      invariant forall s {:trigger Waits(heads[..], vertices[..], queue, 0, s)} ::
                  0 <= s < slot ==> Waits(heads[..], vertices[..], queue, 0, s)
      invariant forall i {:trigger queue[i]} :: 0 <= i < |queue| ==> Settled(heads[..], vertices[..], queue[i])
    {
      ghost var before := queue;
      var head := heads[slot];
      if head != NONE && vertices[head].next == NONE {
        queue := queue + [slot];
        assert queue[|before|] == slot;
      }
      forall s | 0 <= s < slot + 1 ensures Waits(heads[..], vertices[..], queue, 0, s) {
        if s < slot { assert Waits(heads[..], vertices[..], before, 0, s); }
      }
    }
  }

  // ----- peeling

  ghost predicate AliveOutside(vs: seq<Vertex>, order: seq<nat>, partial: int, done: nat) {
    forall m :: 0 <= m < |vs| ==> (vs[m].slot != NONE <==> (m / 3 !in order || (m / 3 == partial && m % 3 >= done)))
  }

  lemma {:induction false} DistinctFits(s: seq<nat>, n: nat)
    requires Distinct(s) && InRange(s, n)
    ensures |s| <= n
    decreases n
  {
    assert |s| > 0 ==> s[0] < n;
    if n > 0 {
      if n - 1 in s {
        var i :| 0 <= i < |s| && s[i] == n - 1;
        DistinctFits(s[..i] + s[i + 1..], n - 1);
      } else {
        DistinctFits(s, n - 1);
      }
    }
  }

  lemma {:induction false} DistinctCovers(s: seq<nat>, n: nat)
    requires Distinct(s) && InRange(s, n) && |s| == n
    ensures forall k :: 0 <= k < n ==> k in s
  {
    forall k: nat | k < n ensures k in s {
      if k !in s {
        DistinctFits(s + [k], n);
      }
    }
  }

  /** The edge alone on `slot` can be removed. */
  lemma LoneEdgeFrees(edges: seq<Edge>, heads: seq<int>, vs: seq<Vertex>, order: seq<nat>, slot: nat)
    requires EdgesOver(edges, |heads|) && Linked(edges, heads, vs) && PeelPrefix(edges, order)
    requires AliveOutside(vs, order, -1, 0) && Single(heads, vs, slot)
    ensures var e := heads[slot] / 3;
            && 0 <= e < |edges| && e !in order && PeelPrefix(edges, order + [e])
            && edges[e].Slot(heads[slot] % 3) == slot
            && FreesSlot(edges, order + [e], |order|, heads[slot] % 3)
  {
    assert HeadLinked(heads, vs, slot);
    assert NodeLinked(edges, heads, vs, heads[slot]);
    var e, order' := heads[slot] / 3, order + [heads[slot] / 3];
    forall x: nat | x < |edges| && x !in order' ensures !edges[x].Touches(slot) {
      if edges[x].Touches(slot) {
        var i: nat := if slot == edges[x].a then 0 else if slot == edges[x].b then 1 else 2;
        assert vs[3 * x + i].slot != NONE;
        assert NodeLinked(edges, heads, vs, 3 * x + i);
        LoneHead(edges, heads, vs, 3 * x + i);
      }
    }
    assert order'[..|order| + 1] == order';
    assert FreesSlot(edges, order', |order|, heads[slot] % 3);
    forall i | 0 <= i < |order'| ensures Frees(edges, order', i) {
      if i < |order| {
        assert Frees(edges, order, i);
        assert order'[..i + 1] == order[..i + 1];
      }
    }
  }

  /** Removes all three nodes of an edge that just joined the order. */
  method RemoveEdge(ghost edges: seq<Edge>, heads: array<int>, vertices: array<Vertex>, edgeIdx: nat,
                    queue: seq<nat>, ghost order: seq<nat>, ghost from: nat, ghost visiting: int)
    returns (queue': seq<nat>)
    requires Linked(edges, heads[..], vertices[..]) && edgeIdx < |edges| && edgeIdx in order
    requires AliveOutside(vertices[..], order, edgeIdx, 0)
    requires QueueOk(heads[..], vertices[..], queue, from, visiting)
    modifies heads, vertices
    ensures Linked(edges, heads[..], vertices[..]) && AliveOutside(vertices[..], order, -1, 0)
    ensures queue <= queue' && QueueOk(heads[..], vertices[..], queue', from, visiting)
  {
    queue' := queue;
    for offset := 0 to 3
      invariant Linked(edges, heads[..], vertices[..])
      invariant AliveOutside(vertices[..], order, edgeIdx, offset)
      invariant queue <= queue' && QueueOk(heads[..], vertices[..], queue', from, visiting)
    {
      var node := edgeIdx * 3 + offset;
      assert node / 3 == edgeIdx && node % 3 == offset;
      // A node is already gone only when its edge was removed before, which the order rules out.
      if vertices[node].slot != NONE {
        queue' := UnlinkNode(edges, heads, vertices, node, queue', from, visiting);
      }
    }
  }

  /** Once the order lists no node of a slot, the slot is not waiting for anything. */
  lemma FreedSlotIsEmpty(edges: seq<Edge>, heads: seq<int>, vs: seq<Vertex>, order: seq<nat>, slot: nat, k: nat)
    requires Linked(edges, heads, vs) && InRange(order, |edges|) && order != [] && k < 3
    requires AliveOutside(vs, order, -1, 0) && FreesSlot(edges, order, |order| - 1, k)
    requires edges[order[|order| - 1]].Slot(k) == slot && slot < |heads|
    ensures !Single(heads, vs, slot)
  {
    assert order[..|order|] == order;
    assert HeadLinked(heads, vs, slot);
    if heads[slot] != NONE {
      assert NodeLinked(edges, heads, vs, heads[slot]);
      var e: nat := heads[slot] / 3;
      assert edges[e].Touches(slot);
      assert false;
    }
  }

  lemma StuckIsShared(edges: seq<Edge>, heads: seq<int>, vs: seq<Vertex>, order: seq<nat>, core: set<nat>, e: nat,
                      i: nat)
    requires EdgesOver(edges, |heads|) && Linked(edges, heads, vs) && InRange(order, |edges|)
    requires AliveOutside(vs, order, -1, 0)
    requires forall s: nat :: s < |heads| ==> !Single(heads, vs, s)
    requires core == (set f: nat | f < |edges| && f !in order) && e in core && i < 3
    ensures SharedIn(edges, core, e, edges[e].Slot(i))
  {
    var node := 3 * e + i;
    assert node / 3 == e && node % 3 == i;
    assert NodeLinked(edges, heads, vs, node);
    LoneHead(edges, heads, vs, node);
    var slot := edges[e].Slot(i);
    var head := heads[slot];
    assert HeadLinked(heads, vs, slot);
    assert NodeLinked(edges, heads, vs, head);
    var next := vs[head].next;
    assert !Single(heads, vs, slot);
    assert NodeLinked(edges, heads, vs, next);
    var other := if head == node then next else head;
    var o: nat := other / 3;
    assert edges[o].Slot(other % 3) == slot && other != node;
    assert o in core && edges[o].Touches(slot);
    assert o != e;
  }

  /** When no slot is down to one node, whatever is left is a core. */
  lemma StuckIsCore(edges: seq<Edge>, heads: seq<int>, vs: seq<Vertex>, order: seq<nat>)
    requires EdgesOver(edges, |heads|) && Linked(edges, heads, vs) && InRange(order, |edges|)
    requires AliveOutside(vs, order, -1, 0)
    requires forall s: nat :: s < |heads| ==> !Single(heads, vs, s)
    requires exists e: nat :: e < |edges| && e !in order
    ensures IsCore(edges, set e: nat | e < |edges| && e !in order)
  {
    hide Linked, EdgesOver, InRange, Single, AliveOutside, SharedIn;
    var core := set e: nat | e < |edges| && e !in order;
    var left: nat :| left < |edges| && left !in order;
    assert left in core;
    forall e, i | e in core && 0 <= i < 3 ensures SharedIn(edges, core, e, edges[e].Slot(i)) {
      StuckIsShared(edges, heads, vs, order, core, e, i);
    }
  }

  /** The edge of a set that comes first in the order shares the slot it frees with no other. */
  lemma FirstFreesAlone(edges: seq<Edge>, order: seq<nat>, core: set<nat>, first: nat, k: nat)
    requires InRange(order, |edges|) && first < |order| && k < 3 && FreesSlot(edges, order, first, k)
    requires forall e :: e in core ==> e < |edges| && e in order
    requires forall j :: 0 <= j < first ==> order[j] !in core
    ensures !SharedIn(edges, core, order[first], edges[order[first]].Slot(k))
  {
  }

  /** A complete removal order leaves no room for a core. */
  lemma PeelOrderExcludesCore(edges: seq<Edge>, order: seq<nat>, core: set<nat>)
    requires PeelOrder(edges, order)
    ensures !IsCore(edges, core)
  {
    hide SharedIn, FreesSlot;
    if core != {} && forall e :: e in core ==> e < |edges| {
      DistinctCovers(order, |edges|);
      var first := FirstIn(order, core);
      assert Frees(edges, order, first);
      var k: nat :| k < 3 && FreesSlot(edges, order, first, k);
      FirstFreesAlone(edges, order, core, first, k);
    }
  }

  lemma {:induction false} FirstIn(order: seq<nat>, core: set<nat>) returns (first: nat)
    requires core != {} && forall e :: e in core ==> e in order
    ensures first < |order| && order[first] in core
    ensures forall j :: 0 <= j < first ==> order[j] !in core
  {
    first := 0;
    while order[first] !in core
      invariant first < |order| && forall j :: 0 <= j < first ==> order[j] !in core
      decreases |order| - first
    {
      var e :| e in core;
      first := first + 1;
    }
  }

  /** Finds a removal order exactly when the hypergraph has no core. */
  method PeelGraph(edges: seq<Edge>, slotCnt: nat) returns (result: Option<seq<nat>>)
    requires EdgesOver(edges, slotCnt)
    ensures result.Some? ==> PeelOrder(edges, result.value)
    ensures result.Some? <==> forall core :: !IsCore(edges, core)
  {
    var heads := new int[slotCnt](_ => NONE);
    var vertices := new Vertex[|edges| * 3](_ => Vertex(NONE, NONE, NONE));
    BuildLists(edges, heads, vertices);
    forall s | 0 <= s < heads.Length ensures heads[s] == NONE || 0 <= heads[s] < vertices.Length {
      assert HeadLinked(heads[..], vertices[..], s);
    }
    var queue := InitialQueue(heads, vertices);
    var queueHead := 0;
    var order: seq<nat> := [];

    while queueHead < |queue|
      invariant Linked(edges, heads[..], vertices[..]) && AliveOutside(vertices[..], order, -1, 0)
      invariant PeelPrefix(edges, order)
      invariant QueueOk(heads[..], vertices[..], queue, queueHead, -1)
      decreases slotCnt - queueHead
    {
      DistinctFits(queue, slotCnt);
      var slot := queue[queueHead];
      assert queue[queueHead..] == [slot] + queue[queueHead + 1..];
      queueHead := queueHead + 1;
      ghost var heads0, vs0 := heads[..], vertices[..];
      assert Settled(heads0, vs0, slot);
      assert QueueOk(heads0, vs0, queue, queueHead, slot) by {
        forall s | 0 <= s < |heads0| && s != slot ensures Waits(heads0, vs0, queue, queueHead, s) {
          assert Waits(heads0, vs0, queue, queueHead - 1, s);
        }
      }
      var head := heads[slot];
      if head == NONE || vertices[head].next != NONE {
        forall s | 0 <= s < |heads0| ensures Waits(heads0, vs0, queue, queueHead, s) {}
        continue;
      }
      LoneEdgeFrees(edges, heads0, vs0, order, slot);
      var edgeIdx := head / 3;
      order := order + [edgeIdx];
      queue := RemoveEdge(edges, heads, vertices, edgeIdx, queue, order, queueHead, slot);
      FreedSlotIsEmpty(edges, heads[..], vertices[..], order, slot, head % 3);
      forall s | 0 <= s < heads.Length ensures Waits(heads[..], vertices[..], queue, queueHead, s) {}
    }

    DistinctFits(order, |edges|);
    if |order| == |edges| {
      result := Some(order);
      forall core ensures !IsCore(edges, core) {
        PeelOrderExcludesCore(edges, order, core);
      }
    } else {
      result := None;
      forall s: nat | s < heads.Length ensures !Single(heads[..], vertices[..], s) {
        assert Waits(heads[..], vertices[..], queue, queueHead, s);
      }
      if forall e: nat :: e < |edges| ==> e in order {
        CoverNeeds(order, |edges|);
      }
      StuckIsCore(edges, heads[..], vertices[..], order);
    }
  }

  /** Fewer than `n` distinct numbers miss one below `n`. */
  lemma {:induction false} CoverNeeds(s: seq<nat>, n: nat)
    requires forall k: nat :: k < n ==> k in s
    ensures n <= |s|
    decreases n
  {
    if n > 0 {
      assert n - 1 in s;
      var i :| 0 <= i < |s| && s[i] == n - 1;
      var rest := s[..i] + s[i + 1..];
      forall k: nat | k < n - 1 ensures k in rest {
        assert k in s;
        var j :| 0 <= j < |s| && s[j] == k;
        assert if j < i then rest[j] == k else rest[j - 1] == k;
      }
      CoverNeeds(rest, n - 1);
    }
  }

  /** Two keys that hash alike in all three sections can never be separated. */
  lemma TwinEdgesAreACore(edges: seq<Edge>, i: nat, j: nat)
    requires i < j < |edges| && edges[i] == edges[j]
    ensures IsCore(edges, {i, j})
  {
    forall e, k | e in {i, j} && 0 <= k < 3 ensures SharedIn(edges, {i, j}, e, edges[e].Slot(k)) {
      var other := if e == i then j else i;
      assert other in {i, j} && edges[other].Touches(edges[e].Slot(k));
    }
  }
}
