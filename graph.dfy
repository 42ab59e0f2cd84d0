/**
 * The graph the toolbar works on, reduced to what find and hide read and change: nodes, edges with their
 * endpoints, the idle and box flags, the box each node sits in, and per element whether it is in the
 * graph (present), hidden by style, and marked with the `find` class.
 *
 * Selector matching is not modelled: a matcher gives the elements a selector selects, and the graph
 * restricts it to the elements present.
 */
module Graph {
  import opened Wrappers

  type Id = int

  /** The elements of a graph. `idle` holds the nodes that carry the idle attribute at all. */
  datatype Topology = Topology(
    nodes: set<Id>,
    edges: map<Id, (Id, Id)>,
    idle: set<Id>,
    boxes: set<Id>,
    parent: map<Id, Id>)

  /** Nodes and edges are distinct, edges join nodes, flags are on nodes, and a parent is a box. */
  predicate WellFormed(g: Topology) {
    && g.nodes !! g.edges.Keys
    && (forall e :: e in g.edges ==> g.edges[e].0 in g.nodes && g.edges[e].1 in g.nodes)
    && g.idle <= g.nodes
    && g.boxes <= g.nodes
    && (forall n :: n in g.parent ==> n in g.nodes && g.parent[n] in g.boxes)
  }

  function Elements(g: Topology): set<Id> {
    g.nodes + g.edges.Keys
  }

  /** The edge has `n` as an endpoint. */
  predicate Touches(g: Topology, e: Id, n: Id)
    requires e in g.edges
  {
    g.edges[e].0 == n || g.edges[e].1 == n
  }

  /** `connectedEdges`: the present edges with an endpoint in `ns`. */
  function ConnectedEdges(g: Topology, present: set<Id>, ns: set<Id>): (r: set<Id>)
    ensures forall e :: e in r <==> e in g.edges && e in present && exists n :: n in ns && Touches(g, e, n)
  {
    set e, n | e in g.edges && e in present && n in ns && Touches(g, e, n) :: e
  }

  /** `connectedNodes`: the endpoints of the edges in `es`. */
  function ConnectedNodes(g: Topology, es: set<Id>): (r: set<Id>)
    ensures forall n :: n in r <==> exists e :: e in es && e in g.edges && Touches(g, e, n)
  {
    (set e | e in es && e in g.edges :: g.edges[e].0) + (set e | e in es && e in g.edges :: g.edges[e].1)
  }

  /** `cy.remove`: with the present elements of `s` go their present connected edges. */
  function Removal(g: Topology, present: set<Id>, s: set<Id>): (r: set<Id>)
    ensures r <= present
  {
    (s * present) + ConnectedEdges(g, present, s * present)
  }

  // ---------------------------------------------------------------------------------------------------------
  // Hide

  /** The matched elements and the edges connected to the matched nodes. */
  function DirectHits(g: Topology, present: set<Id>, matched: set<Id>): set<Id> {
    var hits := matched * present;
    hits + ConnectedEdges(g, present, hits)
  }

  /** The non-idle nodes outside `hits` with no edge outside `hits`, the edges among `present`. */
  function Orphans(g: Topology, present: set<Id>, hits: set<Id>): set<Id> {
    var visible := present - hits;
    var visibleNodes := set n | n in g.nodes && n in visible && n !in g.idle;
    visibleNodes - ConnectedNodes(g, set e | e in g.edges && e in visible)
  }

  /**
   * The hide hits: the matched elements, the edges connected to matched nodes and the non-idle nodes left
   * with no visible edge, less every box.
   */
  function HideHits(g: Topology, present: set<Id>, matched: set<Id>): set<Id> {
    var direct := DirectHits(g, present, matched);
    (direct + Orphans(g, present, direct)) - g.boxes
  }

  /** The boxes with a child among `s` (`$node[isBox] > ...`, the box being the subject). */
  function ParentsOf(g: Topology, s: set<Id>): (r: set<Id>)
    ensures forall b :: b in r <==> exists c :: c in g.parent && c in s && g.parent[c] == b
  {
    set c | c in g.parent && c in s :: g.parent[c]
  }

  /** The boxes present with no child present (`:inside`). */
  function RemovableBoxes(g: Topology, present: set<Id>): (r: set<Id>)
    ensures forall b :: b in r <==>
      b in g.boxes && b in present && forall c :: c in g.parent && g.parent[c] == b ==> c !in present
  {
    (g.boxes * present) - ParentsOf(g, present)
  }

  /** The boxes present with no child both present and not hidden (`:visible`). */
  function HideableBoxes(g: Topology, present: set<Id>, hidden: set<Id>): (r: set<Id>)
    ensures forall b :: b in r <==>
      b in g.boxes && b in present && forall c :: c in g.parent && g.parent[c] == b ==> c !in present || c in hidden
  {
    (g.boxes * present) - ParentsOf(g, present - hidden)
  }

  /** The hide hits are exactly these present elements that are not boxes. */
  lemma HideHitsAre(g: Topology, present: set<Id>, matched: set<Id>, x: Id)
    requires WellFormed(g)
    ensures x in HideHits(g, present, matched) <==>
      x in present && x !in g.boxes &&
      (|| x in matched
       || (x in g.edges && (g.edges[x].0 in matched * present || g.edges[x].1 in matched * present))
       || (&& x in g.nodes && x !in g.idle && x !in DirectHits(g, present, matched)
           && forall e :: e in g.edges && e in present && Touches(g, e, x) ==> e in DirectHits(g, present, matched)))
  {
    var direct := DirectHits(g, present, matched);
    var hits := matched * present;
    if x in g.edges && x in present && (g.edges[x].0 in hits || g.edges[x].1 in hits) {
      var n := if g.edges[x].0 in hits then g.edges[x].0 else g.edges[x].1;
      assert n in hits && Touches(g, x, n);
    }
    var visibleEdges := set e | e in g.edges && e in present - direct;
    if x in g.nodes && x in present - direct && x !in g.idle {
      if x in ConnectedNodes(g, visibleEdges) {
        var e :| e in visibleEdges && e in g.edges && Touches(g, e, x);
        assert e !in direct;
      } else {
        forall e | e in g.edges && e in present && Touches(g, e, x) ensures e in direct {
          if e !in direct {
            assert false;
          }
        }
      }
    }
  }

  /** Every present edge with an endpoint among the hide hits is a hide hit. */
  lemma HideHitsTakeTheirEdges(g: Topology, present: set<Id>, matched: set<Id>, e: Id, n: Id)
    requires WellFormed(g)
    requires n in HideHits(g, present, matched) && n in g.nodes
    requires e in g.edges && e in present && Touches(g, e, n)
    ensures e in HideHits(g, present, matched)
  {
    var direct := DirectHits(g, present, matched);
    assert e !in g.boxes;
    if n in direct {
      assert n in matched * present;
      assert e in ConnectedEdges(g, present, matched * present);
    } else {
      var visibleEdges := set e | e in g.edges && e in present - direct;
      if e !in direct {
        assert false;
      }
    }
  }

  /** A present non-idle node that is neither a box nor a hide hit keeps a visible edge. */
  lemma UnhitNodesKeepAnEdge(g: Topology, present: set<Id>, matched: set<Id>, n: Id)
    requires WellFormed(g)
    requires n in g.nodes && n in present && n !in g.idle && n !in g.boxes && n !in HideHits(g, present, matched)
    ensures exists e :: e in g.edges && e in present && Touches(g, e, n) && e !in HideHits(g, present, matched)
  {
    var direct := DirectHits(g, present, matched);
    var visibleEdges := set e | e in g.edges && e in present - direct;
    assert n in ConnectedNodes(g, visibleEdges);
    var e :| e in visibleEdges && e in g.edges && Touches(g, e, n);
    assert e !in HideHits(g, present, matched);
  }

  /** Removing the hide hits removes nothing else: they already hold their connected edges. */
  lemma RemovingHitsRemovesHits(g: Topology, present: set<Id>, matched: set<Id>)
    requires WellFormed(g)
    ensures Removal(g, present, HideHits(g, present, matched)) == HideHits(g, present, matched)
  {
    var hits := HideHits(g, present, matched);
    HideHitsWithin(g, present, matched);
    forall e | e in ConnectedEdges(g, present, hits * present) ensures e in hits {
      var n :| n in hits * present && Touches(g, e, n);
      HideHitsTakeTheirEdges(g, present, matched, e, n);
    }
  }

  /** The hide hits are present elements. */
  lemma HideHitsWithin(g: Topology, present: set<Id>, matched: set<Id>)
    ensures HideHits(g, present, matched) <= present
  {
  }

  // ---------------------------------------------------------------------------------------------------------
  // Find

  /**
   * The `find` marks after a find: the marks on present elements are cleared and the present matched
   * elements marked. Elements not present (removed by a hide) keep their mark.
   */
  function FindMarks(found: set<Id>, present: set<Id>, matched: set<Id>): (r: set<Id>)
    ensures r * present == matched * present
    ensures r - present == found - present
  {
    (found - present) + (matched * present)
  }

  /** Finding twice marks what finding once does. */
  lemma FindIdempotent(found: set<Id>, present: set<Id>, matched: set<Id>)
    ensures FindMarks(FindMarks(found, present, matched), present, matched) == FindMarks(found, present, matched)
  {
  }

  /** Finding with no selector leaves no present element marked. */
  lemma FindNothingClears(found: set<Id>, present: set<Id>)
    ensures FindMarks(found, present, {}) * present == {}
  {
  }

  // ---------------------------------------------------------------------------------------------------------
  // The graph object

  /** The Cytoscape graph the toolbar changes: membership, visibility and the `find` class. */
  class Cy {
    const topology: Topology
    var present: set<Id>
    var hidden: set<Id>
    var found: set<Id>

    constructor (g: Topology)
      ensures topology == g && present == Elements(g) && hidden == {} && found == {}
    {
      topology := g;
      present := Elements(g);
      hidden := {};
      found := {};
    }

    /** `cy.$(selector)` for a matcher's result: the matched elements present. */
    function Select(matched: set<Id>): (r: set<Id>)
      reads this
      ensures r <= present && forall x :: x in r <==> x in matched && x in present
    {
      matched * present
    }

    /** `cy.remove`: the elements and their connected edges leave the graph; returns what left. */
    method Remove(s: set<Id>) returns (removed: set<Id>)
      modifies this
      ensures removed == Removal(topology, old(present), s)
      ensures present == old(present) - removed
      ensures hidden == old(hidden) && found == old(found)
    {
      removed := Removal(topology, present, s);
      present := present - removed;
    }

    /** `restore`: the elements come back. */
    method Restore(s: set<Id>)
      modifies this
      ensures present == old(present) + s
      ensures hidden == old(hidden) && found == old(found)
    {
      present := present + s;
    }

    /** `style({visibility})` on a collection. */
    method SetVisible(s: set<Id>, visible: bool)
      modifies this
      ensures hidden == if visible then old(hidden) - s else old(hidden) + s
      ensures present == old(present) && found == old(found)
    {
      if visible {
        hidden := hidden - s;
      } else {
        hidden := hidden + s;
      }
    }

    /** `cy.elements('*.find').removeClass('find')`, then `addClass('find')` on the matched elements. */
    method MarkFound(matched: Option<set<Id>>)
      modifies this
      ensures found == FindMarks(old(found), present, if matched.Some? then matched.value else {})
      ensures present == old(present) && hidden == old(hidden)
    {
      var marked := found * present;
      found := found - marked;
      if matched.Some? {
        found := found + Select(matched.value);
      }
    }
  }
}
