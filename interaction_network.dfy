/** The character interaction graph: who speaks right after whom, inside
    one episode, among the most frequent speakers. */
module InteractionNetwork {
  import opened Transcript

  /** Speaker names containing one of these are groups, not characters. */
  const CharacterStopwords: seq<string> := ["others", "ponies", "and", "all"]

  /** `any(w in c for w in CHARACTER_STOPWORDS)`. */
  function HasCharacterStopword(c: string): (r: bool)
    ensures r <==> exists w :: w in CharacterStopwords && Occurs(w, c)
  {
    exists w :: w in CharacterStopwords && IsSubstring(w, c)
  }

  /** One side of an interaction: a listed name that is not a group. */
  predicate IsEligible(c: string, mostFrequent: seq<string>)
    ensures IsEligible(c, mostFrequent) <==> c in mostFrequent && forall w :: w in CharacterStopwords ==> !Occurs(w, c)
  {
    !HasCharacterStopword(c) && c in mostFrequent
  }

  /** Two consecutive speakers interact when they are different people,
      both among the most frequent speakers, and neither name mentions a
      group word anywhere. */
  function IsValidInteraction(c1: string, c2: string, mostFrequent: seq<string>): (r: bool)
    ensures r <==> c1 != c2 && c1 in mostFrequent && c2 in mostFrequent
                   && (forall w :: w in CharacterStopwords ==> !Occurs(w, c1) && !Occurs(w, c2))
  {
    if c1 == c2 then false
    else IsEligible(c1, mostFrequent) && IsEligible(c2, mostFrequent)
  }

  /** The relation is symmetric, so an edge does not depend on who spoke
      first. */
  lemma ValidInteractionIsSymmetric(c1: string, c2: string, mostFrequent: seq<string>)
    ensures IsValidInteraction(c1, c2, mostFrequent) == IsValidInteraction(c2, c1, mostFrequent)
  {
  }

  // ---------------------------------------------------------------------
  // What the row loop computes, stated on the rows

  /** An undirected edge is the set of its two endpoints; `{a}` would be a
      self-loop. */
  type Edge = set<string>

  /** Who `previous_character` holds when row `i` is looked at: nobody at
      the first row and at the first row of each episode, otherwise the
      lowercased speaker of the row before. */
  function SpeakerBefore(rows: seq<Row>, i: nat): (previous: string)
    requires i < |rows|
    ensures i == 0 || rows[i].title != rows[i - 1].title ==> previous == ""
    ensures 0 < i && rows[i].title == rows[i - 1].title ==> previous == Lower(rows[i - 1].pony)
    ensures previous != "" ==> 0 < i && rows[i].title == rows[i - 1].title && previous == Lower(rows[i - 1].pony)
  {
    if i == 0 || rows[i].title != rows[i - 1].title then "" else Lower(rows[i - 1].pony)
  }

  /** Row `i` is an interaction with the speaker before it. */
  predicate Interacts(rows: seq<Row>, mostFrequent: seq<string>, i: nat)
    requires i < |rows|
  {
    IsValidInteraction(Lower(rows[i].pony), SpeakerBefore(rows, i), mostFrequent)
  }

  /** The edge row `i` would add or strengthen. */
  function EdgeAt(rows: seq<Row>, i: nat): Edge
    requires i < |rows|
  {
    {Lower(rows[i].pony), SpeakerBefore(rows, i)}
  }

  /** How many of the first `n` rows are interactions along edge `e`. */
  function TransitionCount(rows: seq<Row>, mostFrequent: seq<string>, e: Edge, n: nat): nat
    requires n <= |rows|
  {
    if n == 0 then 0
    else TransitionCount(rows, mostFrequent, e, n - 1)
         + (if Interacts(rows, mostFrequent, n - 1) && EdgeAt(rows, n - 1) == e then 1 else 0)
  }

  /** Each row changes at most one edge, the one between its speaker and
      the speaker before, and only by one. */
  lemma OneEdgePerRow(rows: seq<Row>, mostFrequent: seq<string>, e: Edge, n: nat)
    requires n < |rows|
    ensures TransitionCount(rows, mostFrequent, e, n + 1) == TransitionCount(rows, mostFrequent, e, n)
            || (TransitionCount(rows, mostFrequent, e, n + 1) == TransitionCount(rows, mostFrequent, e, n) + 1
                && e == {Lower(rows[n].pony), SpeakerBefore(rows, n)})
  {
  }

  /** Every edge that gets a weight has two distinct endpoints: there are
      no self-loops. */
  lemma {:induction false} NoSelfLoops(rows: seq<Row>, mostFrequent: seq<string>, e: Edge, n: nat)
    requires n <= |rows|
    requires TransitionCount(rows, mostFrequent, e, n) > 0
    ensures |e| == 2
  {
    if Interacts(rows, mostFrequent, n - 1) && EdgeAt(rows, n - 1) == e {
      var a, b := Lower(rows[n - 1].pony), SpeakerBefore(rows, n - 1);
      assert a != b;
      assert e == {a} + {b};
    } else {
      NoSelfLoops(rows, mostFrequent, e, n - 1);
    }
  }

  /** Every endpoint of every edge is a listed speaker whose name mentions
      no group word. */
  lemma {:induction false} EndpointsAreEligible(rows: seq<Row>, mostFrequent: seq<string>, e: Edge, n: nat, x: string)
    requires n <= |rows|
    requires TransitionCount(rows, mostFrequent, e, n) > 0
    requires x in e
    ensures x in mostFrequent
    ensures forall w :: w in CharacterStopwords ==> !Occurs(w, x)
  {
    if Interacts(rows, mostFrequent, n - 1) && EdgeAt(rows, n - 1) == e {
      var a, b := Lower(rows[n - 1].pony), SpeakerBefore(rows, n - 1);
      assert IsValidInteraction(a, b, mostFrequent);
      assert x == a || x == b;
    } else {
      EndpointsAreEligible(rows, mostFrequent, e, n - 1, x);
    }
  }

  /** The first row of the script and the first row of every episode add
      no edge, since the empty name is never listed. */
  lemma EpisodeStartAddsNothing(rows: seq<Row>, mostFrequent: seq<string>, i: nat, e: Edge)
    requires "" !in mostFrequent
    requires i < |rows|
    requires i == 0 || rows[i].title != rows[i - 1].title
    ensures TransitionCount(rows, mostFrequent, e, i + 1) == TransitionCount(rows, mostFrequent, e, i)
  {
  }

  /** A speaker that can never interact still becomes the previous
      speaker: with rows A, X, B in one episode the step to B is taken
      from X, so neither row adds an edge, and in particular no A-B edge. */
  lemma ExcludedSpeakerBreaksAdjacency(rows: seq<Row>, mostFrequent: seq<string>, i: nat, e: Edge)
    requires i + 1 < |rows|
    requires rows[i + 1].title == rows[i].title
    requires !IsEligible(Lower(rows[i].pony), mostFrequent)
    ensures SpeakerBefore(rows, i + 1) == Lower(rows[i].pony)
    ensures TransitionCount(rows, mostFrequent, e, i + 2) == TransitionCount(rows, mostFrequent, e, i)
  {
    assert !Interacts(rows, mostFrequent, i);
    assert !Interacts(rows, mostFrequent, i + 1);
  }

  /** Row `i` follows a row of the same episode, and the two speakers
      form a valid pair along `e`. */
  predicate IsTransitionAlong(rows: seq<Row>, mostFrequent: seq<string>, e: Edge, i: nat)
    requires 0 < i < |rows|
  {
    var current, previous := Lower(rows[i].pony), Lower(rows[i - 1].pony);
    rows[i].title == rows[i - 1].title && IsValidInteraction(current, previous, mostFrequent)
    && {current, previous} == e
  }

  /** The rows among 1 .. n-1 that are same-episode transitions along `e`. */
  ghost function TransitionRows(rows: seq<Row>, mostFrequent: seq<string>, e: Edge, n: nat): set<nat>
    requires n <= |rows|
  {
    set i: nat | 0 < i < n && IsTransitionAlong(rows, mostFrequent, e, i)
  }

  lemma InteractsIsTransition(rows: seq<Row>, mostFrequent: seq<string>, e: Edge, i: nat)
    requires "" !in mostFrequent
    requires i < |rows|
    ensures (Interacts(rows, mostFrequent, i) && EdgeAt(rows, i) == e)
            <==> (i > 0 && IsTransitionAlong(rows, mostFrequent, e, i))
  {
  }

  lemma TransitionRowsStep(rows: seq<Row>, mostFrequent: seq<string>, e: Edge, n: nat)
    requires 0 < n <= |rows|
    ensures TransitionRows(rows, mostFrequent, e, n)
            == TransitionRows(rows, mostFrequent, e, n - 1)
               + (if n - 1 > 0 && IsTransitionAlong(rows, mostFrequent, e, n - 1) then {n - 1} else {})
  {
  }

  /** The weight of an edge is the number of rows that follow a row of the
      same episode, spoken by the other endpoint, with a valid pair of
      speakers. */
  lemma {:induction false} WeightCountsTransitions(rows: seq<Row>, mostFrequent: seq<string>, e: Edge, n: nat)
    requires n <= |rows|
    requires "" !in mostFrequent
    ensures TransitionCount(rows, mostFrequent, e, n) == |TransitionRows(rows, mostFrequent, e, n)|
  {
    if n == 0 {
      assert TransitionRows(rows, mostFrequent, e, 0) == {};
    } else {
      WeightCountsTransitions(rows, mostFrequent, e, n - 1);
      InteractsIsTransition(rows, mostFrequent, e, n - 1);
      TransitionRowsStep(rows, mostFrequent, e, n);
      assert n - 1 !in TransitionRows(rows, mostFrequent, e, n - 1);
    }
  }

  /** No group word occurs in a name made only of other letters. */
  lemma NoStopwordIn(c: string)
    requires forall k :: 0 <= k < |c| ==> c[k] !in "od"
    requires forall k :: 0 < k < |c| ==> c[k - 1] != 'l' || c[k] != 'l'
    ensures !HasCharacterStopword(c)
  {
    forall w, i: nat | w in CharacterStopwords
      ensures !OccursAt(w, c, i)
    {
      if i + |w| <= |c| {
        var window := c[i..i + |w|];
        if w == "all" {
          assert window[1] == c[i + 1] && window[2] == c[i + 2];
        } else if w == "others" {
          assert window[0] == c[i];
        } else if w == "ponies" {
          assert window[1] == c[i + 1];
        } else {
          assert window[2] == c[i + 2];
        }
      }
    }
  }

  /** Three rows: two in the first episode, one in the second, by two
      listed speakers, give exactly one edge, of weight 1. */
  lemma WorkedExample()
    ensures var rows := [Row("ep1", "twilight", "hi"), Row("ep1", "applejack", "hey"), Row("ep2", "twilight", "yo")];
            forall e :: TransitionCount(rows, ["twilight", "applejack"], e, 3)
                        == if e == {"twilight", "applejack"} then 1 else 0
  {
    var rows := [Row("ep1", "twilight", "hi"), Row("ep1", "applejack", "hey"), Row("ep2", "twilight", "yo")];
    var top := ["twilight", "applejack"];
    LowerOfLowercase("twilight");
    LowerOfLowercase("applejack");
    NoStopwordIn("twilight");
    NoStopwordIn("applejack");
    assert SpeakerBefore(rows, 0) == "";
    assert SpeakerBefore(rows, 1) == "twilight";
    assert SpeakerBefore(rows, 2) == "";
    assert !Interacts(rows, top, 0);
    assert Interacts(rows, top, 1);
    assert !Interacts(rows, top, 2);
    assert EdgeAt(rows, 1) == {"twilight", "applejack"};
    forall e
      ensures TransitionCount(rows, top, e, 3) == if e == {"twilight", "applejack"} then 1 else 0
    {
      assert TransitionCount(rows, top, e, 1) == 0;
      assert TransitionCount(rows, top, e, 2) == if e == {"twilight", "applejack"} then 1 else 0;
      assert TransitionCount(rows, top, e, 3) == TransitionCount(rows, top, e, 2);
    }
  }

  /** The same rows make `add_edge("applejack", "twilight")` the only call,
      so applejack is added before twilight and the export lists the edge
      under applejack. */
  lemma NodeOrderExample()
    ensures var rows := [Row("ep1", "twilight", "hi"), Row("ep1", "applejack", "hey"), Row("ep2", "twilight", "yo")];
            NodesAfter(rows, ["twilight", "applejack"], 3) == ["applejack", "twilight"]
  {
    var rows := [Row("ep1", "twilight", "hi"), Row("ep1", "applejack", "hey"), Row("ep2", "twilight", "yo")];
    var top := ["twilight", "applejack"];
    LowerOfLowercase("twilight");
    LowerOfLowercase("applejack");
    NoStopwordIn("twilight");
    NoStopwordIn("applejack");
    assert SpeakerBefore(rows, 0) == "";
    assert SpeakerBefore(rows, 1) == "twilight";
    assert SpeakerBefore(rows, 2) == "";
    assert !Interacts(rows, top, 0);
    assert Interacts(rows, top, 1);
    assert !Interacts(rows, top, 2);
    assert NodesAfter(rows, top, 1) == [];
    assert NodesAfter(rows, top, 2) == ["applejack", "twilight"];
  }

  // ---------------------------------------------------------------------
  // The graph object

  /** Both endpoints of `e` are nodes. */
  ghost predicate EndsAreNodes(e: Edge, nodes: seq<string>) {
    forall x :: x in e ==> x in nodes
  }

  /** The node list after `add_edge(u, v)`: `u`, then `v`, appended when
      not yet present. */
  function Appended(nodes: seq<string>, u: string, v: string): seq<string> {
    nodes + (if u in nodes then [] else [u]) + (if v in nodes || v == u then [] else [v])
  }

  /** Adding an edge whose endpoints are both present adds no node. */
  lemma AppendedPresent(nodes: seq<string>, u: string, v: string)
    requires u in nodes && v in nodes
    ensures Appended(nodes, u, v) == nodes
  {
  }

  /** The networkx graph as the script uses it: the nodes in insertion
      order and each edge's `weight` attribute. */
  class Graph {
    var nodes: seq<string>
    var weight: map<Edge, nat>

    ghost predicate Valid()
      reads this
    {
      && (forall e :: e in weight ==> weight[e] >= 1)
      && Distinct(nodes)
      && (forall e :: e in weight ==> EndsAreNodes(e, nodes))
      && (forall i :: 0 <= i < |nodes| ==> exists e :: e in weight && nodes[i] in e)
    }

    /** `nx.Graph()`: no nodes, no edges. */
    constructor ()
      ensures Valid()
      ensures nodes == [] && weight == map[]
    {
      nodes := [];
      weight := map[];
    }

    /** `has_edge(u, v)`. */
    predicate HasEdge(u: string, v: string)
      reads this
      ensures HasEdge(u, v) <==> {v, u} in weight
    {
      assert {u, v} == {v, u};
      {u, v} in weight
    }

    /** `add_edge(u, v, weight=1)`: adds the endpoints that are new, in
        that order, and sets the edge's weight to 1. */
    method AddEdge(u: string, v: string)
      requires Valid()
      modifies this
      ensures Valid()
      ensures weight == old(weight)[{u, v} := 1]
      ensures nodes == Appended(old(nodes), u, v)
    {
      if u !in nodes {
        nodes := nodes + [u];
      }
      if v !in nodes {
        nodes := nodes + [v];
      }
      weight := weight[{u, v} := 1];
      forall i | 0 <= i < |nodes|
        ensures exists e :: e in weight && nodes[i] in e
      {
        if nodes[i] == u || nodes[i] == v {
          assert {u, v} in weight;
        } else {
          var e :| e in old(weight) && nodes[i] in e;
          assert e in weight;
        }
      }
    }

    /** The body of the `if is_valid_interaction(...)` branch: the weight of
        an existing edge goes up by 1 and the nodes stay; a missing edge is
        added with weight 1 and its new endpoints are appended. */
    method Strengthen(u: string, v: string)
      requires Valid()
      modifies this
      ensures Valid()
      ensures {u, v} in old(weight) ==> weight == old(weight)[{u, v} := old(weight)[{u, v}] + 1]
      ensures {u, v} in old(weight) ==> nodes == old(nodes)
      ensures {u, v} !in old(weight) ==> weight == old(weight)[{u, v} := 1]
      ensures {u, v} !in old(weight) ==> nodes == Appended(old(nodes), u, v)
    {
      if HasEdge(u, v) {
        assert {v, u} == {u, v};
        IncrementWeight(u, v);
      } else {
        AddEdge(u, v);
      }
    }

    /** `self[u][v]['weight'] += 1` on an existing edge. */
    method IncrementWeight(u: string, v: string)
      requires Valid()
      requires {u, v} in weight
      modifies this
      ensures Valid()
      ensures weight == old(weight)[{u, v} := old(weight)[{u, v}] + 1]
      ensures nodes == old(nodes)
    {
      weight := weight[{u, v} := weight[{u, v}] + 1];
      forall i | 0 <= i < |nodes|
        ensures exists e :: e in weight && nodes[i] in e
      {
        var e :| e in old(weight) && nodes[i] in e;
        assert e in weight;
      }
    }

    /** The adjacency dictionary written to JSON: `dict(g.nodes)`, then
        `network[u][v] = w` for each edge `(u, v, w)` of `g.edges`, which
        reports each edge once, from its earlier-added endpoint. Every node
        is a key; each edge's weight sits under exactly one endpoint. */
    method Export() returns (network: map<string, map<string, nat>>)
      requires Valid()
      ensures forall x :: x in network <==> x in nodes
      ensures forall u, v :: u in network ==> (v in network[u] <==> Precedes(nodes, u, v) && {u, v} in weight)
      ensures forall u, v :: u in network && v in network[u] ==> network[u][v] == weight[{u, v}]
      ensures forall u, v :: u in network && v in network && u != v && {u, v} in weight ==>
                (v in network[u]) != (u in network[v])
    {
      network := ExportRows(nodes, weight);
      ExportIsOncePerEdge(nodes, weight);
    }
  }

  /** The export's outer loop, over the nodes in insertion order. */
  method ExportRows(nodes: seq<string>, weight: map<Edge, nat>) returns (network: map<string, map<string, nat>>)
    ensures network == ExportedAt(nodes, weight, |nodes|, |nodes|)
  {
    network := map x | x in nodes :: map[];
    var i := 0;
    while i < |nodes|
      invariant 0 <= i <= |nodes|
      invariant network == ExportedAt(nodes, weight, i, i)
    {
      network := ExportRow(nodes, weight, network, i);
      i := i + 1;
    }
  }

  /** One pass of the export over the neighbours of `nodes[i]`: each edge
      to a node at position `i` or later is written under `nodes[i]`. */
  method ExportRow(nodes: seq<string>, weight: map<Edge, nat>, network: map<string, map<string, nat>>, i: nat)
    returns (network': map<string, map<string, nat>>)
    requires i < |nodes|
    requires network == ExportedAt(nodes, weight, i, i)
    ensures network' == ExportedAt(nodes, weight, i + 1, i + 1)
  {
    network' := network;
    var j := i;
    while j < |nodes|
      invariant i <= j <= |nodes|
      invariant network' == ExportedAt(nodes, weight, i, j)
    {
      ExportedAtKeys(nodes, weight, i, j);
      var u, v := nodes[i], nodes[j];
      if {u, v} in weight {
        network' := network'[u := network'[u][v := weight[{u, v}]]];
      }
      j := j + 1;
    }
  }

  /** The dictionary the export has built before position (i, j): row `i'`
      has been written for every `i' < i`, and row `i` up to column `j`. */
  ghost function ExportedAt(nodes: seq<string>, weight: map<Edge, nat>, i: nat, j: nat): map<string, map<string, nat>>
    requires i <= j <= |nodes|
    decreases i, j
  {
    if i < j then
      var network, u, v := ExportedAt(nodes, weight, i, j - 1), nodes[i], nodes[j - 1];
      if {u, v} in weight && u in network then network[u := network[u][v := weight[{u, v}]]] else network
    else if 0 < i then
      ExportedAt(nodes, weight, i - 1, |nodes|)
    else
      map x | x in nodes :: map[]
  }

  /** The export never adds or removes a key. */
  lemma {:induction false} ExportedAtKeys(nodes: seq<string>, weight: map<Edge, nat>, i: nat, j: nat)
    requires i <= j <= |nodes|
    ensures forall x :: x in ExportedAt(nodes, weight, i, j) <==> x in nodes
    decreases i, j
  {
    if i < j {
      ExportedAtKeys(nodes, weight, i, j - 1);
    } else if 0 < i {
      ExportedAtKeys(nodes, weight, i - 1, |nodes|);
    }
  }

  /** Node names are distinct. */
  ghost predicate Distinct(nodes: seq<string>) {
    forall i, j :: 0 <= i < j < |nodes| ==> nodes[i] != nodes[j]
  }

  /** `u` was added no later than `v`. */
  ghost predicate Precedes(nodes: seq<string>, u: string, v: string) {
    exists i, j :: 0 <= i <= j < |nodes| && nodes[i] == u && nodes[j] == v
  }

  /** `v` is listed under the key `u`. */
  ghost predicate Listed(network: map<string, map<string, nat>>, u: string, v: string) {
    u in network && v in network[u]
  }

  /** The edge between positions `a <= b` has been reported if `a` comes
      before row `i`, or is row `i` and `b` is before column `j`. */
  ghost predicate Reported(nodes: seq<string>, weight: map<Edge, nat>, a: nat, b: nat, i: nat, j: nat)
    requires a < |nodes| && b < |nodes|
  {
    (a < i || (a == i && b < j)) && a <= b && {nodes[a], nodes[b]} in weight
  }

  /** The cell for positions (a, b) before position (i, j): `nodes[b]` is
      listed under `nodes[a]` exactly when that edge has been reported, and
      then with the edge's weight. */
  ghost predicate CellDone(nodes: seq<string>, weight: map<Edge, nat>,
                           network: map<string, map<string, nat>>, a: nat, b: nat, i: nat, j: nat)
    requires a < |nodes| && b < |nodes|
  {
    && (Listed(network, nodes[a], nodes[b]) <==> Reported(nodes, weight, a, b, i, j))
    && (Listed(network, nodes[a], nodes[b]) ==> network[nodes[a]][nodes[b]] == weight[{nodes[a], nodes[b]}])
  }

  /** Every name listed under a key is a node. */
  lemma {:induction false} ExportedAtListed(nodes: seq<string>, weight: map<Edge, nat>, i: nat, j: nat, u: string, v: string)
    requires i <= j <= |nodes|
    ensures Listed(ExportedAt(nodes, weight, i, j), u, v) ==> v in nodes
    decreases i, j
  {
    if i < j {
      ExportedAtListed(nodes, weight, i, j - 1, u, v);
    } else if 0 < i {
      ExportedAtListed(nodes, weight, i - 1, |nodes|, u, v);
    }
  }

  /** Each cell of the dictionary before position (i, j) holds exactly the
      edges reported so far, with their weights. */
  lemma {:induction false} ExportedAtCell(nodes: seq<string>, weight: map<Edge, nat>, i: nat, j: nat, a: nat, b: nat)
    requires Distinct(nodes)
    requires i <= j <= |nodes|
    requires a < |nodes| && b < |nodes|
    ensures CellDone(nodes, weight, ExportedAt(nodes, weight, i, j), a, b, i, j)
    decreases i, j
  {
    if i < j {
      ExportedAtCell(nodes, weight, i, j - 1, a, b);
      ExportedAtKeys(nodes, weight, i, j - 1);
      if a != i {
        assert nodes[a] != nodes[i];
      } else if b != j - 1 {
        assert nodes[b] != nodes[j - 1];
      }
    } else if 0 < i {
      ExportedAtCell(nodes, weight, i - 1, |nodes|, a, b);
    }
  }

  /** From the positions of the nodes to their names: an edge is listed
      under its earlier endpoint, and only there, with its weight. */
  lemma ExportIsOncePerEdge(nodes: seq<string>, weight: map<Edge, nat>)
    requires Distinct(nodes)
    ensures var network := ExportedAt(nodes, weight, |nodes|, |nodes|);
            forall x :: x in network <==> x in nodes
    ensures var network := ExportedAt(nodes, weight, |nodes|, |nodes|);
            forall u, v :: u in network ==> (v in network[u] <==> Precedes(nodes, u, v) && {u, v} in weight)
    ensures var network := ExportedAt(nodes, weight, |nodes|, |nodes|);
            forall u, v :: u in network && v in network[u] ==> network[u][v] == weight[{u, v}]
    ensures var network := ExportedAt(nodes, weight, |nodes|, |nodes|);
            forall u, v :: u in network && v in network && u != v && {u, v} in weight ==>
              (v in network[u]) != (u in network[v])
  {
    var n := |nodes|;
    var network := ExportedAt(nodes, weight, n, n);
    ExportedAtKeys(nodes, weight, n, n);
    forall u, v | u in network
      ensures v in network[u] <==> Precedes(nodes, u, v) && {u, v} in weight
      ensures v in network[u] ==> network[u][v] == weight[{u, v}]
    {
      var a :| 0 <= a < n && nodes[a] == u;
      if v in network[u] {
        ExportedAtListed(nodes, weight, n, n, u, v);
        var b :| 0 <= b < n && nodes[b] == v;
        ExportedAtCell(nodes, weight, n, n, a, b);
      }
      if Precedes(nodes, u, v) && {u, v} in weight {
        var a', b :| 0 <= a' <= b < n && nodes[a'] == u && nodes[b] == v;
        assert a' == a;
        ExportedAtCell(nodes, weight, n, n, a, b);
      }
    }
    forall u, v | u in network && v in network && u != v && {u, v} in weight
      ensures (v in network[u]) != (u in network[v])
    {
      var a :| 0 <= a < n && nodes[a] == u;
      var b :| 0 <= b < n && nodes[b] == v;
      assert {v, u} == {u, v};
      ExportedAtCell(nodes, weight, n, n, a, b);
      ExportedAtCell(nodes, weight, n, n, b, a);
    }
  }

  // ---------------------------------------------------------------------
  // The row loop

  /** `get_interactions_graph` after the list of most frequent speakers is
      known: walks the rows in order, resets the previous speaker at each
      new episode title, and adds or strengthens the edge between the
      current and the previous speaker when they interact. The weight of
      each edge is its number of interactions. */
  method BuildInteractionsGraph(rows: seq<Row>, mostFrequent: seq<string>) returns (g: Graph)
    ensures fresh(g) && g.Valid()
    ensures forall e :: e in g.weight <==> TransitionCount(rows, mostFrequent, e, |rows|) > 0
    ensures forall e :: e in g.weight ==> g.weight[e] == TransitionCount(rows, mostFrequent, e, |rows|)
    ensures g.nodes == NodesAfter(rows, mostFrequent, |rows|)
  {
    g := new Graph();
    var previousCharacter, previousEpisode := "", "";
    for i := 0 to |rows|
      invariant g.Valid()
      invariant previousEpisode == (if i == 0 then "" else rows[i - 1].title)
      invariant previousCharacter == (if i == 0 then "" else Lower(rows[i - 1].pony))
      invariant CountedUpTo(g.weight, rows, mostFrequent, i)
      invariant g.nodes == NodesAfter(rows, mostFrequent, i)
    {
      if rows[i].title != previousEpisode {
        previousCharacter := "";
        previousEpisode := rows[i].title;
      }
      var character := Lower(rows[i].pony);
      assert previousCharacter == SpeakerBefore(rows, i);
      RecordRow(g, rows, mostFrequent, i, character, previousCharacter);
      previousCharacter := character;
    }
  }

  /** One row of the loop after the episode check: strengthen the edge
      between the speaker and the previous speaker when they interact. The
      counts and the node list move from row `i` to row `i + 1`. */
  method RecordRow(g: Graph, rows: seq<Row>, mostFrequent: seq<string>, i: nat,
                   character: string, previousCharacter: string)
    requires i < |rows| && g.Valid()
    requires character == Lower(rows[i].pony) && previousCharacter == SpeakerBefore(rows, i)
    requires CountedUpTo(g.weight, rows, mostFrequent, i)
    requires g.nodes == NodesAfter(rows, mostFrequent, i)
    modifies g
    ensures g.Valid()
    ensures CountedUpTo(g.weight, rows, mostFrequent, i + 1)
    ensures g.nodes == NodesAfter(rows, mostFrequent, i + 1)
  {
    CountedStep(g.weight, rows, mostFrequent, i);
    NodesStep(rows, mostFrequent, i);
    if IsValidInteraction(character, previousCharacter, mostFrequent) {
      if {character, previousCharacter} in g.weight {
        assert EndsAreNodes({character, previousCharacter}, g.nodes);
        AppendedPresent(g.nodes, character, previousCharacter);
      }
      g.Strengthen(character, previousCharacter);
    }
  }

  /** The node list after the first `i` rows: each interacting row appends
      its speaker, then the previous speaker, when they are new. */
  ghost function NodesAfter(rows: seq<Row>, mostFrequent: seq<string>, i: nat): seq<string>
    requires i <= |rows|
  {
    if i == 0 then []
    else if Interacts(rows, mostFrequent, i - 1) then
      Appended(NodesAfter(rows, mostFrequent, i - 1), Lower(rows[i - 1].pony), SpeakerBefore(rows, i - 1))
    else NodesAfter(rows, mostFrequent, i - 1)
  }

  lemma NodesStep(rows: seq<Row>, mostFrequent: seq<string>, i: nat)
    requires i < |rows|
    ensures Interacts(rows, mostFrequent, i) ==>
              NodesAfter(rows, mostFrequent, i + 1)
              == Appended(NodesAfter(rows, mostFrequent, i), Lower(rows[i].pony), SpeakerBefore(rows, i))
    ensures !Interacts(rows, mostFrequent, i) ==> NodesAfter(rows, mostFrequent, i + 1) == NodesAfter(rows, mostFrequent, i)
  {
  }

  /** The weights after the first `i` rows are exactly the positive
      transition counts. */
  ghost predicate CountedUpTo(weight: map<Edge, nat>, rows: seq<Row>, mostFrequent: seq<string>, i: nat)
    requires i <= |rows|
  {
    && (forall e :: e in weight <==> TransitionCount(rows, mostFrequent, e, i) > 0)
    && (forall e :: e in weight ==> weight[e] == TransitionCount(rows, mostFrequent, e, i))
  }

  /** Row `i` leaves the weights alone unless it interacts; then its edge
      is created with weight 1 or gains 1. */
  lemma CountedStep(weight: map<Edge, nat>, rows: seq<Row>, mostFrequent: seq<string>, i: nat)
    requires i < |rows|
    requires CountedUpTo(weight, rows, mostFrequent, i)
    ensures !Interacts(rows, mostFrequent, i) ==> CountedUpTo(weight, rows, mostFrequent, i + 1)
    ensures Interacts(rows, mostFrequent, i) && EdgeAt(rows, i) in weight
            ==> CountedUpTo(weight[EdgeAt(rows, i) := weight[EdgeAt(rows, i)] + 1], rows, mostFrequent, i + 1)
    ensures Interacts(rows, mostFrequent, i) && EdgeAt(rows, i) !in weight
            ==> CountedUpTo(weight[EdgeAt(rows, i) := 1], rows, mostFrequent, i + 1)
  {
  }
}
