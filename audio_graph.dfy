/**
 * The connection contract shared by every `AudioNode`. The edges themselves
 * live in the audio backend, which this model does not see; `Graph` is an
 * abstraction of that backend state, passed in and returned explicitly.
 * Connecting the same pair twice records the edge twice; the nodes each
 * node feeds are the same as if the repeat were ignored.
 */
module AudioGraph {

  /** The node types that implement `AudioNode`. */
  datatype NodeKind = Destination | Gain | Panner | BufferSource | BiquadFilter

  /** The identity of one node. */
  datatype NodeRef = NodeRef(kind: NodeKind, id: nat)

  /** A directed connection from `src`'s output to `dst`'s input. */
  datatype Edge = Edge(src: NodeRef, dst: NodeRef)

  /** The backend's connections, oldest first. */
  datatype Graph = Graph(edges: seq<Edge>)

  /** The nodes `n` feeds. */
  function Outgoing(g: Graph, n: NodeRef): set<NodeRef> {
    set e | e in g.edges && e.src == n :: e.dst
  }

  /** How many times the edge `e` is recorded. */
  function Multiplicity(g: Graph, e: Edge): nat {
    multiset(g.edges)[e]
  }

  /**
   * `connect`: adds one edge from `from` to `to`, keeps every existing edge,
   * and returns the sink it was given so that calls can be chained.
   */
  function Connect(g: Graph, from: NodeRef, to: NodeRef): (r: (Graph, NodeRef))
    ensures r.1 == to
    ensures Outgoing(r.0, from) == Outgoing(g, from) + {to}
    ensures forall e :: Multiplicity(r.0, e) == Multiplicity(g, e) + (if e == Edge(from, to) then 1 else 0)
  {
    (Graph(g.edges + [Edge(from, to)]), to)
  }

  /** The edges of `edges` that do not leave `n`, in their original order. */
  function WithoutOutgoing(edges: seq<Edge>, n: NodeRef): (r: seq<Edge>)
    ensures forall e :: e in r ==> e.src != n
    ensures forall e: Edge :: e.src != n ==> multiset(r)[e] == multiset(edges)[e]
    ensures |r| <= |edges|
  {
    if edges == [] then []
    else
      assert edges == [edges[0]] + edges[1..];
      if edges[0].src == n then WithoutOutgoing(edges[1..], n)
      else [edges[0]] + WithoutOutgoing(edges[1..], n)
  }

  /**
   * `disconnect`: removes every outgoing edge of `n` and no other edge;
   * edges into `n` stay.
   */
  function Disconnect(g: Graph, n: NodeRef): (r: Graph)
    ensures Outgoing(r, n) == {}
    ensures forall e: Edge :: e.src != n ==> Multiplicity(r, e) == Multiplicity(g, e)
    ensures forall e: Edge :: e.src == n ==> Multiplicity(r, e) == 0
  {
    Graph(WithoutOutgoing(g.edges, n))
  }

  /** Removing the edges of a node that has none leaves the list as it was. */
  lemma {:induction false} WithoutOutgoingNone(edges: seq<Edge>, n: NodeRef)
    requires forall e :: e in edges ==> e.src != n
    ensures WithoutOutgoing(edges, n) == edges
  {
    if edges != [] {
      WithoutOutgoingNone(edges[1..], n);
      assert edges == [edges[0]] + edges[1..];
    }
  }

  /** Edges appended after the outgoing ones are filtered independently. */
  lemma {:induction false} WithoutOutgoingAppend(a: seq<Edge>, b: seq<Edge>, n: NodeRef)
    ensures WithoutOutgoing(a + b, n) == WithoutOutgoing(a, n) + WithoutOutgoing(b, n)
  {
    if a == [] {
      assert a + b == b;
    } else {
      var ab := a + b;
      assert ab != [] && ab[0] == a[0] && ab[1..] == a[1..] + b;
      WithoutOutgoingAppend(a[1..], b, n);
      if a[0].src != n {
        calc {
          WithoutOutgoing(ab, n);
          [a[0]] + WithoutOutgoing(a[1..] + b, n);
          [a[0]] + (WithoutOutgoing(a[1..], n) + WithoutOutgoing(b, n));
          ([a[0]] + WithoutOutgoing(a[1..], n)) + WithoutOutgoing(b, n);
        }
      }
    }
  }

  /** Disconnecting a node with no outgoing edges is a no-op, not an error. */
  lemma DisconnectIdle(g: Graph, n: NodeRef)
    requires Outgoing(g, n) == {}
    ensures Disconnect(g, n) == g
  {
    forall e | e in g.edges ensures e.src != n {
      assert e.src == n ==> e.dst in Outgoing(g, n);
    }
    WithoutOutgoingNone(g.edges, n);
  }

  /** Disconnecting twice is the same as disconnecting once. */
  lemma DisconnectIdempotent(g: Graph, n: NodeRef)
    ensures Disconnect(Disconnect(g, n), n) == Disconnect(g, n)
  {
    DisconnectIdle(Disconnect(g, n), n);
  }

  /** A later `disconnect` of the source undoes a `connect` exactly. */
  lemma DisconnectAfterConnect(g: Graph, from: NodeRef, to: NodeRef)
    ensures Disconnect(Connect(g, from, to).0, from) == Disconnect(g, from)
  {
    WithoutOutgoingAppend(g.edges, [Edge(from, to)], from);
  }

  /**
   * Fan-out: a source connected to two sinks feeds both; after `disconnect`
   * it feeds neither, and every other node's connections are as before.
   */
  lemma FanOutThenDisconnect(g: Graph, src: NodeRef, a: NodeRef, b: NodeRef)
    ensures var g1 := Connect(Connect(g, src, a).0, src, b).0;
      && {a, b} <= Outgoing(g1, src)
      && Outgoing(Disconnect(g1, src), src) == {}
      && forall e: Edge :: e.src != src ==> Multiplicity(Disconnect(g1, src), e) == Multiplicity(g, e)
  {
  }

  /**
   * Chaining on the returned sink, as in `source.connect(&panner)` followed by
   * `panner.connect(&destination)`, wires a path source -> panner -> destination.
   */
  lemma ChainedConnect(g: Graph, source: NodeRef, panner: NodeRef, destination: NodeRef)
    ensures var (g1, sink) := Connect(g, source, panner);
      var (g2, last) := Connect(g1, sink, destination);
      && panner in Outgoing(g2, source)
      && destination in Outgoing(g2, panner)
      && last == destination
  {
  }

  /**
   * A `connect` of a pair that is already connected changes no node's set of
   * sinks; only that edge's multiplicity grows.
   */
  lemma ConnectRepeated(g: Graph, from: NodeRef, to: NodeRef)
    requires Edge(from, to) in g.edges
    ensures forall n :: Outgoing(Connect(g, from, to).0, n) == Outgoing(g, n)
    ensures Multiplicity(Connect(g, from, to).0, Edge(from, to)) >= 2
  {
  }
}
