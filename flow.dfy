/** The flow-network vocabulary the elimination code hands to its max-flow library:
    capacitated directed edges, a network with a fixed vertex count, and the two results
    of a max-flow computation it reads back (the flow value and the source side of the minimum cut).
    The solver itself is not modelled: it is an arbitrary function of the network. */
module Flow {

  /** Vertex numbers of the source and the sink in every network built here. */
  const Source: int := 0
  const Sink: int := 1

  /** A directed edge `from -> to` with an integer capacity. */
  datatype FlowEdge = FlowEdge(from: int, to: int, capacity: int)

  /** A network over the vertices `0 .. vertices - 1`, edges in the order they were added. */
  datatype FlowNetwork = FlowNetwork(vertices: int, edges: seq<FlowEdge>)

  /** What the elimination code reads from a finished max-flow run: the value of the
      maximum flow, and the vertices on the source side of the minimum cut. */
  datatype MaxFlow = MaxFlow(value: int, inCut: set<int>)

  /** A max-flow solver run on a network from a source to a sink. */
  type Solver = (FlowNetwork, int, int) -> MaxFlow

  /** Total capacity of the edges in `edges` that leave the source. */
  function SourceCapacity(edges: seq<FlowEdge>): int {
    if edges == [] then 0
    else
      var e := edges[|edges| - 1];
      SourceCapacity(edges[..|edges| - 1]) + (if e.from == Source then e.capacity else 0)
  }

  /** The source capacity of two edge lists added one after the other is the sum of theirs. */
  lemma {:induction false} SourceCapacityAppend(a: seq<FlowEdge>, b: seq<FlowEdge>)
    ensures SourceCapacity(a + b) == SourceCapacity(a) + SourceCapacity(b)
    decreases |b|
  {
    if b != [] {
      var k := |b| - 1;
      assert (a + b)[..|a + b| - 1] == a + b[..k];
      SourceCapacityAppend(a, b[..k]);
    } else {
      assert a + b == a;
    }
  }

  /** Edges none of which leaves the source add nothing to the source capacity. */
  lemma {:induction false} SourceCapacityNone(edges: seq<FlowEdge>)
    requires forall k :: 0 <= k < |edges| ==> edges[k].from != Source
    ensures SourceCapacity(edges) == 0
    decreases |edges|
  {
    if edges != [] {
      SourceCapacityNone(edges[..|edges| - 1]);
    }
  }
}
