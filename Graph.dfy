/** The edge record that flows through every stage (GraphElemTuple: source
    i, destination j, weight w) and the weight bits carried with it. */
module Graph {

  /** A GraphWeight (an IEEE-754 double) as its 64-bit pattern: weights are
      carried through the conversion unchanged and never computed with. */
  type Weight = bv64

  const ZeroWeight: Weight := 0

  /** std::fabs on a double clears the sign bit and keeps the other 63 bits. */
  function Fabs(w: Weight): (r: Weight)
    ensures r & 0x8000_0000_0000_0000 == 0
    ensures r | (w & 0x8000_0000_0000_0000) == w
  {
    w & 0x7FFF_FFFF_FFFF_FFFF
  }

  datatype Edge = Edge(i: int, j: int, w: Weight)

  /** The same edge in the other direction, with the same weight. */
  function Reverse(e: Edge): Edge
  {
    Edge(e.j, e.i, e.w)
  }

  /** Both endpoints are vertex ids of a graph with V vertices. */
  predicate InGraph(e: Edge, V: int)
  {
    0 <= e.i < V && 0 <= e.j < V
  }
}
