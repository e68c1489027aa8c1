/** The value types of topogmesh/mesh.py: a vertex is a point, a triangle is three
    vertex indices, and a mesh is a vertex list paired with a triangle list.
    Each Python class only stores its constructor arguments and hands them back
    through read-only accessors, so each becomes a datatype whose destructors are
    those accessors. */
module MeshTypes {

  /** A 3D point; coordinates are model units (floating point in the source). */
  datatype Vertex = Vertex(x: real, y: real, z: real)

  /** Three indices into a mesh's vertex list; their order is the winding. */
  datatype Triangle = Triangle(v1: int, v2: int, v3: int)

  /** An ordered vertex list and an ordered triangle list; `vertices` and
      `triangles` are the two read-only properties of the source class. */
  datatype Mesh = Mesh(vertices: seq<Vertex>, triangles: seq<Triangle>)

  /** The constructor keeps the three indices, in the order given. */
  lemma TriangleKeepsIndices(v1: int, v2: int, v3: int)
    ensures Triangle(v1, v2, v3).v1 == v1
    ensures Triangle(v1, v2, v3).v2 == v2
    ensures Triangle(v1, v2, v3).v3 == v3
  {
  }

  /** The constructor keeps the three coordinates. */
  lemma VertexKeepsCoordinates(x: real, y: real, z: real)
    ensures Vertex(x, y, z).x == x && Vertex(x, y, z).y == y && Vertex(x, y, z).z == z
  {
  }

  /** The accessors give back exactly the lists the mesh was built from, and a
      mesh is nothing more than those two lists. */
  lemma MeshAccessors(vs: seq<Vertex>, ts: seq<Triangle>, m: Mesh)
    ensures Mesh(vs, ts).vertices == vs && Mesh(vs, ts).triangles == ts
    ensures Mesh(m.vertices, m.triangles) == m
  {
  }
}
