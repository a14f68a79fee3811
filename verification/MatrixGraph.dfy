/**
 The adjacency-matrix graph that test_progs/bfs.c and the depth-first half of
 test_progs/graph.c build in the same way: vertex records behind pointers, and a matrix.
 */
module MatrixGraph {
  import opened Counting
  import opened Reachability
  import opened SearchOrder

  class Vertex {
    const name: char
    var visited: bool
    constructor (name: char)
      ensures this.name == name && !visited
    {
      this.name := name;
      visited := false;
    }
  }

  class Graph {
    const lstVertices: array<Vertex?>
    const adjMatrix: array2<int>
    var vertexCount: nat
    ghost var verts: seq<Vertex>
    // The vertices marked so far, in order: unlike the flags, never reset.
    ghost var log: seq<nat>

    ghost predicate Valid()
      reads this, lstVertices
    {
      && lstVertices.Length == adjMatrix.Length0 == adjMatrix.Length1
      && vertexCount == |verts| <= lstVertices.Length
      && (forall i :: 0 <= i < |verts| ==> lstVertices[i] == verts[i])
      && (forall i, j :: 0 <= i < j < |verts| ==> verts[i] != verts[j])
    }

    ghost function Visited(): set<nat>
      reads this, verts
    {
      set i: nat | i < |verts| && verts[i].visited
    }

    /** The pairs with a 1 in the matrix, whether or not their vertices have been added. */
    ghost function Drawn(): Edges
      reads adjMatrix
    {
      set u: nat, w: nat | u < adjMatrix.Length0 && w < adjMatrix.Length1 && adjMatrix[u, w] == 1 :: (u, w)
    }

    /** An edge is a drawn pair whose two vertices have been added. */
    ghost function E(): (e: Edges)
      requires Valid()
      reads this, lstVertices, adjMatrix
      ensures forall u, w :: (u, w) in e <==> (u, w) in Drawn() && u < vertexCount && w < vertexCount
    {
      set u: nat, w: nat | u < vertexCount && w < vertexCount && adjMatrix[u, w] == 1 :: (u, w)
    }

    /** No vertices, and the matrix filled with zeros. */
    constructor (max: nat)
      ensures Valid() && vertexCount == 0 && lstVertices.Length == max && fresh(lstVertices) && fresh(adjMatrix)
      ensures Visited() == {} && log == [] && Drawn() == {}
    {
      lstVertices := new Vertex?[max](_ => null);
      adjMatrix := new int[max, max]((_, _) => 0);
      vertexCount := 0;
      verts := [];
      log := [];
    }

    /** The pairs drawn to the new vertex become edges; earlier vertices and their edges stay. */
    method AddVertex(name: char)
      requires Valid() && vertexCount < lstVertices.Length
      modifies this`vertexCount, this`verts, lstVertices
      ensures Valid() && vertexCount == old(vertexCount) + 1
      ensures verts[..old(vertexCount)] == old(verts)
      ensures fresh(verts[old(vertexCount)]) && verts[old(vertexCount)].name == name
      ensures forall v :: v in verts ==> v in old(verts) || fresh(v)
      ensures Visited() == old(Visited()) && Drawn() == old(Drawn())
      ensures forall u, w :: u < old(vertexCount) && w < old(vertexCount) ==> ((u, w) in E() <==> (u, w) in old(E()))
    {
      var v := new Vertex(name);
      lstVertices[vertexCount] := v;
      verts := verts + [v];
      vertexCount := vertexCount + 1;
    }

    /** Both directions are drawn and no other pair; they are edges at once if both vertices exist. */
    method AddEdge(start: nat, end: nat)
      requires Valid() && start < lstVertices.Length && end < lstVertices.Length
      modifies adjMatrix
      ensures Valid() && Drawn() == old(Drawn()) + {(start, end), (end, start)}
      ensures E() == old(E()) + if start < vertexCount && end < vertexCount then {(start, end), (end, start)} else {}
    {
      adjMatrix[start, end] := 1;
      adjMatrix[end, start] := 1;
    }

    /** The first unvisited neighbour, or -1 when there is none. */
    method GetAdjUnvisitedVertex(u: nat) returns (r: int)
      requires Valid() && u < vertexCount
      ensures r == -1 ==> forall w :: (u, w) in E() ==> w in Visited()
      ensures r != -1 ==> 0 <= r < vertexCount && (u, r) in E() && r !in Visited()
      ensures r != -1 ==> forall w :: w < r && (u, w) in E() ==> w in Visited()
    {
      var i := 0;
      while i < vertexCount
        invariant 0 <= i <= vertexCount
        invariant forall w :: w < i && (u, w) in E() ==> w in Visited()
      {
        if adjMatrix[u, i] == 1 && lstVertices[i].visited == false {
          return i;
        }
        i := i + 1;
      }
      return -1;
    }

    method Mark(i: nat)
      requires Valid() && i < vertexCount
      modifies verts[i], this`log
      ensures Visited() == old(Visited()) + {i} && log == old(log) + [i]
    {
      lstVertices[i].visited := true;
      log := log + [i];
    }

    /** The closing loop of both searches. */
    method ResetVisited()
      requires Valid()
      modifies verts`visited
      ensures Visited() == {}
    {
      var i := 0;
      while i < vertexCount
        invariant 0 <= i <= vertexCount
        invariant forall j :: 0 <= j < i ==> !verts[j].visited
      {
        lstVertices[i].visited := false;
        i := i + 1;
      }
    }
  }

  /** main's five vertices. */
  method BuildVertices() returns (g: Graph)
    ensures fresh(g) && fresh(g.lstVertices) && fresh(g.adjMatrix) && fresh(g.verts)
    ensures g.Valid() && g.vertexCount == 5 == g.lstVertices.Length
    ensures g.Visited() == {} && g.log == [] && g.Drawn() == {}
  {
    hide *;
    g := new Graph(5);
    g.AddVertex('S');
    assert fresh(g.verts);
    g.AddVertex('A');
    assert fresh(g.verts);
    g.AddVertex('B');
    assert fresh(g.verts);
    g.AddVertex('C');
    assert fresh(g.verts);
    g.AddVertex('D');
    assert fresh(g.verts);
  }

  /** main's graph. */
  method BuildSource() returns (g: Graph)
    ensures fresh(g) && fresh(g.lstVertices) && fresh(g.adjMatrix) && fresh(g.verts)
    ensures g.Valid() && g.vertexCount == 5 && g.Visited() == {} && g.log == [] && g.E() == SourceGraph()
  {
    hide *;
    g := BuildVertices();
    AddThree(g, 0, 1, 0, 2, 0, 3);
    AddThree(g, 1, 4, 2, 4, 3, 4);
    AllDrawn(g);
  }

  method AddThree(g: Graph, a: nat, b: nat, c: nat, d: nat, x: nat, y: nat)
    requires g.Valid() && a < g.lstVertices.Length && b < g.lstVertices.Length && c < g.lstVertices.Length
    requires d < g.lstVertices.Length && x < g.lstVertices.Length && y < g.lstVertices.Length
    modifies g.adjMatrix
    ensures g.Valid() && g.Drawn() == old(g.Drawn()) + {(a, b), (b, a)} + {(c, d), (d, c)} + {(x, y), (y, x)}
  {
    hide *;
    g.AddEdge(a, b);
    g.AddEdge(c, d);
    g.AddEdge(x, y);
  }

  lemma AllDrawn(g: Graph)
    requires g.Valid() && g.vertexCount == 5
    requires g.Drawn() == {} + {(0, 1), (1, 0)} + {(0, 2), (2, 0)} + {(0, 3), (3, 0)} + {(1, 4), (4, 1)}
                          + {(2, 4), (4, 2)} + {(3, 4), (4, 3)}
    ensures g.E() == SourceGraph()
  {
  }
}
