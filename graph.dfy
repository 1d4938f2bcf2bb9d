/** A weighted graph container (graph.py).

    The graph keeps two tables: `adjacent`, from each vertex to the set of
    its neighbours, and `weight`, from each ordered pair (from, to) to the
    weight of that edge. Vertices are meant to be 0 .. n-1, one adjacency
    entry each. */
module WeightedGraph {

  /** The two tables of a graph, as values. */
  datatype Tables = Tables(adjacent: map<int, set<int>>, weight: map<(int, int), int>)

  /** What iterating edges() produces: every edge, or the edges yielded
      before the lookup of a missing vertex raised KeyError. */
  datatype EdgeListing =
    | Complete(edges: seq<(int, int)>)
    | KeyError(yielded: seq<(int, int)>, missing: int)

  /** The neighbours of u; the empty set that `setdefault` installs when u
      has no entry yet. */
  function NeighboursOf(adjacent: map<int, set<int>>, u: int): set<int>
  {
    if u in adjacent then adjacent[u] else {}
  }

  /** addDirectedEdge on the tables: u gains v as a neighbour (u gains an
      entry if it had none) and the pair (u, v) gets weight w; every other
      entry is left as it was. */
  function AddDirected(t: Tables, u: int, v: int, w: int): (r: Tables)
    ensures r.adjacent.Keys == t.adjacent.Keys + {u}
    ensures r.adjacent[u] == NeighboursOf(t.adjacent, u) + {v}
    ensures forall x :: x in t.adjacent && x != u ==> r.adjacent[x] == t.adjacent[x]
    ensures r.weight.Keys == t.weight.Keys + {(u, v)} && r.weight[(u, v)] == w
    ensures forall e :: e in t.weight && e != (u, v) ==> r.weight[e] == t.weight[e]
  {
    Tables(t.adjacent[u := NeighboursOf(t.adjacent, u) + {v}], t.weight[(u, v) := w])
  }

  /** numVertices() grows by one exactly when addDirectedEdge is given a
      from-vertex without an entry (setdefault adds it). */
  lemma AddDirectedVertexCount(t: Tables, u: int, v: int, w: int)
    ensures |AddDirected(t, u, v, w).adjacent| == if u in t.adjacent then |t.adjacent| else |t.adjacent| + 1
  {
    var keys := AddDirected(t, u, v, w).adjacent.Keys;
    if u in t.adjacent {
      assert keys == t.adjacent.Keys;
    } else {
      assert keys == t.adjacent.Keys + {u};
    }
  }

  /** addUndirectedEdge on the tables: the edge in both directions, with the
      same weight. */
  function AddUndirected(t: Tables, u: int, v: int, w: int): (r: Tables)
    ensures r.adjacent.Keys == t.adjacent.Keys + {u, v}
    ensures r.adjacent[u] == NeighboursOf(t.adjacent, u) + {v}
    ensures r.adjacent[v] == NeighboursOf(t.adjacent, v) + {u}
    ensures forall x :: x in t.adjacent && x != u && x != v ==> r.adjacent[x] == t.adjacent[x]
    ensures r.weight.Keys == t.weight.Keys + {(u, v), (v, u)}
    ensures r.weight[(u, v)] == w && r.weight[(v, u)] == w
    ensures forall e :: e in t.weight && e != (u, v) && e != (v, u) ==> r.weight[e] == t.weight[e]
  {
    AddDirected(AddDirected(t, u, v, w), v, u, w)
  }

  /** Adding the same directed edge twice leaves the neighbour sets as one
      addition does; the weight stored is the one given last. */
  lemma AddDirectedTwice(t: Tables, u: int, v: int, w1: int, w2: int)
    ensures AddDirected(AddDirected(t, u, v, w1), u, v, w2) == AddDirected(t, u, v, w2)
  {
    var once := AddDirected(t, u, v, w2);
    var twice := AddDirected(AddDirected(t, u, v, w1), u, v, w2);
    assert twice.adjacent == once.adjacent;
    assert twice.weight == once.weight;
  }

  /** Every neighbour of every vertex has a weight for that directed pair. */
  ghost predicate WeightsCover(t: Tables)
  {
    forall u, v :: u in t.adjacent && v in t.adjacent[u] ==> (u, v) in t.weight
  }

  /** Adding a directed edge keeps every neighbour weighted. */
  lemma AddDirectedKeepsWeightsCover(t: Tables, u: int, v: int, w: int)
    requires WeightsCover(t)
    ensures WeightsCover(AddDirected(t, u, v, w))
  {
    var r := AddDirected(t, u, v, w);
    forall x, y | x in r.adjacent && y in r.adjacent[x]
      ensures (x, y) in r.weight
    {
      if x != u {
        assert y in t.adjacent[x];
      } else if y != v {
        assert y in NeighboursOf(t.adjacent, u);
      }
    }
  }

  /** Adding an undirected edge keeps every neighbour weighted. */
  lemma AddUndirectedKeepsWeightsCover(t: Tables, u: int, v: int, w: int)
    requires WeightsCover(t)
    ensures WeightsCover(AddUndirected(t, u, v, w))
  {
    AddDirectedKeepsWeightsCover(t, u, v, w);
    AddDirectedKeepsWeightsCover(AddDirected(t, u, v, w), v, u, w);
  }

  /** The vertices 0 .. n-1 (n the number of adjacency entries) all have an
      adjacency entry: what `vertices()` and `edges()` rely on. */
  ghost predicate Contiguous(adjacent: map<int, set<int>>)
  {
    forall v :: 0 <= v < |adjacent| ==> v in adjacent
  }

  /** The vertices 0 .. n-1, as a set. */
  function Range(n: nat): (r: set<int>)
    ensures forall x :: x in r <==> 0 <= x < n
    ensures |r| == n
  {
    if n == 0 then {} else Range(n - 1) + {n - 1}
  }

  /** When 0 .. n-1 all have an entry, they are exactly the entries. */
  lemma KeysAreRange(adjacent: map<int, set<int>>)
    ensures Contiguous(adjacent) ==> forall v :: v in adjacent <==> 0 <= v < |adjacent|
  {
    if Contiguous(adjacent) {
      var range := Range(|adjacent|);
      assert range <= adjacent.Keys;
      assert adjacent.Keys == range + (adjacent.Keys - range);
      assert adjacent.Keys - range == {};
      forall v | v in adjacent
        ensures 0 <= v < |adjacent|
      {
        assert v !in adjacent.Keys - range;
      }
    }
  }

  /** An edge out of an existing vertex adds no vertex, so the vertices
      stay 0 .. n-1. */
  lemma AddDirectedKeepsVertices(t: Tables, u: int, v: int, w: int)
    requires Contiguous(t.adjacent) && u in t.adjacent
    ensures Contiguous(AddDirected(t, u, v, w).adjacent)
    ensures |AddDirected(t, u, v, w).adjacent| == |t.adjacent|
  {
    assert AddDirected(t, u, v, w).adjacent.Keys == t.adjacent.Keys;
  }

  /** The same for an undirected edge between two existing vertices. */
  lemma AddUndirectedKeepsVertices(t: Tables, u: int, v: int, w: int)
    requires Contiguous(t.adjacent) && u in t.adjacent && v in t.adjacent
    ensures Contiguous(AddUndirected(t, u, v, w).adjacent)
    ensures |AddUndirected(t, u, v, w).adjacent| == |t.adjacent|
  {
    AddDirectedKeepsVertices(t, u, v, w);
    AddDirectedKeepsVertices(AddDirected(t, u, v, w), v, u, w);
  }

  /** A non-empty set of vertices has a least element. */
  lemma {:induction false} HasLeast(s: set<int>)
    requires s != {}
    ensures exists m :: m in s && forall y :: y in s ==> m <= y
  {
    assert exists y :: y in s by {
      if forall y :: y !in s {
        assert false;
      }
    }
    var x :| x in s;
    var rest := s - {x};
    if rest != {} {
      HasLeast(rest);
      var m :| m in rest && forall y :: y in rest ==> m <= y;
      var least := if x < m then x else m;
      forall y | y in s ensures least <= y {
        assert y == x || y in rest;
      }
    } else {
      forall y | y in s ensures x <= y {
        assert y !in rest;
      }
    }
  }

  /** The least element of a non-empty set of vertices. */
  function SetMin(s: set<int>): (m: int)
    requires s != {}
    ensures m in s && forall x :: x in s ==> m <= x
  {
    HasLeast(s);
    var m :| m in s && forall y :: y in s ==> m <= y;
    m
  }

  /** A set of vertices listed in ascending order (graph.py iterates a
      Python set, whose order it does not rely on). */
  function Ascending(s: set<int>): (r: seq<int>)
    ensures forall x :: x in r <==> x in s
    ensures forall a, b :: 0 <= a < b < |r| ==> r[a] < r[b]
    decreases |s|
  {
    if s == {} then []
    else
      var m := SetMin(s);
      [m] + Ascending(s - {m})
  }

  /** The edges out of u, one pair (u, v) per neighbour v, in ascending v. */
  function EdgesOutOf(u: int, targets: seq<int>): (r: seq<(int, int)>)
    ensures |r| == |targets|
    ensures forall j :: 0 <= j < |r| ==> r[j] == (u, targets[j])
  {
    if targets == [] then [] else [(u, targets[0])] + EdgesOutOf(u, targets[1..])
  }

  /** The edges out of the vertices from .. n-1, vertex by vertex. */
  function EdgesFrom(adjacent: map<int, set<int>>, from: nat, n: nat): (r: seq<(int, int)>)
    requires forall x :: from <= x < n ==> x in adjacent
    ensures forall e :: e in r <==> from <= e.0 < n && e.0 in adjacent && e.1 in adjacent[e.0]
    ensures forall a, b :: 0 <= a < b < |r| ==>
              r[a].0 < r[b].0 || (r[a].0 == r[b].0 && r[a].1 < r[b].1)
    decreases n - from
  {
    if from >= n then []
    else
      var out := EdgesOutOf(from, Ascending(adjacent[from]));
      var rest := EdgesFrom(adjacent, from + 1, n);
      assert forall e :: e in out <==> e.0 == from && e.1 in adjacent[from] by {
        forall e | e in out ensures e.0 == from && e.1 in adjacent[from] {
          var j :| 0 <= j < |out| && out[j] == e;
        }
        forall e: (int, int) | e.0 == from && e.1 in adjacent[from] ensures e in out {
          var targets := Ascending(adjacent[from]);
          var j :| 0 <= j < |targets| && targets[j] == e.1;
          assert out[j] == e;
        }
      }
      assert forall a :: 0 <= a < |rest| ==> rest[a] in rest;
      out + rest
  }

  /** The first of from .. n-1 without an adjacency entry, or n. */
  function FirstMissing(adjacent: map<int, set<int>>, from: nat, n: nat): (m: nat)
    requires from <= n
    ensures from <= m <= n
    ensures forall x :: from <= x < m ==> x in adjacent
    ensures m < n ==> m !in adjacent
    decreases n - from
  {
    if from == n || from !in adjacent then from else FirstMissing(adjacent, from + 1, n)
  }

  /** graph.py's Graph: the adjacency and weight tables, updated in place. */
  class Graph {
    var adjacent: map<int, set<int>>
    var weight: map<(int, int), int>

    /** Both tables as one value. */
    function State(): Tables
      reads this
    {
      Tables(adjacent, weight)
    }

    /** A graph on the vertices 0 .. n-1 with no edges yet: both tables
        start empty and each vertex then gets an empty neighbour set. */
    constructor (n: nat)
      ensures forall v :: v in adjacent <==> 0 <= v < n
      ensures forall v :: v in adjacent ==> adjacent[v] == {}
      ensures weight == map[]
      ensures Contiguous(adjacent) && |adjacent| == n && WeightsCover(State())
    {
      var empty: map<int, set<int>> := map[];
      for vertex := 0 to n
        invariant forall v :: v in empty <==> 0 <= v < vertex
        invariant forall v :: v in empty ==> empty[v] == {}
        invariant |empty| == vertex
      {
        empty := empty[vertex := {}];
      }
      adjacent := empty;
      weight := map[];
    }

    /** numVertices: the number of adjacency entries; when 0 .. n-1 all have
        an entry, these are the vertices. */
    function NumVertices(): (n: nat)
      reads this
      ensures n == |adjacent|
      ensures Contiguous(adjacent) ==> forall v :: v in adjacent <==> 0 <= v < n
    {
      KeysAreRange(adjacent);
      |adjacent|
    }

    /** vertices: the range 0 .. numVertices()-1, which lists the adjacency
        entries when they are contiguous. */
    function Vertices(): (r: seq<int>)
      reads this
      ensures |r| == NumVertices() && forall j :: 0 <= j < |r| ==> r[j] == j
      ensures Contiguous(adjacent) ==> forall v :: v in r <==> v in adjacent
    {
      var n := NumVertices();
      var r := seq(n, j => j);
      assert forall v :: v in r <==> 0 <= v < n by {
        forall v | 0 <= v < n ensures v in r { assert r[v] == v; }
      }
      r
    }

    /** edges: the pairs (u, v) for u in vertices() and v a neighbour of u,
        each once, by ascending u. When some u in vertices() has no
        adjacency entry, iteration yields the edges of the vertices before
        it and then raises KeyError; that happens exactly when the entries
        are not 0 .. numVertices()-1. */
    function Edges(): (r: EdgeListing)
      reads this
      ensures r.Complete? <==> Contiguous(adjacent)
      ensures r.Complete? ==>
                forall e :: e in r.edges <==> e.0 in Vertices() && e.0 in adjacent && e.1 in adjacent[e.0]
      ensures r.Complete? ==>
                forall a, b :: 0 <= a < b < |r.edges| ==> r.edges[a].0 <= r.edges[b].0 && r.edges[a] != r.edges[b]
      ensures r.KeyError? ==>
                0 <= r.missing < NumVertices() && r.missing !in adjacent &&
                forall x :: 0 <= x < r.missing ==> x in adjacent
      ensures r.KeyError? ==>
                forall e :: e in r.yielded <==> 0 <= e.0 < r.missing && e.0 in adjacent && e.1 in adjacent[e.0]
    {
      var n := NumVertices();
      var m := FirstMissing(adjacent, 0, n);
      if m == n then Complete(EdgesFrom(adjacent, 0, n)) else KeyError(EdgesFrom(adjacent, 0, m), m)
    }

    /** addDirectedEdge: u's neighbour set (created empty when missing)
        gains v, then the pair (u, v) is given weight w. */
    method AddDirectedEdge(u: int, v: int, w: int)
      modifies this
      ensures State() == AddDirected(old(State()), u, v, w)
    {
      adjacent := adjacent[u := NeighboursOf(adjacent, u) + {v}];
      weight := weight[(u, v) := w];
    }

    /** addUndirectedEdge: the directed edge both ways, with one weight. */
    method AddUndirectedEdge(u: int, v: int, w: int)
      modifies this
      ensures State() == AddUndirected(old(State()), u, v, w)
    {
      AddDirectedEdge(u, v, w);
      AddDirectedEdge(v, u, w);
    }
  }
}
