/** The search for circular group nesting in a proxy configuration. */
module GroupNesting {
  import opened Graphs

  datatype Group = Group(name: string, memberGroups: seq<string>)

  /** The last definition of a name wins, as when pairs are collected into a hash map. */
  function Adjacency(groups: seq<Group>): Adjacent {
    if groups == [] then map[]
    else Adjacency(groups[..|groups| - 1])[groups[|groups| - 1].name := groups[|groups| - 1].memberGroups]
  }

  function NestingGraph(groups: seq<Group>): Graph<string> {
    GraphOf(Adjacency(groups))
  }

  lemma {:induction false} AdjacencyHoldsNames(groups: seq<Group>)
    ensures forall n :: n in Adjacency(groups) <==> exists i :: 0 <= i < |groups| && groups[i].name == n
    decreases |groups|
  {
    if groups != [] {
      var n := |groups| - 1;
      AdjacencyHoldsNames(groups[..n]);
      assert forall i :: 0 <= i < n ==> groups[..n][i] == groups[i];
      assert Adjacency(groups).Keys == Adjacency(groups[..n]).Keys + {groups[n].name};
    }
  }

  datatype BackEdge = BackEdge(from: string, to: string)

  type Adjacent = map<string, seq<string>>

  function GraphOf(adjacency: Adjacent): Graph<string> {
    map n | n in adjacency :: set m | m in adjacency[n]
  }

  ghost function Nodes(adjacency: Adjacent): set<string> {
    adjacency.Keys + set n, i | n in adjacency && 0 <= i < |adjacency[n]| :: adjacency[n][i]
  }

  /** The state of a search: `path` lists the nodes on the stack, outermost first, and `order` the
      finished nodes. The stack is a walk, every error lies on a cycle, and as long as there is no
      error the finished nodes are in topological order. */
  ghost predicate Sound(adjacency: Adjacent, visited: set<string>, inStack: set<string>, errors: seq<BackEdge>,
                        path: seq<string>, order: seq<string>)
  {
    && visited <= Nodes(adjacency)
    && inStack == (set n | n in path)
    && inStack <= visited
    && IsWalk(GraphOf(adjacency), path)
    && (forall e :: e in errors ==> ClosesCycle(GraphOf(adjacency), e.from, e.to))
    && (errors == [] ==>
          IsTopological(GraphOf(adjacency), order) && forall n :: n in visited && n !in inStack ==> n in order)
  }

  lemma NeighborIsNode(adjacency: Adjacent, node: string, i: nat)
    requires node in adjacency && i < |adjacency[node]|
    ensures Edge(GraphOf(adjacency), node, adjacency[node][i]) && adjacency[node][i] in Nodes(adjacency)
  {
  }

  lemma Entering(adjacency: Adjacent, visited: set<string>, inStack: set<string>, errors: seq<BackEdge>,
                 path: seq<string>, order: seq<string>, node: string)
    requires Sound(adjacency, visited, inStack, errors, path, order)
    requires node in Nodes(adjacency)
    requires path != [] ==> Edge(GraphOf(adjacency), path[|path| - 1], node)
    ensures Sound(adjacency, visited + {node}, inStack + {node}, errors, path + [node], order)
  {
    WalkExtends(GraphOf(adjacency), path, node);
  }

  lemma Reporting(adjacency: Adjacent, visited: set<string>, inStack: set<string>, errors: seq<BackEdge>,
                  path: seq<string>, order: seq<string>, node: string, neighbor: string)
    requires Sound(adjacency, visited, inStack, errors, path, order)
    requires path != [] && path[|path| - 1] == node && Edge(GraphOf(adjacency), node, neighbor)
    requires neighbor in inStack
    ensures Sound(adjacency, visited, inStack, errors + [BackEdge(node, neighbor)], path, order)
  {
    BackEdgeClosesCycle(GraphOf(adjacency), path, neighbor);
  }

  lemma Leaving(adjacency: Adjacent, visited: set<string>, inStack: set<string>, errors: seq<BackEdge>,
                path: seq<string>, order: seq<string>, node: string)
    requires Sound(adjacency, visited, inStack, errors, path + [node], order)
    requires node !in path
    requires errors == [] && node in adjacency ==> forall j :: 0 <= j < |adjacency[node]| ==> adjacency[node][j] in order
    ensures Sound(adjacency, visited, inStack - {node}, errors, path, order + [node])
  {
    forall i | 0 <= i < |path| - 1
      ensures Edge(GraphOf(adjacency), path[i], path[i + 1])
    {
      assert Edge(GraphOf(adjacency), (path + [node])[i], (path + [node])[i + 1]);
    }
    if errors == [] {
      TopologicalExtends(GraphOf(adjacency), order, node);
    }
  }

  lemma SoundFacts(adjacency: Adjacent, visited: set<string>, inStack: set<string>, errors: seq<BackEdge>,
                   path: seq<string>, order: seq<string>)
    requires Sound(adjacency, visited, inStack, errors, path, order)
    ensures visited <= Nodes(adjacency) && forall n :: n in path ==> n in visited
    ensures errors == [] ==> forall n :: n in visited && n !in inStack ==> n in order
  {
  }

  class Search {
    const adjacency: Adjacent
    var visited: set<string>
    var inStack: set<string>
    var errors: seq<BackEdge>
    ghost var path: seq<string>
    ghost var order: seq<string>

    constructor (adjacency: Adjacent)
      ensures this.adjacency == adjacency && Valid()
      ensures visited == {} && path == [] && errors == []
    {
      this.adjacency := adjacency;
      visited, inStack, errors, path, order := {}, {}, [], [], [];
    }

    ghost predicate Valid()
      reads this
    {
      Sound(adjacency, visited, inStack, errors, path, order)
    }

    /** Searches everything reachable from an unvisited node. */
    method Dfs(node: string)
      requires Valid()
      requires node in Nodes(adjacency) && node !in visited
      requires path != [] ==> Edge(GraphOf(adjacency), path[|path| - 1], node)
      modifies this
      ensures Valid()
      ensures path == old(path)
      ensures old(visited) <= visited && node in visited
      ensures old(errors) <= errors && old(order) <= order && node in order
      decreases Nodes(adjacency) - visited
    {
      hide Sound, Edge, GraphOf, Nodes;
      SoundFacts(adjacency, visited, inStack, errors, path, order);
      Entering(adjacency, visited, inStack, errors, path, order, node);
      visited := visited + {node};
      inStack := inStack + {node};
      path := path + [node];
      if node in adjacency {
        var neighbors := adjacency[node];
        for i := 0 to |neighbors|
          invariant Valid()
          invariant path == old(path) + [node]
          invariant old(visited) + {node} <= visited
          invariant old(errors) <= errors && old(order) <= order
          invariant errors == [] ==> forall j :: 0 <= j < i ==> neighbors[j] in order
        {
          var neighbor := neighbors[i];
          NeighborIsNode(adjacency, node, i);
          SoundFacts(adjacency, visited, inStack, errors, path, order);
          if neighbor in inStack {
            Reporting(adjacency, visited, inStack, errors, path, order, node, neighbor);
            errors := errors + [BackEdge(node, neighbor)];
          } else if neighbor !in visited {
            Dfs(neighbor);
          }
        }
      }
      Leaving(adjacency, visited, inStack, errors, old(path), order, node);
      inStack := inStack - {node};
      path := old(path);
      order := order + [node];
    }
  }

  /** Searches from every group that the search has not reached yet. An error is reported exactly when
      the nesting is circular, and every reported edge lies on a cycle. */
  method CheckCircularNesting(groups: seq<Group>) returns (errors: seq<BackEdge>)
    ensures errors != [] <==> Cyclic(NestingGraph(groups))
    ensures forall e :: e in errors ==> ClosesCycle(NestingGraph(groups), e.from, e.to)
  {
    if groups == [] {
      errors := [];
      AllBoundedIsAcyclic(NestingGraph(groups));
      return;
    }
    AdjacencyHoldsNames(groups);
    var search := new Search(Adjacency(groups));
    for i := 0 to |groups|
      invariant fresh(search) && search.adjacency == Adjacency(groups)
      invariant search.Valid() && search.path == []
      invariant forall j :: 0 <= j < i ==> groups[j].name in search.visited
    {
      if groups[i].name !in search.visited {
        search.Dfs(groups[i].name);
      }
    }
    errors := search.errors;
    SoundFacts(search.adjacency, search.visited, search.inStack, search.errors, [], search.order);
    if errors != [] {
      assert ClosesCycle(NestingGraph(groups), errors[0].from, errors[0].to);
    } else {
      TopologicalIsAcyclic(NestingGraph(groups), search.order);
    }
  }
}
