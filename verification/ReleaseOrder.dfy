/**
 * The depth-first search of `packageGraph`: it throws the cycle error exactly when the public packages depend on each
 * other in a circle, and otherwise puts every package after all its public dependencies.
 */
module ReleaseOrder {
  import opened Wrappers
  import opened Graphs

  /** A package and its dependency names, by dependency field. */
  datatype Package = Package(name: string, dependencies: seq<seq<string>>)

  datatype OrderResult = Ordered(order: seq<Package>) | Cycle(path: seq<string>)

  type Packages = map<string, Package>

  ghost predicate Named(public: Packages) {
    forall name :: name in public ==> public[name].name == name
  }

  /** `publicByName`. */
  function ByName(packages: seq<Package>): Packages {
    if packages == [] then map[]
    else ByName(packages[..|packages| - 1])[packages[|packages| - 1].name := packages[|packages| - 1]]
  }

  function PublicNames(public: Packages, names: seq<string>): seq<string> {
    if names == [] then []
    else (if names[0] in public then [names[0]] else []) + PublicNames(public, names[1..])
  }

  function PublicTargets(public: Packages, fields: seq<seq<string>>): seq<string> {
    if fields == [] then [] else PublicNames(public, fields[0]) + PublicTargets(public, fields[1..])
  }

  /** Each public package's public dependencies. */
  function DependencyGraph(public: Packages): Graph {
    map name | name in public :: PublicTargets(public, public[name].dependencies)
  }

  lemma {:induction false} PublicNamesHold(public: Packages, names: seq<string>, b: string)
    ensures b in PublicNames(public, names) <==> b in names && b in public
  {
    if names != [] {
      PublicNamesHold(public, names[1..], b);
      assert names == [names[0]] + names[1..];
    }
  }

  ghost predicate Lists(fields: seq<seq<string>>, b: string) {
    exists f :: 0 <= f < |fields| && b in fields[f]
  }

  lemma {:induction false} PublicTargetsHold(public: Packages, fields: seq<seq<string>>, b: string)
    ensures b in PublicTargets(public, fields) <==> b in public && Lists(fields, b)
  {
    if fields != [] {
      PublicTargetsHold(public, fields[1..], b);
      PublicNamesHold(public, fields[0], b);
      if Lists(fields, b) {
        var f :| 0 <= f < |fields| && b in fields[f];
        if f > 0 {
          assert b in fields[1..][f - 1];
        }
      }
      if Lists(fields[1..], b) {
        var f :| 0 <= f < |fields[1..]| && b in fields[1..][f];
        assert b in fields[f + 1];
      }
    }
  }

  lemma DependencyEdge(public: Packages, a: string, b: string)
    ensures Edge(DependencyGraph(public), a, b) <==> a in public && b in public && Lists(public[a].dependencies, b)
  {
    if a in public {
      PublicTargetsHold(public, public[a].dependencies, b);
    }
  }

  function OrderNames(order: seq<Package>): set<string> {
    set p | p in order :: p.name
  }

  /** Every package of `order` comes after all its public dependencies, and none twice. */
  ghost predicate AfterDependencies(public: Packages, order: seq<Package>) {
    forall k :: 0 <= k < |order| ==> Placed(public, OrderNames(order[..k]), order[k])
  }

  ghost predicate Placed(public: Packages, before: set<string>, p: Package) {
    && p.name in public && public[p.name] == p
    && p.name !in before
    && forall b :: Edge(DependencyGraph(public), p.name, b) ==> b in before
  }

  /** A walk whose last node occurs before: it holds a real cycle. */
  ghost predicate HoldsCycle(g: Graph, path: seq<string>) {
    |path| >= 2 && IsWalk(g, path) && path[|path| - 1] in path[..|path| - 1]
  }

  lemma CycleReaches(g: Graph, path: seq<string>)
    requires HoldsCycle(g, path)
    ensures Reaches(g, path[|path| - 1], path[|path| - 1])
  {
    var n := |path| - 1;
    var i :| 0 <= i < n && path[..n][i] == path[n];
    var loop := path[i..];
    forall j {:trigger loop[j]} | 0 <= j < |loop| - 1 ensures Edge(g, loop[j], loop[j + 1]) {
      assert Edge(g, path[i + j], path[i + j + 1]);
    }
    assert LeadsTo(g, path[n], path[n], loop);
  }

  /** What a package reaches is placed before it. */
  lemma {:induction false} ReachedIsBefore(public: Packages, order: seq<Package>, k: nat, b: string)
    requires AfterDependencies(public, order) && k < |order| && Reaches(DependencyGraph(public), order[k].name, b)
    ensures b in OrderNames(order[..k])
    decreases k
  {
    var g := DependencyGraph(public);
    var next := ReachFirstStep(g, order[k].name, b);
    assert Placed(public, OrderNames(order[..k]), order[k]);
    if next != b {
      var j :| 0 <= j < k && order[..k][j].name == next;
      ReachedIsBefore(public, order, j, b);
      assert order[..j] <= order[..k];
      var m :| 0 <= m < j && order[..j][m].name == b;
      assert order[..k][m].name == b;
    }
  }

  /** An order that places every package leaves no cycle. */
  lemma OrderedIsAcyclic(public: Packages, order: seq<Package>, a: string)
    requires AfterDependencies(public, order) && OrderNames(order) == public.Keys
    ensures !Reaches(DependencyGraph(public), a, a)
  {
    var g := DependencyGraph(public);
    if Reaches(g, a, a) {
      var next := ReachFirstStep(g, a, a);
      var k :| 0 <= k < |order| && order[k].name == a;
      assert Placed(public, OrderNames(order[..k]), order[k]);
      ReachedIsBefore(public, order, k, a);
      assert false;
    }
  }

  /** The variables the closure `visit` changes. */
  class Visitor {
    const public: Packages
    var visiting: set<string>
    var visited: set<string>
    var order: seq<Package>

    constructor (public: Packages)
      ensures this.public == public && visiting == {} && visited == {} && order == []
    {
      this.public := public;
      visiting, visited, order := {}, {}, [];
    }

    ghost predicate Valid()
      reads this
    {
      && Named(public)
      && visiting <= public.Keys && visiting !! visited
      && visited == OrderNames(order)
      && AfterDependencies(public, order)
    }

    /** `path` is the walk of the packages being visited, down to a dependent of `name`. */
    ghost predicate Stack(path: seq<string>, name: string)
      reads this
    {
      && visiting == Members(path)
      && IsWalk(DependencyGraph(public), path + [name])
    }

    /** The closure `visit`: `None` for a return, the reported path for the throw. */
    method Visit(item: Package, path: seq<string>) returns (cycle: Option<seq<string>>)
      requires Valid() && item.name in public && public[item.name] == item && Stack(path, item.name)
      modifies this
      ensures cycle.Some? ==> HoldsCycle(DependencyGraph(public), cycle.value)
      ensures cycle == None ==> Valid() && visiting == old(visiting) && old(visited) + {item.name} <= visited
      decreases public.Keys - visiting, 0
    {
      if item.name in visited {
        return None;
      }
      if item.name in visiting {
        assert item.name in Members(path);
        assert (path + [item.name])[..|path|] == path;
        return Some(path + [item.name]);
      }
      visiting := visiting + {item.name};
      ghost var start := visiting;
      var f := 0;
      while f < |item.dependencies|
        invariant 0 <= f <= |item.dependencies|
        invariant Valid() && visiting == start && old(visited) <= visited
        invariant forall i, b :: 0 <= i < f && b in item.dependencies[i] && b in public ==> b in visited
      {
        cycle := VisitField(item, f, path);
        if cycle.Some? {
          return;
        }
        f := f + 1;
      }
      forall b | Edge(DependencyGraph(public), item.name, b) ensures b in visited {
        DependencyEdge(public, item.name, b);
      }
      ghost var was := order;
      visiting := visiting - {item.name};
      visited := visited + {item.name};
      order := order + [item];
      OrderGrows(public, was, item);
      cycle := None;
    }

    /** One dependency field of `item`, which is being visited. */
    method VisitField(item: Package, f: nat, path: seq<string>) returns (cycle: Option<seq<string>>)
      requires Valid() && item.name in public && public[item.name] == item && f < |item.dependencies|
      requires visiting == Members(path) + {item.name} && IsWalk(DependencyGraph(public), path + [item.name])
      modifies this
      ensures cycle.Some? ==> HoldsCycle(DependencyGraph(public), cycle.value)
      ensures cycle == None ==> Valid() && visiting == old(visiting) && old(visited) <= visited
      ensures cycle == None ==> forall b :: b in item.dependencies[f] && b in public ==> b in visited
      decreases public.Keys - visiting, 1
    {
      var names := item.dependencies[f];
      ghost var start := visiting;
      for i := 0 to |names|
        invariant Valid() && visiting == start && old(visited) <= visited
        invariant forall j :: 0 <= j < i && names[j] in public ==> names[j] in visited
      {
        if names[i] in public {
          StackGrows(path, item.name, names[i]);
          cycle := Visit(public[names[i]], path + [item.name]);
          if cycle.Some? {
            return;
          }
        }
      }
      cycle := None;
    }

    lemma StackGrows(path: seq<string>, name: string, next: string)
      requires visiting == Members(path) + {name} && IsWalk(DependencyGraph(public), path + [name])
      requires name in public && next in public && Lists(public[name].dependencies, next)
      ensures Stack(path + [name], next)
    {
      DependencyEdge(public, name, next);
      MembersSplit(path, [name]);
      var longer := path + [name] + [next];
      forall i {:trigger longer[i]} | 0 <= i < |longer| - 1 ensures Edge(DependencyGraph(public), longer[i], longer[i + 1]) {
        if i < |path| {
          assert longer[i] == (path + [name])[i] && longer[i + 1] == (path + [name])[i + 1];
        }
      }
    }
  }

  lemma OrderGrows(public: Packages, order: seq<Package>, p: Package)
    requires AfterDependencies(public, order) && Placed(public, OrderNames(order), p)
    ensures AfterDependencies(public, order + [p]) && OrderNames(order + [p]) == OrderNames(order) + {p.name}
  {
    var longer := order + [p];
    forall k | 0 <= k < |longer| ensures Placed(public, OrderNames(longer[..k]), longer[k]) {
      if k < |order| {
        assert longer[..k] == order[..k];
        assert Placed(public, OrderNames(order[..k]), order[k]);
      } else {
        assert longer[..k] == order;
      }
    }
    assert longer[|order|] == p;
  }

  lemma {:induction false} ByNameIs(packages: seq<Package>)
    requires forall i, j :: 0 <= i < j < |packages| ==> packages[i].name != packages[j].name
    ensures Named(ByName(packages)) && ByName(packages).Keys == OrderNames(packages)
    ensures forall i :: 0 <= i < |packages| ==> packages[i].name in ByName(packages) && ByName(packages)[packages[i].name] == packages[i]
  {
    if packages != [] {
      var n := |packages| - 1;
      ByNameIs(packages[..n]);
      assert packages == packages[..n] + [packages[n]];
      forall i | 0 <= i < |packages| ensures packages[i].name in ByName(packages) && ByName(packages)[packages[i].name] == packages[i] {
        if i < n {
          assert packages[..n][i] == packages[i];
        }
      }
    }
  }

  /** The public packages in an order each of them may be published in, or the cycle that leaves none. */
  method PackageOrder(packages: seq<Package>) returns (r: OrderResult)
    requires forall i, j :: 0 <= i < j < |packages| ==> packages[i].name != packages[j].name
    ensures r.Cycle? <==> exists a :: Reaches(DependencyGraph(ByName(packages)), a, a)
    ensures r.Cycle? ==> HoldsCycle(DependencyGraph(ByName(packages)), r.path)
    ensures r.Ordered? ==> AfterDependencies(ByName(packages), r.order) && OrderNames(r.order) == OrderNames(packages)
  {
    ByNameIs(packages);
    var public := ByName(packages);
    var visitor := new Visitor(public);
    for i := 0 to |packages|
      invariant visitor.public == public && visitor.Valid() && visitor.visiting == {}
      invariant forall j :: 0 <= j < i ==> packages[j].name in visitor.visited
    {
      assert Members([]) == {};
      var cycle := visitor.Visit(packages[i], []);
      if cycle.Some? {
        CycleReaches(DependencyGraph(public), cycle.value);
        return Cycle(cycle.value);
      }
    }
    assert OrderNames(visitor.order) == public.Keys by {
      forall k | 0 <= k < |visitor.order| ensures visitor.order[k].name in public {
        assert Placed(public, OrderNames(visitor.order[..k]), visitor.order[k]);
      }
    }
    forall a ensures !Reaches(DependencyGraph(public), a, a) {
      OrderedIsAcyclic(public, visitor.order, a);
    }
    return Ordered(visitor.order);
  }
}
