/**
 * `findConnectedComponents` (src/routes/checkbox-game.tsx): an iterative
 * depth-first flood fill that partitions the checked, owned boxes into
 * per-owner groups of 4-neighbour-connected boxes.
 */
module Components {
  import opened Wrappers
  import opened JsMap
  import opened Grid
  import opened Checkboxes

  /** Per-owner lists of components (lists of box ids), in insertion order. */
  type UserGroups = OrderedMap<string, seq<seq<int>>>

  /** Id x lies in component i of owner o. */
  ghost predicate InComp(g: map<string, seq<seq<int>>>, o: string, i: int, x: int)
  {
    o in g && 0 <= i < |g[o]| && x in g[o][i]
  }

  /** Every member after the first is adjacent to an earlier member, so the component is connected. */
  ghost predicate Chained(c: seq<int>)
  {
    forall i :: 0 < i < |c| ==> LinkedBack(c, i)
  }

  /** Member i is adjacent to some member before it. */
  ghost predicate LinkedBack(c: seq<int>, i: int)
    requires 0 <= i < |c|
  {
    exists j :: 0 <= j < i && AreAdjacent(c[j], c[i])
  }

  /** Components are non-empty, repeat no id, are connected, and each owner has at least one. */
  ghost predicate WellFormed(g: map<string, seq<seq<int>>>)
  {
    && (forall o :: o in g ==> |g[o]| > 0)
    && (forall o, i :: o in g && 0 <= i < |g[o]| ==>
          |g[o][i]| > 0 && Distinct(g[o][i]) && Chained(g[o][i]))
  }

  /** Only checked boxes owned by o are filed under o. */
  ghost predicate OnlyOwned(g: map<string, seq<seq<int>>>, owners: map<int, string>)
  {
    forall o, i, x :: InComp(g, o, i, x) ==> x in owners && owners[x] == o
  }

  /** No id is in two components. */
  ghost predicate Disjoint(g: map<string, seq<seq<int>>>)
  {
    forall o1, i1, o2, i2, x :: InComp(g, o1, i1, x) && InComp(g, o2, i2, x) ==> o1 == o2 && i1 == i2
  }

  /** Every checked, owned box is in some component of its owner. */
  ghost predicate Covers(g: map<string, seq<seq<int>>>, owners: map<int, string>)
  {
    forall x :: x in owners ==> exists i :: InComp(g, owners[x], i, x)
  }

  /** Maximality: a box of the same owner adjacent to a member is itself a member. */
  ghost predicate Closed(g: map<string, seq<seq<int>>>, owners: map<int, string>)
  {
    forall o, i, x, y :: InComp(g, o, i, x) && y in owners && owners[y] == o && AreAdjacent(x, y) ==>
      y in g[o][i]
  }

  /** The components found so far, and the visited set they make up. */
  ghost predicate Forest(g: map<string, seq<seq<int>>>, owners: map<int, string>, visited: set<int>)
  {
    && WellFormed(g)
    && OnlyOwned(g, owners)
    && Disjoint(g)
    && Closed(g, owners)
    && (forall o, i, x :: InComp(g, o, i, x) ==> x in visited)
    && (forall x :: x in visited ==> x in owners && exists i :: InComp(g, owners[x], i, x))
  }

  /**
   * `checkedBoxes.filter(b => !visited.has(b.id) && b.user_id === owner &&
   * areAdjacent(current, b.id)).map(b => b.id)`.
   */
  function FreeNeighbours(checked: seq<Checkbox>, visited: set<int>, owner: Option<string>, current: int)
    : (r: seq<int>)
    ensures forall x :: x in r ==>
      (exists j :: 0 <= j < |checked| && checked[j].id == x && checked[j].userId == owner) &&
      x !in visited && AreAdjacent(current, x)
    ensures forall j :: 0 <= j < |checked| ==>
      (checked[j].id !in visited && checked[j].userId == owner && AreAdjacent(current, checked[j].id) ==>
        checked[j].id in r)
  {
    if checked == [] then []
    else
      var b := checked[0];
      var rest := FreeNeighbours(checked[1..], visited, owner, current);
      assert forall j :: 1 <= j < |checked| ==> checked[1..][j - 1] == checked[j];
      if b.id !in visited && b.userId == owner && AreAdjacent(current, b.id) then [b.id] + rest else rest
  }

  /** In terms of the owner index: the neighbours found are exactly the unvisited same-owner ones. */
  lemma NeighboursByOwner(checked: seq<Checkbox>, visited: set<int>, box: Checkbox, current: int)
    requires DistinctIds(checked) && (forall c :: c in checked ==> Counted(c)) && Counted(box)
    ensures var r := FreeNeighbours(checked, visited, box.userId, current);
      var owners := OwnerIndex(checked);
      forall y :: y in r <==>
        (y in owners && owners[y] == Owner(box) && y !in visited && AreAdjacent(current, y))
  {
    var r := FreeNeighbours(checked, visited, box.userId, current);
    OwnerIndexAll(checked);
    forall y | y in r ensures y in OwnerIndex(checked) && OwnerIndex(checked)[y] == Owner(box) {
      var j :| 0 <= j < |checked| && checked[j].id == y && checked[j].userId == box.userId;
    }
    forall y | y in OwnerIndex(checked) && OwnerIndex(checked)[y] == Owner(box) && y !in visited &&
        AreAdjacent(current, y)
      ensures y in r
    {
      var j :| 0 <= j < |checked| && checked[j].id == y;
      assert Counted(checked[j]);
    }
  }

  /** The ids visited so far are the old ones plus the component, whose members are fresh and owned by o. */
  ghost predicate Members(owners: map<int, string>, o: string, visited: set<int>,
                          component: seq<int>, visitedOut: set<int>)
  {
    && (forall x :: x in visitedOut <==> x in visited || x in component)
    && (forall x :: x in component ==> x !in visited && x in owners && owners[x] == o)
    && Distinct(component)
  }

  ghost predicate StackOwned(owners: map<int, string>, o: string, stack: seq<int>)
  {
    forall s :: s in stack ==> s in owners && owners[s] == o
  }

  /** Every id on the stack was pushed as a neighbour of a member. */
  ghost predicate StackLinked(component: seq<int>, stack: seq<int>)
  {
    component != [] ==> forall s :: s in stack ==>
      exists j :: 0 <= j < |component| && AreAdjacent(component[j], s)
  }

  /** A same-owner neighbour of a member is visited or waiting on the stack. */
  ghost predicate Frontier(owners: map<int, string>, o: string, component: seq<int>,
                           stack: seq<int>, visitedOut: set<int>)
  {
    forall x, y :: x in component && y in owners && owners[y] == o && AreAdjacent(x, y) ==>
      y in visitedOut || y in stack
  }

  /** The state of the flood fill started at `start` over boxes with owner index `owners`. */
  ghost predicate FillState(owners: map<int, string>, o: string, start: int, visited: set<int>,
                            component: seq<int>, stack: seq<int>, visitedOut: set<int>)
  {
    && start !in visited
    && Members(owners, o, visited, component, visitedOut)
    && Chained(component)
    && StackOwned(owners, o, stack)
    && (component == [] ==> stack == [start])
    && (component != [] ==> component[0] == start)
    && StackLinked(component, stack)
    && Frontier(owners, o, component, stack, visitedOut)
  }

  /** The neighbours pushed for `current`: the same-owner ones not yet visited. */
  ghost predicate PushedFor(owners: map<int, string>, o: string, current: int, visitedNow: set<int>,
                            adjacent: seq<int>)
  {
    forall y :: y in adjacent <==>
      (y in owners && owners[y] == o && y !in visitedNow && AreAdjacent(current, y))
  }

  lemma MembersStep(owners: map<int, string>, o: string, visited: set<int>,
                    component: seq<int>, visitedOut: set<int>, current: int)
    requires Members(owners, o, visited, component, visitedOut)
    requires current !in visitedOut && current in owners && owners[current] == o
    ensures Members(owners, o, visited, component + [current], visitedOut + {current})
  {
    var c' := component + [current];
    assert forall x :: x in c' <==> x in component || x == current;
    assert Distinct(c') by {
      forall i, j | 0 <= i < j < |c'| ensures c'[i] != c'[j] {
        if j < |component| {
          assert c'[i] == component[i] && c'[j] == component[j];
        } else {
          assert c'[i] in component;
        }
      }
    }
  }

  lemma StackStep(owners: map<int, string>, o: string, component: seq<int>, stack: seq<int>,
                  visitedNow: set<int>, adjacent: seq<int>)
    requires |stack| > 0 && (component == [] ==> |stack| == 1)
    requires StackOwned(owners, o, stack) && StackLinked(component, stack)
    requires PushedFor(owners, o, stack[|stack| - 1], visitedNow, adjacent)
    ensures var current := stack[|stack| - 1];
      var s' := stack[..|stack| - 1] + adjacent;
      StackOwned(owners, o, s') && StackLinked(component + [current], s')
  {
    var current := stack[|stack| - 1];
    var rest := stack[..|stack| - 1];
    var c' := component + [current];
    var s' := rest + adjacent;
    assert forall s :: s in s' ==> s in rest || s in adjacent;
    assert forall s :: s in rest ==> s in stack;
    forall s | s in s'
      ensures exists j :: 0 <= j < |c'| && AreAdjacent(c'[j], s)
    {
      if s in adjacent {
        assert AreAdjacent(c'[|component|], s);
      } else {
        assert s in stack;
        var j :| 0 <= j < |component| && AreAdjacent(component[j], s);
        assert AreAdjacent(c'[j], s);
      }
    }
  }

  lemma FrontierStep(owners: map<int, string>, o: string, component: seq<int>, stack: seq<int>,
                     visitedOut: set<int>, adjacent: seq<int>)
    requires |stack| > 0
    requires Frontier(owners, o, component, stack, visitedOut)
    requires PushedFor(owners, o, stack[|stack| - 1], visitedOut + {stack[|stack| - 1]}, adjacent)
    ensures var current := stack[|stack| - 1];
      Frontier(owners, o, component + [current], stack[..|stack| - 1] + adjacent, visitedOut + {current})
  {
    var current := stack[|stack| - 1];
    var rest := stack[..|stack| - 1];
    var c' := component + [current];
    var s' := rest + adjacent;
    var v' := visitedOut + {current};
    forall x, y | x in c' && y in owners && owners[y] == o && AreAdjacent(x, y)
      ensures y in v' || y in s'
    {
      if x != current {
        assert x in component;
        assert y in visitedOut || y in stack;
        assert y in stack ==> y == current || y in rest;
      }
    }
  }

  /** Popping an unvisited id, making it a member and pushing its free neighbours keeps FillState. */
  lemma FillStep(owners: map<int, string>, o: string, start: int, visited: set<int>,
                 component: seq<int>, stack: seq<int>, visitedOut: set<int>, adjacent: seq<int>)
    requires |stack| > 0 && stack[|stack| - 1] !in visitedOut
    requires FillState(owners, o, start, visited, component, stack, visitedOut)
    requires PushedFor(owners, o, stack[|stack| - 1], visitedOut + {stack[|stack| - 1]}, adjacent)
    ensures var current := stack[|stack| - 1];
      FillState(owners, o, start, visited, component + [current],
                stack[..|stack| - 1] + adjacent, visitedOut + {current})
  {
    var current := stack[|stack| - 1];
    assert current in stack;
    MembersStep(owners, o, visited, component, visitedOut, current);
    ChainedAppend(component, current);
    StackStep(owners, o, component, stack, visitedOut + {current}, adjacent);
    FrontierStep(owners, o, component, stack, visitedOut, adjacent);
  }

  lemma ChainedAppend(c: seq<int>, x: int)
    requires Chained(c)
    requires c != [] ==> exists j :: 0 <= j < |c| && AreAdjacent(c[j], x)
    ensures Chained(c + [x])
  {
    var c' := c + [x];
    forall i | 0 < i < |c'| ensures LinkedBack(c', i) {
      if i < |c| {
        assert LinkedBack(c, i);
        var j :| 0 <= j < i && AreAdjacent(c[j], c[i]);
        assert c'[j] == c[j] && c'[i] == c[i];
      } else {
        var j :| 0 <= j < |c| && AreAdjacent(c[j], x);
        assert c'[j] == c[j] && c'[i] == x;
      }
    }
  }

  /** Popping an id that is already visited keeps FillState. */
  lemma FillSkip(owners: map<int, string>, o: string, start: int, visited: set<int>,
                 component: seq<int>, stack: seq<int>, visitedOut: set<int>)
    requires |stack| > 0 && stack[|stack| - 1] in visitedOut
    requires FillState(owners, o, start, visited, component, stack, visitedOut)
    ensures FillState(owners, o, start, visited, component, stack[..|stack| - 1], visitedOut)
  {
    var rest := stack[..|stack| - 1];
    assert forall s :: s in stack ==> s in rest || s == stack[|stack| - 1];
    assert forall s :: s in rest ==> s in stack;
    assert component != [];
  }

  /**
   * The inner `while (stack.length > 0)` loop: starting from `box`, pop ids,
   * mark each unvisited one, add it to the component, and push its unvisited
   * neighbours of the same owner.
   */
  method FloodFill(checked: seq<Checkbox>, visited: set<int>, box: Checkbox)
      returns (component: seq<int>, visitedOut: set<int>)
    requires DistinctIds(checked) && forall c :: c in checked ==> Counted(c)
    requires box in checked && box.id !in visited
    ensures |component| > 0 && component[0] == box.id
    ensures Distinct(component) && Chained(component)
    ensures forall x :: x in component ==>
      x !in visited && x in OwnerIndex(checked) && OwnerIndex(checked)[x] == Owner(box)
    ensures forall x :: x in visitedOut <==> x in visited || x in component
    ensures forall x, y ::
      (x in component && y in OwnerIndex(checked) && OwnerIndex(checked)[y] == Owner(box) &&
       AreAdjacent(x, y)) ==> y in visitedOut
  {
    ghost var owners := OwnerIndex(checked);
    ghost var o := Owner(box);
    assert box.id in owners && owners[box.id] == o by {
      OwnerIndexAll(checked);
    }
    component := [];
    var stack := [box.id];
    visitedOut := visited;
    while |stack| > 0
      invariant FillState(owners, o, box.id, visited, component, stack, visitedOut)
      decreases owners.Keys - visitedOut, |stack|
    {
      var current := stack[|stack| - 1];
      if current in visitedOut {
        FillSkip(owners, o, box.id, visited, component, stack, visitedOut);
        stack := stack[..|stack| - 1];
        continue;
      }
      var adjacent := FreeNeighbours(checked, visitedOut + {current}, box.userId, current);
      NeighboursByOwner(checked, visitedOut + {current}, box, current);
      assert current in stack;
      FillStep(owners, o, box.id, visited, component, stack, visitedOut, adjacent);
      stack := stack[..|stack| - 1] + adjacent;
      visitedOut := visitedOut + {current};
      component := component + [current];
    }
  }

  /** The components filed under o so far (`userGroups.get(o)`, or none). */
  function Files(g: map<string, seq<seq<int>>>, o: string): seq<seq<int>>
  {
    if o in g then g[o] else []
  }

  /** What a fresh component found by FloodFill satisfies. */
  ghost predicate Fresh(owners: map<int, string>, o: string, visited: set<int>,
                        comp: seq<int>, visited': set<int>)
  {
    && |comp| > 0 && Distinct(comp) && Chained(comp)
    && (forall x :: x in comp ==> x !in visited && x in owners && owners[x] == o)
    && (forall x :: x in visited' <==> x in visited || x in comp)
    && (forall x, y :: x in comp && y in owners && owners[y] == o && AreAdjacent(x, y) ==> y in visited')
  }

  lemma InCompAfterAdd(g: map<string, seq<seq<int>>>, o: string, comp: seq<int>)
    ensures var g' := g[o := Files(g, o) + [comp]];
      forall o', i, x :: InComp(g', o', i, x) <==>
        InComp(g, o', i, x) || (o' == o && i == |Files(g, o)| && x in comp)
  {
    var g' := g[o := Files(g, o) + [comp]];
    forall o', i, x
      ensures InComp(g', o', i, x) <==> InComp(g, o', i, x) || (o' == o && i == |Files(g, o)| && x in comp)
    {
      if o' == o && 0 <= i < |Files(g, o)| {
        assert g'[o][i] == Files(g, o)[i];
      }
    }
  }

  lemma AddKeepsShape(g: map<string, seq<seq<int>>>, owners: map<int, string>, o: string, comp: seq<int>)
    requires WellFormed(g) && OnlyOwned(g, owners)
    requires |comp| > 0 && Distinct(comp) && Chained(comp)
    requires forall x :: x in comp ==> x in owners && owners[x] == o
    ensures var g' := g[o := Files(g, o) + [comp]];
      WellFormed(g') && OnlyOwned(g', owners)
  {
    var g' := g[o := Files(g, o) + [comp]];
    InCompAfterAdd(g, o, comp);
    forall o', i | o' in g' && 0 <= i < |g'[o']|
      ensures |g'[o'][i]| > 0 && Distinct(g'[o'][i]) && Chained(g'[o'][i])
    {
      if o' == o && i < |Files(g, o)| {
        assert g'[o'][i] == g[o][i];
      }
    }
  }

  lemma AddKeepsDisjoint(g: map<string, seq<seq<int>>>, visited: set<int>, o: string, comp: seq<int>)
    requires Disjoint(g)
    requires forall o', i, x :: InComp(g, o', i, x) ==> x in visited
    requires forall x :: x in comp ==> x !in visited
    ensures Disjoint(g[o := Files(g, o) + [comp]])
  {
    InCompAfterAdd(g, o, comp);
  }

  lemma AddKeepsClosed(g: map<string, seq<seq<int>>>, owners: map<int, string>, visited: set<int>,
                       o: string, comp: seq<int>, visited': set<int>)
    requires Forest(g, owners, visited)
    requires Fresh(owners, o, visited, comp, visited')
    ensures Closed(g[o := Files(g, o) + [comp]], owners)
  {
    var g' := g[o := Files(g, o) + [comp]];
    InCompAfterAdd(g, o, comp);
    forall o', i, x, y | InComp(g', o', i, x) && y in owners && owners[y] == o' && AreAdjacent(x, y)
      ensures y in g'[o'][i]
    {
      if InComp(g, o', i, x) {
        assert y in g[o'][i];
        assert InComp(g', o', i, y);
      } else {
        assert o' == o && i == |Files(g, o)| && x in comp;
        ClosedReach(g, owners, visited, x, y);
        assert y in visited' && y !in visited;
        assert InComp(g', o', i, y);
      }
    }
  }

  /** A box adjacent to a visited box of the same owner is itself visited. */
  lemma ClosedReach(g: map<string, seq<seq<int>>>, owners: map<int, string>, visited: set<int>, x: int, y: int)
    requires Forest(g, owners, visited)
    requires x in owners && y in owners && owners[x] == owners[y] && AreAdjacent(x, y)
    ensures y in visited ==> x in visited
  {
    if y in visited {
      var i :| InComp(g, owners[y], i, y);
      AdjacentSymmetric(x, y);
      assert InComp(g, owners[y], i, x);
    }
  }

  /** Initialising an owner's list and then replacing it is one update of the table. */
  lemma Refile(g: map<string, seq<seq<int>>>, g1: map<string, seq<seq<int>>>, o: string, comp: seq<int>)
    requires g1 == g || (o !in g && g1 == g[o := []])
    requires o in g1
    ensures g1[o := g1[o] + [comp]] == g[o := Files(g, o) + [comp]]
  {
  }

  /** Filing a fresh component under its owner keeps the Forest invariant. */
  lemma AddComponent(g: map<string, seq<seq<int>>>, owners: map<int, string>, visited: set<int>,
                     o: string, comp: seq<int>, visited': set<int>)
    requires Forest(g, owners, visited)
    requires Fresh(owners, o, visited, comp, visited')
    ensures Forest(g[o := Files(g, o) + [comp]], owners, visited')
  {
    var g' := g[o := Files(g, o) + [comp]];
    AddKeepsShape(g, owners, o, comp);
    AddKeepsDisjoint(g, visited, o, comp);
    AddKeepsClosed(g, owners, visited, o, comp, visited');
    InCompAfterAdd(g, o, comp);
    forall x | x in visited' ensures x in owners && exists i :: InComp(g', owners[x], i, x) {
      if x in visited {
        var i :| InComp(g, owners[x], i, x);
        assert InComp(g', owners[x], i, x);
      } else {
        assert InComp(g', o, |Files(g, o)|, x);
      }
    }
  }

  /** The first k boxes have all been visited. */
  ghost predicate PrefixVisited(boxes: seq<Checkbox>, k: int, visited: set<int>)
    requires 0 <= k <= |boxes|
  {
    forall j :: 0 <= j < k ==> boxes[j].id in visited
  }

  /** One round of the outer loop that files a fresh component keeps both loop invariants. */
  lemma FileStep(boxes: seq<Checkbox>, k: int, g: map<string, seq<seq<int>>>, owners: map<int, string>,
                 visited: set<int>, o: string, comp: seq<int>, visited': set<int>)
    requires 0 <= k < |boxes| && PrefixVisited(boxes, k, visited)
    requires Forest(g, owners, visited)
    requires Fresh(owners, o, visited, comp, visited') && comp[0] == boxes[k].id
    ensures Forest(g[o := Files(g, o) + [comp]], owners, visited')
    ensures PrefixVisited(boxes, k + 1, visited')
  {
    AddComponent(g, owners, visited, o, comp, visited');
    assert comp[0] in comp;
  }

  /**
   * `findConnectedComponents`: for each checked, owned box not yet visited,
   * flood-fill its component and file it under the box's owner. The result
   * partitions the checked, owned boxes: each lies in exactly one component,
   * filed under its own owner; components are connected and maximal.
   */
  method FindConnectedComponents(checkboxes: seq<Checkbox>) returns (userGroups: UserGroups)
    requires DistinctIds(checkboxes)
    ensures userGroups.Valid()
    ensures WellFormed(userGroups.table)
    ensures OnlyOwned(userGroups.table, Owners(checkboxes))
    ensures Covers(userGroups.table, Owners(checkboxes))
    ensures Disjoint(userGroups.table)
    ensures Closed(userGroups.table, Owners(checkboxes))
  {
    var checkedBoxes := CheckedOwned(checkboxes);
    CheckedOwnedDistinct(checkboxes);
    ghost var owners := OwnerIndex(checkedBoxes);
    OwnerIndexAll(checkedBoxes);
    var visited: set<int> := {};
    userGroups := Empty();
    for k := 0 to |checkedBoxes|
      invariant userGroups.Valid()
      invariant Forest(userGroups.table, owners, visited)
      invariant PrefixVisited(checkedBoxes, k, visited)
    {
      var box := checkedBoxes[k];
      assert Counted(box);
      if box.id in visited || !HasOwner(box) {
        continue;
      }
      var component, visited' := FloodFill(checkedBoxes, visited, box);
      var owner := box.userId.value;
      assert Fresh(owners, owner, visited, component, visited');
      ghost var g := userGroups.table;
      if userGroups.Get(owner).None? {
        userGroups := userGroups.Set(owner, []);
      }
      ghost var g1 := userGroups.table;
      userGroups := userGroups.Set(owner, userGroups.table[owner] + [component]);
      Refile(g, g1, owner, component);
      FileStep(checkedBoxes, k, g, owners, visited, owner, component, visited');
      visited := visited';
    }
    forall x | x in owners ensures exists i :: InComp(userGroups.table, owners[x], i, x) {
      var j :| 0 <= j < |checkedBoxes| && checkedBoxes[j].id == x;
      assert checkedBoxes[j].id in visited;
    }
  }
}
